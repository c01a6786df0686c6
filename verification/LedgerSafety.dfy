/**
 The invariant over whole runs: every call from outside, every part of a bundle, and every
 re-entrant call in between keeps it. owed is what the contract holds beyond deposits and
 stakes when the part begins: prefunds of operations not yet executed, and fees collected.
 */
module LedgerSafety {
  import opened Evm
  import opened Ledger
  import opened GasAccounting
  import opened EntryPointModel
  import opened LedgerInvariants

  function Prefunds(infos: seq<OpInfo>): nat {
    if infos == [] then 0 else infos[0].prefund + Prefunds(infos[1..])
  }

  // ----- calls out -----

  lemma {:induction false} RunExternalAdvances(l: Ledger, env: Env, call: External, owed: nat)
    requires Inv(l, owed)
    ensures Advances(l, RunExternal(l, env, call), owed)
    decreases call, 0
  {
    hide Inv;
    if call.ok { ApplyAllAdvances(l, env, true, call.steps, owed); }
  }

  /** A payment of money that is owed goes through unless the receiver refuses it. */
  lemma {:induction false} PayAdvances(l: Ledger, env: Env, locked: bool, to: Address, value: nat,
          call: External, owed: nat)
    requires Inv(l, owed + value)
    ensures Pay(l, env, locked, to, value, call).Returned? <==> to == env.self || call.ok
    ensures Pay(l, env, locked, to, value, call).Returned? ==>
              Advances(l, Pay(l, env, locked, to, value, call).value, owed)
    decreases call, 0
  {
    CanPay(l, value, owed);
    hide Inv;
    if to == env.self {
      CreditKeeps(l, env.self, value, Deposited(env.self, value), owed);
    } else if call.ok {
      Paid(l, value, owed);
      ApplyAllAdvances(l.(balance := l.balance - value), env, locked, call.steps, owed);
    }
  }

  lemma CanPay(l: Ledger, value: nat, owed: nat)
    requires Inv(l, owed + value)
    ensures value <= l.balance
  {
  }

  lemma Paid(l: Ledger, value: nat, owed: nat)
    requires Inv(l, owed + value)
    ensures value <= l.balance && Inv(l.(balance := l.balance - value), owed)
  {
    BalanceKeeps(l, l.balance - value, l.forced, owed + value, owed);
  }

  // ----- validation: the prefund becomes owed -----

  lemma {:induction false} CreateSenderAdvances(l: Ledger, env: Env, run: Run, owed: nat)
    requires Inv(l, owed)
    ensures CreateSenderIfNeeded(l, env, run).Pass? ==> Advances(l, CreateSenderIfNeeded(l, env, run).value, owed)
    decreases run, 0
  {
    hide Inv;
    RunExternalAdvances(l, env, run.factory, owed);
  }

  lemma {:induction false} AccountAdvances(l: Ledger, env: Env, run: Run, op: MemoryUserOp, prefund: Word, owed: nat)
    requires Inv(l, owed)
    ensures ValidateAccountPrepayment(l, env, run, op, prefund).Pass? ==>
              Advances(l, ValidateAccountPrepayment(l, env, run, op, prefund).value,
                       owed + (if op.paymaster == NO_ADDRESS then prefund else 0))
    decreases run, 1
  {
    hide Inv;
    CreateSenderAdvances(l, env, run, owed);
    if CreateSenderIfNeeded(l, env, run).Pass? && run.validate.ok {
      var l1 := CreateSenderIfNeeded(l, env, run).value;
      RunExternalAdvances(l1, env, run.validate, owed);
      TakePrefundKeeps(RunExternal(l1, env, run.validate), op.sender, prefund, AA21, owed);
    }
  }

  lemma {:induction false} PaymasterAdvances(l: Ledger, env: Env, run: Run, op: MemoryUserOp, prefund: Word, owed: nat)
    requires Inv(l, owed)
    ensures ValidatePaymasterPrepayment(l, env, run, op, prefund).Pass? ==>
              Advances(l, ValidatePaymasterPrepayment(l, env, run, op, prefund).value, owed + prefund)
    decreases run, 1
  {
    hide Inv;
    TakePrefundKeeps(l, op.paymaster, prefund, AA31, owed);
    if TakePrefund(l, op.paymaster, prefund, AA31).Pass? {
      var l1 := TakePrefund(l, op.paymaster, prefund, AA31).value;
      RunExternalAdvances(l1, env, run.validatePaymaster, owed + prefund);
    }
  }

  lemma {:induction false} ValidatePrepaymentAdvances(l: Ledger, env: Env, run: Run, owed: nat)
    requires Inv(l, owed)
    ensures var r := ValidatePrepayment(l, env, run);
            r.Pass? ==> Advances(l, r.value.0, owed + r.value.1.prefund)
    decreases run, 2
  {
    hide Inv;
    if ValidatePrepayment(l, env, run).Pass? {
      var op := CopyUserOpToMemory(run.op).value;
      var prefund := RequiredPrefund(op);
      AccountAdvances(l, env, run, op, prefund, owed);
      var l1 := ValidateAccountPrepayment(l, env, run, op, prefund).value;
      var owed1 := owed + (if op.paymaster == NO_ADDRESS then prefund else 0);
      ValidateAndUpdateNonceKeeps(l1, op.sender, op.nonce, owed1);
      if op.paymaster != NO_ADDRESS {
        PaymasterAdvances(ValidateAndUpdateNonce(l1, op.sender, op.nonce).value, env, run, op, prefund, owed);
      }
    }
  }

  lemma {:induction false} ValidateAllAdvances(l: Ledger, env: Env, aggregator: Address, runs: seq<Run>,
          base: nat, local: nat, owed: nat)
    requires Inv(l, owed)
    ensures var r := ValidateAll(l, env, aggregator, runs, base, local);
            r.Going? ==> Advances(l, r.ledger, owed + Prefunds(r.value))
    decreases runs
  {
    hide Inv, ValidatePrepayment, ValidationDataCode;
    var r := ValidateAll(l, env, aggregator, runs, base, local);
    if runs != [] && r.Going? {
      ValidatePrepaymentAdvances(l, env, runs[0], owed);
      var (l1, info) := ValidatePrepayment(l, env, runs[0]).value;
      ValidateAllAdvances(l1, env, aggregator, runs[1..], base + 1, local + 1, owed + info.prefund);
      assert r.value[1..] == ValidateAll(l1, env, aggregator, runs[1..], base + 1, local + 1).value;
    }
  }

  // ----- execution: the prefund becomes a fee and a refund -----

  lemma SettleAdvances(l: Ledger, info: OpInfo, mode: Mode, cost: Word, owed: nat)
    requires Inv(l, owed + info.prefund)
    ensures !Settle(l, info, mode, cost).RefundOverflow? && !Settle(l, info, mode, cost).PostOpFailed?
    ensures Settle(l, info, mode, cost).LowPrefund? ==> !mode.PostOpReverted?
    ensures Settle(l, info, mode, cost).Settled? ==>
              && Settle(l, info, mode, cost).actualGasCost <= info.prefund
              && Advances(l, Settle(l, info, mode, cost).ledger, owed + Settle(l, info, mode, cost).actualGasCost)
  {
    hide Inv;
    if cost <= info.prefund {
      var refund := info.prefund - cost;
      CreditKeeps(l, Payer(info.op), refund, Refunded(Payer(info.op), refund), owed + cost);
    }
  }

  lemma {:induction false} PostExecutionAdvances(l: Ledger, env: Env, run: Run, info: OpInfo, mode: Mode,
          actualGas: Word, spent: Word, owed: nat)
    requires Inv(l, owed + info.prefund)
    ensures var r := PostExecution(l, env, run, info, mode, actualGas, spent);
            && !r.RefundOverflow?
            && (mode.PostOpReverted? ==> r.Settled?)
            && (r.Settled? ==> r.actualGasCost <= info.prefund && Advances(l, r.ledger, owed + r.actualGasCost))
    decreases run, 1
  {
    hide Inv, Settle;
    var l1 := if CallsPostOp(info, mode) then RunExternal(l, env, run.postOp) else l;
    if CallsPostOp(info, mode) { RunExternalAdvances(l, env, run.postOp, owed + info.prefund); }
    SettleAdvances(l1, info, mode, Cost(ChargedGas(info, actualGas, spent), GasPrice(info.op, env.basefee)), owed);
  }

  lemma {:induction false} InnerHandleOpAdvances(l: Ledger, env: Env, run: Run, info: OpInfo, owed: nat)
    requires Inv(l, owed + info.prefund)
    ensures var r := InnerHandleOp(l, env, run, info);
            r.InnerDone? ==> r.actualGasCost <= info.prefund && Advances(l, r.ledger, owed + r.actualGasCost)
    decreases run, 2
  {
    hide Inv, PostExecution, Wrap;
    if InnerHandleOp(l, env, run, info).InnerDone? {
      var mode := if run.op.hasCallData && !run.call.ok then OpReverted else OpSucceeded;
      var l1 := if run.op.hasCallData then RunExternal(l, env, run.call) else l;
      if run.op.hasCallData { RunExternalAdvances(l, env, run.call, owed + info.prefund); }
      PostExecutionAdvances(l1, env, run, info, mode, Wrap(run.gas.innerStart - run.gas.afterCall + info.preOpGas),
                            run.gas.postStart - run.gas.postEnd, owed);
    }
  }

  lemma OutOfGasExactly(l: Ledger, env: Env, run: Run, info: OpInfo)
    ensures InnerHandleOp(l, env, run, info).OutOfGas? <==> LacksGas(run, info.op)
  {
    hide RunExternal, PostExecution, Wrap, GasNeeded;
  }

  /** Execution of an operation fails exactly for want of gas, never of money, and takes at most the prefund. */
  lemma {:induction false} ExecuteUserOpAdvances(l: Ledger, env: Env, run: Run, info: OpInfo, owed: nat)
    requires Inv(l, owed + info.prefund)
    ensures var r := ExecuteUserOp(l, env, run, info);
            && (r.Fail? <==> LacksGas(run, info.op))
            && (r.Fail? ==> r.code == AA95)
            && (r.Pass? ==> r.value.1 <= info.prefund && Advances(l, r.value.0, owed + r.value.1))
    decreases run, 3
  {
    hide Inv, PostExecution, InnerHandleOp, LacksGas, Wrap;
    OutOfGasExactly(l, env, run, info);
    InnerHandleOpAdvances(l, env, run, info, owed);
    PostExecutionAdvances(l, env, run, info, PostOpReverted,
                          Wrap(run.gas.execStart - run.gas.afterInner + info.preOpGas),
                          run.gas.fallbackStart - run.gas.fallbackEnd, owed);
  }

  /** What each operation pays, in order; the list ends before a failure. */
  function Costs(l: Ledger, env: Env, runs: seq<Run>, infos: seq<OpInfo>): (costs: seq<nat>)
    requires |runs| == |infos|
    ensures |costs| <= |runs|
    decreases runs
  {
    if runs == [] then []
    else
      match ExecuteUserOp(l, env, runs[0], infos[0])
      case Fail(_) => []
      case Pass((l1, cost)) => [cost] + Costs(l1, env, runs[1..], infos[1..])
  }

  function Sum(costs: seq<nat>): nat {
    if costs == [] then 0 else costs[0] + Sum(costs[1..])
  }

  /** Operation k is the first one that lacks gas. */
  predicate FirstLacksGas(runs: seq<Run>, infos: seq<OpInfo>, k: int)
    requires |runs| == |infos|
  {
    0 <= k < |runs| && LacksGas(runs[k], infos[k].op) && forall j :: 0 <= j < k ==> !LacksGas(runs[j], infos[j].op)
  }

  /** The loop ends at the first operation that lacks gas; else the unchecked sum of the fees is their exact sum. */
  lemma {:induction false} ExecuteAllAdvances(l: Ledger, env: Env, runs: seq<Run>, infos: seq<OpInfo>,
          base: nat, collected: Word, owed: nat)
    requires |runs| == |infos|
    requires Inv(l, owed + Prefunds(infos) + collected)
    ensures var r := ExecuteAll(l, env, runs, infos, base, collected);
            && (r.Stopped? ==> r.code == AA95 && FirstLacksGas(runs, infos, r.index - base))
            && (r.Going? ==>
                  && (forall k :: 0 <= k < |runs| ==> !LacksGas(runs[k], infos[k].op))
                  && r.value == collected + Sum(Costs(l, env, runs, infos))
                  && |Costs(l, env, runs, infos)| == |runs|
                  && Advances(l, r.ledger, owed + r.value))
    decreases runs
  {
    hide Inv, ExecuteUserOp, LacksGas;
    if runs != [] {
      var rest := owed + Prefunds(infos[1..]) + collected;
      ExecuteUserOpAdvances(l, env, runs[0], infos[0], rest);
      if ExecuteUserOp(l, env, runs[0], infos[0]).Pass? {
        var (l1, cost) := ExecuteUserOp(l, env, runs[0], infos[0]).value;
        CanPay(l1, collected + cost, owed + Prefunds(infos[1..]));
        NoWrap(l1, collected + cost, owed + Prefunds(infos[1..]));
        ExecuteAllAdvances(l1, env, runs[1..], infos[1..], base + 1, collected + cost, owed);
        var costs := Costs(l, env, runs, infos);
        assert costs[1..] == Costs(l1, env, runs[1..], infos[1..]);
        ShiftLacksGas(runs, infos);
      }
    }
  }

  lemma ShiftLacksGas(runs: seq<Run>, infos: seq<OpInfo>)
    requires |runs| == |infos| > 0 && !LacksGas(runs[0], infos[0].op)
    ensures forall k :: FirstLacksGas(runs[1..], infos[1..], k) ==> FirstLacksGas(runs, infos, k + 1)
    ensures (forall k :: 0 <= k < |runs[1..]| ==> !LacksGas(runs[1..][k], infos[1..][k].op)) ==>
              forall k :: 0 <= k < |runs| ==> !LacksGas(runs[k], infos[k].op)
  {
    hide LacksGas;
    forall k | FirstLacksGas(runs[1..], infos[1..], k) ensures FirstLacksGas(runs, infos, k + 1) {
      forall j | 0 <= j < k + 1 ensures !LacksGas(runs[j], infos[j].op) {
        if j > 0 { assert !LacksGas(runs[1..][j - 1], infos[1..][j - 1].op); }
      }
    }
    if forall k :: 0 <= k < |runs[1..]| ==> !LacksGas(runs[1..][k], infos[1..][k].op) {
      forall k | 0 <= k < |runs| ensures !LacksGas(runs[k], infos[k].op) {
        if k > 0 { assert !LacksGas(runs[1..][k - 1], infos[1..][k - 1].op); }
      }
    }
  }

  lemma NoWrap(l: Ledger, value: nat, owed: nat)
    requires Inv(l, owed + value)
    ensures value < TWO_TO_256 && Wrap(value) == value
  {
  }

  lemma {:induction false} CompensateAdvances(l: Ledger, env: Env, beneficiary: Address, collected: Word,
          payout: External, owed: nat)
    requires Inv(l, owed + collected)
    ensures var r := Compensate(l, env, beneficiary, collected, payout);
            && (r.Done? <==> beneficiary != NO_ADDRESS && (beneficiary == env.self || payout.ok))
            && (r.Done? ==> Advances(l, r.ledger, owed))
    decreases payout, 1
  {
    hide Inv;
    PayAdvances(l, env, true, beneficiary, collected, payout, owed);
  }

  lemma {:induction false} HandleOpsAdvances(l: Ledger, env: Env, locked: bool, step: Step, owed: nat)
    requires Inv(l, owed) && step.HandleOps?
    ensures var r := HandleOpsResult(l, env, locked, step);
            r.Done? ==> Advances(l, r.ledger, owed)
    decreases step, 1
  {
    hide Inv, ValidateAll, ExecuteAll, Compensate;
    if HandleOpsResult(l, env, locked, step).Done? {
      ValidateAllAdvances(l, env, NO_ADDRESS, step.runs, 0, 0, owed);
      var r1 := ValidateAll(l, env, NO_ADDRESS, step.runs, 0, 0);
      ExecuteAllAdvances(r1.ledger, env, step.runs, r1.value, 0, 0, owed);
      var r2 := ExecuteAll(r1.ledger, env, step.runs, r1.value, 0, 0);
      CompensateAdvances(r2.ledger, env, step.beneficiary, r2.value, step.payout, owed);
    }
  }

  // ----- bundles with aggregators -----

  lemma {:induction false} CheckSignaturesAdvances(l: Ledger, env: Env, groups: seq<Group>, owed: nat)
    requires Inv(l, owed)
    ensures var r := CheckSignatures(l, env, groups);
            r.Going? ==> Advances(l, r.ledger, owed)
    decreases groups
  {
    hide Inv;
    if groups != [] && CheckSignatures(l, env, groups).Going? {
      RunExternalAdvances(l, env, groups[0].signature, owed);
      var l1 := if groups[0].aggregator != NO_ADDRESS then RunExternal(l, env, groups[0].signature) else l;
      CheckSignaturesAdvances(l1, env, groups[1..], owed);
    }
  }

  lemma {:induction false} PrefundsConcat(infos: seq<OpInfo>, rest: seq<OpInfo>)
    ensures Prefunds(infos + rest) == Prefunds(infos) + Prefunds(rest)
  {
    if infos == [] {
      assert infos + rest == rest;
    } else {
      PrefundsConcat(infos[1..], rest);
      assert (infos + rest)[1..] == infos[1..] + rest;
    }
  }

  lemma {:induction false} ValidateGroupsAdvances(l: Ledger, env: Env, groups: seq<Group>, base: nat, owed: nat)
    requires Inv(l, owed)
    ensures var r := ValidateGroups(l, env, groups, base);
            r.Going? ==> Advances(l, r.ledger, owed + Prefunds(r.value))
    decreases groups
  {
    hide Inv, ValidateAll;
    if groups != [] && ValidateGroups(l, env, groups, base).Going? {
      ValidateAllAdvances(l, env, groups[0].aggregator, groups[0].runs, base, 0, owed);
      var r1 := ValidateAll(l, env, groups[0].aggregator, groups[0].runs, base, 0);
      ValidateGroupsAdvances(r1.ledger, env, groups[1..], base + |groups[0].runs|, owed + Prefunds(r1.value));
      PrefundsConcat(r1.value, ValidateGroups(r1.ledger, env, groups[1..], base + |groups[0].runs|).value);
    }
  }

  lemma NoPrefunds()
    ensures Prefunds([]) == 0
  {
  }

  lemma {:induction false} ExecuteGroupsAdvances(l: Ledger, env: Env, groups: seq<Group>, infos: seq<OpInfo>,
          base: nat, collected: Word, owed: nat)
    requires |infos| == CountRuns(groups)
    requires Inv(l, owed + Prefunds(infos) + collected)
    ensures var r := ExecuteGroups(l, env, groups, infos, base, collected);
            && (r.Stopped? ==> r.code == AA95)
            && (r.Going? ==> Advances(l, r.ledger, owed + r.value))
    decreases groups
  {
    hide Inv, ExecuteAll, Prefunds;
    if groups == [] {
      NoPrefunds();
    } else {
      var k := |groups[0].runs|;
      PrefundsConcat(infos[..k], infos[k..]);
      assert infos[..k] + infos[k..] == infos;
      ExecuteAllAdvances(l, env, groups[0].runs, infos[..k], base, collected, owed + Prefunds(infos[k..]));
      var r1 := ExecuteAll(l, env, groups[0].runs, infos[..k], base, collected);
      if r1.Going? {
        ExecuteGroupsAdvances(r1.ledger, env, groups[1..], infos[k..], base + k, r1.value, owed);
      }
    }
  }

  lemma {:induction false} HandleAggregatedOpsAdvances(l: Ledger, env: Env, locked: bool, step: Step, owed: nat)
    requires Inv(l, owed) && step.HandleAggregatedOps?
    ensures var r := HandleAggregatedOpsResult(l, env, locked, step);
            r.Done? ==> Advances(l, r.ledger, owed)
    decreases step, 1
  {
    hide Inv, CheckSignatures, ValidateGroups, ExecuteGroups, Compensate;
    if HandleAggregatedOpsResult(l, env, locked, step).Done? {
      CheckSignaturesAdvances(l, env, step.groups, owed);
      var l0 := CheckSignatures(l, env, step.groups).ledger;
      ValidateGroupsAdvances(l0, env, step.groups, 0, owed);
      var r1 := ValidateGroups(l0, env, step.groups, 0);
      ExecuteGroupsAdvances(r1.ledger, env, step.groups, r1.value, 0, 0, owed);
      var r2 := ExecuteGroups(r1.ledger, env, step.groups, r1.value, 0, 0);
      CompensateAdvances(r2.ledger, env, step.beneficiary, r2.value, step.payout, owed);
    }
  }

  // ----- any step -----

  lemma {:induction false} WithdrawStakeAdvances(l: Ledger, env: Env, locked: bool, caller: Address,
          to: Address, call: External, owed: nat)
    requires Inv(l, owed)
    ensures Advances(l, Committed(l, WithdrawStakeResult(l, env, locked, caller, to, call)), owed)
    decreases call, 1
  {
    hide Inv;
    StakeReleasedKeeps(l, env, caller, owed);
    if StakeReleased(l, env, caller).Returned? {
      PayAdvances(StakeReleased(l, env, caller).value, env, locked, to, Info(l, caller).stake, call, owed);
    }
  }

  lemma {:induction false} WithdrawToAdvances(l: Ledger, env: Env, locked: bool, caller: Address, to: Address,
          amount: nat, call: External, owed: nat)
    requires Inv(l, owed)
    ensures Advances(l, Committed(l, WithdrawToResult(l, env, locked, caller, to, amount, call)), owed)
    decreases call, 1
  {
    hide Inv;
    DepositReleasedKeeps(l, caller, amount, owed);
    if DepositReleased(l, caller, amount).Returned? {
      PayAdvances(DepositReleased(l, caller, amount).value, env, locked, to, amount, call, owed);
    }
  }

  lemma {:induction false} ApplyAdvances(l: Ledger, env: Env, locked: bool, step: Step, owed: nat)
    requires Inv(l, owed)
    ensures Advances(l, Apply(l, env, locked, step), owed)
    decreases step, 2
  {
    hide Inv, DepositToResult, AddStakeResult, UnlockStakeResult, WithdrawStakeResult, WithdrawToResult,
      IncrementNonceResult, HandleOpsResult, HandleAggregatedOpsResult, ForceEtherResult, Committed;
    match step
    case DepositTo(account, value) => DepositToKeeps(l, account, value, owed);
    case AddStake(caller, delay, value) => AddStakeKeeps(l, caller, delay, value, owed);
    case UnlockStake(caller) => UnlockStakeKeeps(l, env, caller, owed);
    case WithdrawStake(caller, to, call) => WithdrawStakeAdvances(l, env, locked, caller, to, call, owed);
    case WithdrawTo(caller, to, amount, call) => WithdrawToAdvances(l, env, locked, caller, to, amount, call, owed);
    case IncrementNonce(caller, key) => IncrementNonceKeeps(l, caller, key, owed);
    case HandleOps(_, _, _) => HandleOpsAdvances(l, env, locked, step, owed);
    case HandleAggregatedOps(_, _, _) => HandleAggregatedOpsAdvances(l, env, locked, step, owed);
    case ForceEther(value) => ForceEtherKeeps(l, value, owed);
  }

  /** Any sequence of calls from outside, inside a bundle or not, keeps the invariant. */
  lemma {:induction false} ApplyAllAdvances(l: Ledger, env: Env, locked: bool, steps: seq<Step>, owed: nat)
    requires Inv(l, owed)
    ensures Advances(l, ApplyAll(l, env, locked, steps), owed)
    decreases steps
  {
    hide Inv, Apply;
    if steps != [] {
      ApplyAdvances(l, env, locked, steps[0], owed);
      ApplyAllAdvances(Apply(l, env, locked, steps[0]), env, locked, steps[1..], owed);
    }
  }
}
