/** Solvency, conservation and nonces, for every history of the entry point. */
module LedgerTheorems {
  import opened BitwiseOr
  import opened Evm
  import opened ModArith
  import opened Ledger
  import opened GasAccounting
  import opened EntryPointModel
  import opened OperationRules
  import opened LedgerInvariants
  import opened LedgerSafety

  // ----- solvency -----

  /** Every reachable ledger satisfies the invariant, and no later transaction loses an event. */
  lemma {:induction false} HistorySafe(txs: seq<Transaction>)
    ensures Inv(History(txs), 0)
    ensures |txs| > 0 ==> History(txs[..|txs| - 1]).log <= History(txs).log
  {
    hide Inv;
    if txs == [] {
      EmptyLedger(EMPTY);
    } else {
      HistorySafe(txs[..|txs| - 1]);
      var tx := txs[|txs| - 1];
      ApplyAllAdvances(History(txs[..|txs| - 1]), tx.env, false, tx.steps, 0);
    }
  }

  /** From any point of a history to its end no event is lost. */
  lemma {:induction false} HistoryAdvances(txs: seq<Transaction>, m: nat)
    requires m <= |txs|
    ensures Inv(History(txs[..m]), 0) && Advances(History(txs[..m]), History(txs), 0)
  {
    hide Inv;
    HistorySafe(txs);
    if m == |txs| {
      assert txs[..m] == txs;
    } else {
      var before := txs[..|txs| - 1];
      assert before[..m] == txs[..m];
      HistoryAdvances(before, m);
    }
  }

  /** Between transactions the ether held is exactly the deposits, the stakes and what was forced in. */
  lemma SolventAlways(txs: seq<Transaction>)
    ensures History(txs).balance == Total(History(txs).deposits) + History(txs).forced
    ensures History(txs).balance < TWO_TO_256
  {
    hide Total, NoncesIncrease, AccountsMatch, History;
    HistorySafe(txs);
  }

  /**
   A deposit can always be withdrawn, even in the middle of a bundle: only the receiver can refuse.
   The amount leaves the caller's deposit alone, and what the receiver calls back is done with the
   lock as it is.
   */
  lemma DepositIsWithdrawable(l: Ledger, env: Env, locked: bool, caller: Address, to: Address, amount: nat,
          call: External, owed: nat)
    returns (debited: Ledger)
    requires Inv(l, owed)
    ensures var r := WithdrawToResult(l, env, locked, caller, to, amount, call);
            && (r.Returned? <==> amount <= Info(l, caller).deposit && (to == env.self || call.ok))
            && (r.Returned? ==>
                  && Moved(l, debited, Withdrawn(caller, amount))
                  && PaidOut(debited, r.value, env, locked, to, amount, call))
  {
    hide Inv, ApplyAll;
    debited := Committed(l, DepositReleased(l, caller, amount));
    DepositReleasedKeeps(l, caller, amount, owed);
    if DepositReleased(l, caller, amount).Returned? {
      PayAdvances(debited, env, locked, to, amount, call, owed);
    }
  }

  // ----- what one operation pays -----

  /** From l to l' the deposit of the event's account changes as the event says, and nothing else does. */
  ghost predicate Moved(l: Ledger, l': Ledger, e: Event) {
    && l'.nonces == l.nonces && l'.balance == l.balance && l'.forced == l.forced && l'.log == l.log + [e]
    && Info(l', e.account).deposit == Info(l, e.account).deposit + DepositChange(e, e.account)
    && Info(l', e.account).(deposit := Info(l, e.account).deposit) == Info(l, e.account)
    && forall b: Address :: b != e.account ==> Info(l', b) == Info(l, b)
  }

  /** From l to l' the account is refunded v, once, and nothing else happens. */
  ghost predicate RefundMade(l: Ledger, l': Ledger, a: Address, v: int) {
    (v == 0 && l' == l) || (v >= 0 && Moved(l, l', Refunded(a, v)))
  }

  lemma TakePrefundDebits(l: Ledger, payer: Address, prefund: nat, code: Code)
    requires TakePrefund(l, payer, prefund, code).Pass?
    ensures Moved(l, TakePrefund(l, payer, prefund, code).value, Charged(payer, prefund))
  {
  }

  lemma AccountPart(l: Ledger, env: Env, run: Run, op: MemoryUserOp, prefund: Word)
    requires ValidateAccountPrepayment(l, env, run, op, prefund).Pass?
    ensures ValidateAccountPrepayment(l, env, run, op, prefund)
         == if op.paymaster != NO_ADDRESS then Pass(AccountCalls(l, env, run))
            else TakePrefund(AccountCalls(l, env, run), op.sender, prefund, AA21)
  {
    hide TakePrefund, ApplyAll;
    assert CreateSenderIfNeeded(l, env, run).Pass?;
    var created := if run.op.hasInitCode then Effects(l, env, run.factory) else l;
    assert CreateSenderIfNeeded(l, env, run).value == created;
  }

  /**
   Validation takes the whole prefund, once, out of the deposit of the paymaster if the operation
   names one, else of the sender, and accepts the operation's nonce.
   */
  lemma PrefundTakenFromPayer(l: Ledger, env: Env, run: Run) returns (before: Ledger, after: Ledger)
    requires ValidatePrepayment(l, env, run).Pass?
    ensures var (l', info) := ValidatePrepayment(l, env, run).value;
            && Moved(before, after, Charged(PayerOf(run.op), Prefund(run.op)))
            && if PaymasterOf(run.op) == NO_ADDRESS
               then before == AccountCalls(l, env, run) && Pass(l') == ValidateAndUpdateNonce(after,
                       run.op.sender, run.op.nonce)
               else Pass(before) == ValidateAndUpdateNonce(AccountCalls(l, env, run), run.op.sender, run.op.nonce)
                    && l' == Effects(after, env, run.validatePaymaster)
  {
    hide Moved, Wrap, RequiredPrefund, GasValuesFit, ValidateAndUpdateNonce, CopyUserOpToMemory,
      ValidateAccountPrepayment, TakePrefund, AccountCalls, ApplyAll, Prefund, SmallValues;
    var op := CopyUserOpToMemory(run.op).value;
    var prefund := RequiredPrefund(op);
    CopyExact(run.op);
    CopyFits(op, run.op);
    CopyCosts(op, run.op, env.basefee);
    AccountPart(l, env, run, op, prefund);
    if op.paymaster == NO_ADDRESS {
      before := AccountCalls(l, env, run);
      TakePrefundDebits(before, op.sender, prefund, AA21);
      after := TakePrefund(before, op.sender, prefund, AA21).value;
    } else {
      before := ValidateAndUpdateNonce(AccountCalls(l, env, run), op.sender, op.nonce).value;
      TakePrefundDebits(before, op.paymaster, prefund, AA31);
      after := TakePrefund(before, op.paymaster, prefund, AA31).value;
      assert ValidatePaymasterPrepayment(before, env, run, op, prefund)
          == Pass(RunExternal(after, env, run.validatePaymaster));
    }
  }

  // ----- gas -----

  /** What validation leaves behind for an operation. */
  predicate Checked(info: OpInfo) {
    && GasValuesFit(info.op)
    && info.prefund == RequiredPrefund(info.op)
    && info.preOpGas < UINT64 + info.op.preVerificationGas
  }

  /** The info was filled from this operation, and its verification stayed within the limits it set. */
  lemma ValidatedIsChecked(l: Ledger, env: Env, run: Run)
    ensures var r := ValidatePrepayment(l, env, run);
            r.Pass? ==>
              && FilledFrom(r.value.1, run)
              && run.gas.start - run.gas.afterAccount <= run.op.verificationGasLimit
              && (PaymasterOf(run.op) != NO_ADDRESS ==>
                    run.gas.beforePaymaster - run.gas.afterPaymaster <= run.op.paymasterVerificationGasLimit)
  {
    hide ValidateAccountPrepayment, ValidateAndUpdateNonce, RequiredPrefund, RunExternal, TakePrefund, Prefund,
      GasValuesFit, CopyUserOpToMemory;
    if ValidatePrepayment(l, env, run).Pass? {
      var op := CopyUserOpToMemory(run.op).value;
      CopyExact(run.op);
      CopyFits(op, run.op);
      CopyCosts(op, run.op, env.basefee);
    }
  }

  lemma Fills(l: Ledger, env: Env, run: Run)
    ensures var r := ValidatePrepayment(l, env, run); r.Pass? ==> FilledFrom(r.value.1, run)
  {
    hide ValidatePrepayment, FilledFrom;
    ValidatedIsChecked(l, env, run);
  }

  lemma FilledIsChecked(info: OpInfo, run: Run)
    requires FilledFrom(info, run)
    ensures Checked(info)
  {
    hide GasValuesFit, RequiredPrefund, Prefund;
    CopyFits(info.op, run.op);
    CopyCosts(info.op, run.op, 0);
  }

  lemma {:induction false} ValidateAllFills(l: Ledger, env: Env, aggregator: Address, runs: seq<Run>,
          base: nat, local: nat)
    ensures var r := ValidateAll(l, env, aggregator, runs, base, local);
            r.Going? ==> AllFilled(r.value, runs)
    decreases runs
  {
    hide ValidatePrepayment, ValidationDataCode, FilledFrom;
    var r := ValidateAll(l, env, aggregator, runs, base, local);
    if runs != [] && r.Going? {
      Fills(l, env, runs[0]);
      var l1 := ValidatePrepayment(l, env, runs[0]).value.0;
      ValidateAllFills(l1, env, aggregator, runs[1..], base + 1, local + 1);
      assert r.value[1..] == ValidateAll(l1, env, aggregator, runs[1..], base + 1, local + 1).value;
      forall i | 0 <= i < |runs| ensures FilledFrom(r.value[i], runs[i]) {
        if i > 0 { assert FilledFrom(r.value[1..][i - 1], runs[1..][i - 1]); }
      }
    }
  }

  /** The gas used and the penalty of an execution, without wrapping. */
  function ExactGas(info: OpInfo, actualGas: nat, spent: nat): int {
    var used := actualGas + spent - info.preOpGas;
    var limit := info.op.callGasLimit + info.op.paymasterPostOpGasLimit;
    actualGas + spent + (if limit > used then (limit - used) * PENALTY_PERCENT / 100 else 0)
  }

  /**
   Nothing wraps in the charge of a validated operation: not the prefund, not the gas with its
   penalty, and not the cost. The gas charged lies between the gas used and what was reserved.
   */
  lemma ChargeIsExact(info: OpInfo, basefee: Word, actualGas: Word, spent: Word)
    requires Checked(info) && info.preOpGas <= actualGas <= info.preOpGas + UINT64 && spent <= UINT64
    ensures info.prefund == TotalGasLimit(info.op) * info.op.maxFeePerGas
    ensures ChargedGas(info, actualGas, spent) == ExactGas(info, actualGas, spent)
    ensures actualGas + spent <= ChargedGas(info, actualGas, spent)
    ensures ChargedGas(info, actualGas, spent)
         <= var reserved := info.preOpGas + info.op.callGasLimit + info.op.paymasterPostOpGasLimit;
            if actualGas + spent < reserved then reserved else actualGas + spent
    ensures Cost(ChargedGas(info, actualGas, spent), GasPrice(info.op, basefee))
         == ExactGas(info, actualGas, spent) * GasPrice(info.op, basefee)
  {
    hide GasPrice, Cost, RequiredPrefund, MaxGasValues;
    GasValuesFitEach(info.op);
    PrefundIsExact(info.op);
    var limit := info.op.callGasLimit + info.op.paymasterPostOpGasLimit;
    PenaltyBounds(actualGas + spent, info.preOpGas, limit);
    PenaltyExact(actualGas + spent, info.preOpGas, limit);
    CostIsExact(ChargedGas(info, actualGas, spent), GasPrice(info.op, basefee));
  }

  // ----- what an execution pays, and what survives of it -----

  /** The charge of a filled info is the charge of its operation. */
  lemma ChargeOfFilled(info: OpInfo, run: Run, basefee: Word, used: nat, spent: nat)
    requires FilledFrom(info, run) && used <= UINT64 && spent <= UINT64
    requires used + spent == UsedGas(run)
    ensures used + info.preOpGas < TWO_TO_256
    ensures Cost(ChargedGas(info, used + info.preOpGas, spent), GasPrice(info.op, basefee)) == Charge(run, basefee)
  {
    FilledIsChecked(info, run);
    assert info.preOpGas < UINT64 + MAX_UINT120 + 1 by { GasValuesFitEach(info.op); }
    hide Cost, ChargedGas, GasPrice, Checked, Price, Prefund, GasValuesFit, SmallValues, UsedGas, GasBefore;
    CopyCosts(info.op, run.op, basefee);
    ChargeIsExact(info, basefee, used + info.preOpGas, spent);
    assert ExactGas(info, used + info.preOpGas, spent) == GasCharged(run);
  }

  lemma SettlePays(l: Ledger, info: OpInfo, mode: Mode, cost: Word, owed: nat)
    requires Inv(l, owed + info.prefund)
    ensures var r := Settle(l, info, mode, cost);
            if cost <= info.prefund
            then r.Settled? && r.actualGasCost == cost && RefundMade(l, r.ledger, Payer(info.op), info.prefund - cost)
            else r == if mode.PostOpReverted? then Settled(l, info.prefund) else LowPrefund
  {
    SettleAdvances(l, info, mode, cost, owed);
    hide Inv;
  }

  /** The end of an execution: how it comes out, and what it refunds. */
  lemma PostExecutionPays(l: Ledger, env: Env, run: Run, info: OpInfo, mode: Mode, used: nat, spent: nat, owed: nat)
    requires Inv(l, owed + info.prefund) && FilledFrom(info, run)
    requires used <= UINT64 && spent <= UINT64 && used + info.preOpGas < TWO_TO_256
    requires mode.PostOpReverted? <==> !Settles(run)
    requires !run.innerAborts || mode.PostOpReverted?
    requires used + spent == UsedGas(run)
    ensures var r := PostExecution(l, env, run, info, mode, used + info.preOpGas, spent);
            var fee := Charge(run, env.basefee);
            var l1 := if !mode.PostOpReverted? && CallsBack(run) then Effects(l, env, run.postOp) else l;
            if fee <= Prefund(run.op)
            then r.Settled? && r.actualGasCost == fee
                 && RefundMade(l1, r.ledger, PayerOf(run.op), Prefund(run.op) - fee)
            else r == if mode.PostOpReverted? then Settled(l, Prefund(run.op)) else LowPrefund
  {
    hide Inv, Settle, RefundMade, Charge, Prefund, SmallValues, ApplyAll, Cost, ChargedGas, GasPrice, UsedGas,
      GasBefore;
    var postOp := CallsPostOp(info, mode);
    assert postOp <==> !mode.PostOpReverted? && CallsBack(run);
    var l1 := if postOp then Effects(l, env, run.postOp) else l;
    if postOp { RunExternalAdvances(l, env, run.postOp, owed + info.prefund); }
    CopyCosts(info.op, run.op, env.basefee);
    ChargeOfFilled(info, run, env.basefee, used, spent);
    SettlePays(l1, info, mode, Charge(run, env.basefee), owed);
  }
  lemma NoChargeWraps(info: OpInfo, run: Run)
    requires FilledFrom(info, run)
    ensures info.preOpGas + UINT64 < TWO_TO_256
    ensures info.preOpGas == GasBefore(run) && info.prefund == Prefund(run.op) && CopiedFrom(info.op, run.op)
    ensures LacksGas(run, info.op) <==> ShortOfGas(run)
  {
    hide Prefund;
    CopyFits(info.op, run.op);
    CopyCosts(info.op, run.op, 0);
    assert info.preOpGas <= UINT64 + MAX_UINT120;
    GasNeededIsExact(info.op);
  }

  /** How the inner call ends. */
  lemma InnerPays(l: Ledger, env: Env, run: Run, info: OpInfo, owed: nat)
    requires Inv(l, owed + info.prefund) && FilledFrom(info, run)
    ensures var r := InnerHandleOp(l, env, run, info);
            var fee := Charge(run, env.basefee);
            if ShortOfGas(run) then r == OutOfGas
            else if !Settles(run) then r == OtherRevert
            else if fee > Prefund(run.op) then r == PrefundTooLow
            else r.InnerDone? && r.actualGasCost == fee
                 && RefundMade(Kept(l, env, run), r.ledger, PayerOf(run.op), Prefund(run.op) - fee)
  {
    hide Inv, PostExecution, RefundMade, Charge, Prefund, ApplyAll, Wrap, ShortOfGas, FilledFrom, CallsBack;
    NoChargeWraps(info, run);
    OutOfGasExactly(l, env, run, info);
    var mode := if run.op.hasCallData && !run.call.ok then OpReverted else OpSucceeded;
    var l1 := if run.op.hasCallData then Effects(l, env, run.call) else l;
    if run.op.hasCallData { RunExternalAdvances(l, env, run.call, owed + info.prefund); }
    var used, spent := run.gas.innerStart - run.gas.afterCall, run.gas.postStart - run.gas.postEnd;
    if Settles(run) {
      PostExecutionPays(l1, env, run, info, mode, used, spent, owed);
    } else if !run.innerAborts {
      PostOpFails(l1, env, run, info, mode, used + info.preOpGas, spent);
    }
  }

  lemma PostOpFails(l: Ledger, env: Env, run: Run, info: OpInfo, mode: Mode, actualGas: Word, spent: Word)
    requires FilledFrom(info, run) && CallsBack(run) && !run.postOp.ok && !mode.PostOpReverted?
    ensures PostExecution(l, env, run, info, mode, actualGas, spent) == PostOpFailed
  {
    hide Prefund, SmallValues;
  }

  /**
   An execution fails exactly if it is short of gas. Else the operation pays its fee, and the ledger
   is the one that the surviving calls left, with prefund minus fee refunded once to the party that
   was charged. The calls survive unless the inner call aborts, postOp reverts or the charge is
   above the prefund.
   */
  lemma PrefundIsFeePlusRefund(l: Ledger, env: Env, run: Run, info: OpInfo, owed: nat)
    requires Inv(l, owed + info.prefund) && FilledFrom(info, run)
    ensures var r := ExecuteUserOp(l, env, run, info);
            var fee := Fee(run, env.basefee);
            if ShortOfGas(run) then r == Fail(AA95)
            else r.Pass? && r.value.1 == fee
                 && RefundMade(Kept(l, env, run), r.value.0, PayerOf(run.op), Prefund(run.op) - fee)
  {
    hide Inv, InnerHandleOp, PostExecution, Moved, Charge, Prefund, ApplyAll, Wrap, ShortOfGas, FilledFrom;
    NoChargeWraps(info, run);
    InnerPays(l, env, run, info, owed);
    if !ShortOfGas(run) && !Settles(run) {
      PostExecutionPays(l, env, run, info, PostOpReverted, run.gas.execStart - run.gas.afterInner,
                        run.gas.fallbackStart - run.gas.fallbackEnd, owed);
    }
  }

  /**
   What an operation pays is its gas at a price that exceeds neither its cap nor tip plus base fee,
   or less: never more than its prefund, and exactly that gas at that price if the gas is reserved.
   */
  lemma PaysExactCost(l: Ledger, env: Env, run: Run, info: OpInfo, owed: nat)
    requires Inv(l, owed + info.prefund) && FilledFrom(info, run) && ExecuteUserOp(l, env, run, info).Pass?
    ensures var paid := ExecuteUserOp(l, env, run, info).value.1;
            && paid <= Prefund(run.op)
            && paid <= GasCharged(run) * Min(run.op.maxFeePerGas, run.op.maxPriorityFeePerGas + env.basefee)
            && (GasCharged(run) <= ReservedGas(run.op) && run.op.maxPriorityFeePerGas + env.basefee < TWO_TO_256 ==>
                  paid == GasCharged(run) * Min(run.op.maxFeePerGas, run.op.maxPriorityFeePerGas + env.basefee))
  {
    hide Inv, ExecuteUserOp, FilledFrom, GasCharged, Kept, RefundMade, Price, ReservedGas, ShortOfGas;
    PrefundIsFeePlusRefund(l, env, run, info, owed);
    FeeIsFair(run, env.basefee);
    PriceIsFair(run.op, env.basefee);
    if GasCharged(run) <= ReservedGas(run.op) { PrefundSuffices(run, env.basefee); }
  }

  /** An operation that is charged no more gas than it reserved is never short of prefund. */
  lemma PrefundSuffices(run: Run, basefee: Word)
    requires GasCharged(run) <= ReservedGas(run.op)
    ensures Charge(run, basefee) <= Prefund(run.op) && Fee(run, basefee) == Charge(run, basefee)
  {
    hide GasCharged, Price, ReservedGas;
    assert Price(run.op, basefee) <= run.op.maxFeePerGas by { PriceIsFair(run.op, basefee); }
    MulBound(GasCharged(run), Price(run.op, basefee), ReservedGas(run.op), run.op.maxFeePerGas);
  }

  // ----- what a bundle pays -----

  /** l' is l after a payment of v, with whatever the receiver then does. */
  ghost predicate PaidOut(l: Ledger, l': Ledger, env: Env, locked: bool, to: Address, v: nat, payout: External) {
    if to == env.self then Moved(l, l', Deposited(to, v))
    else v <= l.balance && l' == ApplyAll(l.(balance := l.balance - v), env, locked, payout.steps)
  }

  // ----- how a validated bundle ends -----

  /** The gas an operation needs for its inner call does not wrap. */
  lemma GasNeededIsExact(op: MemoryUserOp)
    requires GasValuesFit(op)
    ensures GasNeeded(op) == op.callGasLimit + op.paymasterPostOpGasLimit + INNER_GAS_OVERHEAD
  {
    GasValuesFitEach(op);
    hide GasValuesFit;
  }

  lemma LacksGasIsShort(infos: seq<OpInfo>, runs: seq<Run>)
    requires AllFilled(infos, runs)
    ensures forall k :: 0 <= k < |runs| ==> (LacksGas(runs[k], infos[k].op) <==> ShortOfGas(runs[k]))
  {
    hide LacksGas, ShortOfGas, FilledFrom;
    forall k | 0 <= k < |runs| ensures LacksGas(runs[k], infos[k].op) <==> ShortOfGas(runs[k]) {
      assert FilledFrom(infos[k], runs[k]);
      NoChargeWraps(infos[k], runs[k]);
    }
  }

  lemma FirstIsUnique(runs: seq<Run>, k: int, m: int)
    requires FirstShortOfGas(runs, k) && FirstShortOfGas(runs, m)
    ensures k == m
  {
    hide ShortOfGas;
  }

  /** The beneficiary is not zero and takes the payment. */
  predicate TakesPayment(env: Env, beneficiary: Address, payout: External) {
    beneficiary != NO_ADDRESS && (beneficiary == env.self || payout.ok)
  }

  /**
   Gas and the beneficiary alone decide how a validated bundle ends: it fails with AA95 exactly at
   the first operation short of gas; otherwise it succeeds exactly if the beneficiary takes the payment.
   */
  lemma BundleEndsExactly(l: Ledger, env: Env, step: Step, owed: nat)
    requires Inv(l, owed) && step.HandleOps?
    requires ValidateAll(l, env, NO_ADDRESS, step.runs, 0, 0).Going?
    ensures var r := HandleOpsResult(l, env, false, step);
            && (forall i: nat :: r == Aborted(i, AA95) <==> FirstShortOfGas(step.runs, i))
            && (r.Done? <==> (forall k :: 0 <= k < |step.runs| ==> !ShortOfGas(step.runs[k]))
                             && TakesPayment(env, step.beneficiary, step.payout))
            && (r.Aborted? && r.code != AA95 ==>
                  r.code == (if step.beneficiary == NO_ADDRESS then AA90 else AA91))
  {
    hide Inv, ExecuteAll, ValidateAll, Costs, Sum, LacksGas, ShortOfGas, AllFilled;
    ValidateAllAdvances(l, env, NO_ADDRESS, step.runs, 0, 0, owed);
    ValidateAllFills(l, env, NO_ADDRESS, step.runs, 0, 0);
    var v := ValidateAll(l, env, NO_ADDRESS, step.runs, 0, 0);
    LacksGasIsShort(v.value, step.runs);
    ExecuteAllAdvances(v.ledger, env, step.runs, v.value, 0, 0, owed);
    var e := ExecuteAll(v.ledger, env, step.runs, v.value, 0, 0);
    if e.Going? {
      CompensateAdvances(e.ledger, env, step.beneficiary, e.value, step.payout, owed);
    } else {
      assert FirstShortOfGas(step.runs, e.index);
      forall i | FirstShortOfGas(step.runs, i) ensures i == e.index { FirstIsUnique(step.runs, i, e.index); }
    }
  }

  /**
   A bundle that succeeds pays the beneficiary the exact sum of the fees of its operations. Money
   never makes a bundle fail after validation.
   */
  lemma BundlePaysExactly(l: Ledger, env: Env, step: Step, owed: nat)
    requires Inv(l, owed) && step.HandleOps?
    requires ValidateAll(l, env, NO_ADDRESS, step.runs, 0, 0).Going?
    ensures var v := ValidateAll(l, env, NO_ADDRESS, step.runs, 0, 0);
            var e := ExecuteAll(v.ledger, env, step.runs, v.value, 0, 0);
            var fees := Fees(step.runs, env.basefee);
            var r := HandleOpsResult(l, env, false, step);
            && (r.Done? ==>
                  && e.Going? && Sum(fees) < TWO_TO_256
                  && PaidOut(e.ledger, r.ledger, env, true, step.beneficiary, Sum(fees), step.payout))
            && (r.Aborted? ==>
                  || (r.code == AA95 && FirstShortOfGas(step.runs, r.index))
                  || (r.code == AA90 && step.beneficiary == NO_ADDRESS)
                  || (r.code == AA91 && step.beneficiary != env.self && !step.payout.ok))
  {
    hide Inv, ExecuteAll, ValidateAll, Costs, Sum, Fees, LacksGas, ShortOfGas, FilledFrom;
    ValidateAllAdvances(l, env, NO_ADDRESS, step.runs, 0, 0, owed);
    ValidateAllFills(l, env, NO_ADDRESS, step.runs, 0, 0);
    var v := ValidateAll(l, env, NO_ADDRESS, step.runs, 0, 0);
    LacksGasIsShort(v.value, step.runs);
    ExecuteAllAdvances(v.ledger, env, step.runs, v.value, 0, 0, owed);
    var e := ExecuteAll(v.ledger, env, step.runs, v.value, 0, 0);
    if e.Going? {
      CostsAreFees(v.ledger, env, step.runs, v.value, owed);
      CompensateAdvances(e.ledger, env, step.beneficiary, e.value, step.payout, owed);
    }
  }

  /** If no operation is short of gas, the operations pay their fees. */
  lemma {:induction false} CostsAreFees(l: Ledger, env: Env, runs: seq<Run>, infos: seq<OpInfo>, owed: nat)
    requires AllFilled(infos, runs) && Inv(l, owed + Prefunds(infos))
    requires forall k :: 0 <= k < |runs| ==> !ShortOfGas(runs[k])
    ensures Costs(l, env, runs, infos) == Fees(runs, env.basefee)
    decreases runs
  {
    hide Inv, ExecuteUserOp, ShortOfGas, FilledFrom, LacksGas, Fee, RefundMade, Kept;
    if runs != [] {
      var rest := owed + Prefunds(infos[1..]);
      PrefundIsFeePlusRefund(l, env, runs[0], infos[0], rest);
      ExecuteUserOpAdvances(l, env, runs[0], infos[0], rest);
      var (l1, cost) := ExecuteUserOp(l, env, runs[0], infos[0]).value;
      forall i | 0 <= i < |runs[1..]| ensures FilledFrom(infos[1..][i], runs[1..][i]) && !ShortOfGas(runs[1..][i]) {
        assert FilledFrom(infos[i + 1], runs[i + 1]) && !ShortOfGas(runs[i + 1]);
      }
      CostsAreFees(l1, env, runs[1..], infos[1..], owed + cost);
    }
  }

  // ----- nonces -----

  /** The event that records the acceptance of an operation. */
  function Acceptance(op: UserOp): Event {
    NonceAccepted(op.sender, KeyOf(op.nonce), SeqOf(op.nonce))
  }

  lemma AcceptanceIsInjective(op: UserOp, op': UserOp)
    ensures Acceptance(op) == Acceptance(op') <==> op.sender == op'.sender && op.nonce == op'.nonce
  {
  }

  /** The sequence of the account and key moves on by one, and nothing else changes. */
  ghost predicate MovesOn(l: Ledger, l': Ledger, a: Address, key: Uint192) {
    && NextSeq(l', a, key) == NextSeq(l, a, key) + 1
    && (forall b: Address, k: Uint192 :: (b, k) != (a, key) ==> NextSeq(l', b, k) == NextSeq(l, b, k))
    && l'.deposits == l.deposits && l'.balance == l.balance && l'.forced == l.forced
  }

  /** An account can move its own sequence of a key on by one, unless the number is the greatest there is. */
  lemma IncrementsOneSequence(l: Ledger, caller: Address, key: Uint192)
    ensures var r := IncrementNonceResult(l, caller, key);
            && (r.Returned? <==> NextSeq(l, caller, key) < TWO_TO_256 - 1)
            && (r.Returned? ==> MovesOn(l, r.value, caller, key) && r.value.log == l.log)
    ensures forall env: Env, locked: bool :: Apply(l, env, locked, IncrementNonce(caller, key))
                                               == Committed(l, IncrementNonceResult(l, caller, key))
  {
  }

  /** An accepted nonce moves the sequence of its sender and key on by one, and is recorded. */
  lemma AcceptanceMovesOn(l: Ledger, sender: Address, nonce: Word)
    ensures var r := ValidateAndUpdateNonce(l, sender, nonce);
            r.Pass? ==> && MovesOn(l, r.value, sender, KeyOf(nonce))
                        && r.value.log == l.log + [NonceAccepted(sender, KeyOf(nonce), SeqOf(nonce))]
  {
  }

  /** A nonce is accepted exactly when getNonce returns it and the sequence is not exhausted. */
  lemma AcceptsNextNonce(l: Ledger, sender: Address, nonce: Word)
    ensures ValidateAndUpdateNonce(l, sender, nonce).Pass?
       <==> NextSeq(l, sender, KeyOf(nonce)) < UINT64 && GetNonce(l, sender, KeyOf(nonce)) == nonce
  {
    hide Or, Pow2;
    var n := NextSeq(l, sender, KeyOf(nonce));
    if n < UINT64 {
      Pow2SixtyFour();
      OrIsSum(n, KeyOf(nonce), 64);
    }
  }

  /**
   The value getNonce shows for a key is that key's next accepted nonce exactly as long as the
   sequence number is below 2^64.
   */
  lemma ShownNonceIsNext(l: Ledger, sender: Address, key: Uint192, v: Word)
    requires v == GetNonce(l, sender, key)
    ensures KeyOf(v) == key && ValidateAndUpdateNonce(l, sender, v).Pass? <==> NextSeq(l, sender, key) < UINT64
  {
    AcceptsNextNonce(l, sender, v);
    hide Or, Pow2;
    if NextSeq(l, sender, key) < UINT64 {
      Pow2SixtyFour();
      OrIsSum(NextSeq(l, sender, key), key, 64);
    }
  }

  /** Past that bound the value shown can be refused. */
  lemma ShownNonceRefused(l: Ledger, sender: Address)
    requires NextSeq(l, sender, 1) == UINT64
    ensures GetNonce(l, sender, 1) == UINT64 && KeyOf(UINT64) == 1
    ensures ValidateAndUpdateNonce(l, sender, UINT64) == Fail(AA25)
  {
    hide Pow2;
    Pow2SixtyFour();
    OrSelf(UINT64);
  }

  /** Or it can be accepted as a nonce of another key. */
  lemma ShownNonceOfAnotherKey(l: Ledger, sender: Address)
    requires NextSeq(l, sender, 0) == UINT64 && NextSeq(l, sender, 1) == 0
    ensures GetNonce(l, sender, 0) == UINT64 && KeyOf(UINT64) == 1
    ensures ValidateAndUpdateNonce(l, sender, UINT64).Pass?
  {
    hide Pow2;
    Pow2SixtyFour();
    OrWithZero(UINT64);
    OrCommutes(UINT64, 0);
  }

  lemma {:induction false} OrCommutes(x: nat, y: nat)
    ensures Or(x, y) == Or(y, x)
    decreases x + y
  {
    if x != 0 || y != 0 { OrCommutes(x / 2, y / 2); }
  }

  lemma {:induction false} OrSelf(x: nat)
    ensures Or(x, x) == x
  {
    if x != 0 { OrSelf(x / 2); }
  }

  /** In every reachable state an accepted nonce is refused for ever after. */
  lemma AcceptedNonceIsRefused(l: Ledger, sender: Address, nonce: Word, owed: nat)
    requires Inv(l, owed)
    requires NonceAccepted(sender, KeyOf(nonce), SeqOf(nonce)) in l.log
    ensures ValidateAndUpdateNonce(l, sender, nonce).Fail?
  {
    var i :| 0 <= i < |l.log| && l.log[i] == NonceAccepted(sender, KeyOf(nonce), SeqOf(nonce));
    assert UsedUp(l, l.log[i]);
  }

  lemma InPrefix(log: seq<Event>, log': seq<Event>, e: Event)
    requires log <= log' && e in log
    ensures e in log'
  {
    var i :| 0 <= i < |log| && log[i] == e;
    assert log'[i] == e;
  }

  /** A validated operation had not been accepted before, and has been now. */
  lemma ValidationUsesNonce(l: Ledger, env: Env, run: Run, owed: nat)
    requires Inv(l, owed)
    ensures var r := ValidatePrepayment(l, env, run);
            r.Pass? ==> Acceptance(run.op) !in l.log && Acceptance(run.op) in r.value.0.log
  {
    hide Inv, UsedUp, RequiredPrefund, GasValuesFit, SameSequence;
    if ValidatePrepayment(l, env, run).Pass? {
      var op := CopyUserOpToMemory(run.op).value;
      var prefund := RequiredPrefund(op);
      AccountAdvances(l, env, run, op, prefund, owed);
      var l1 := ValidateAccountPrepayment(l, env, run, op, prefund).value;
      var owed1 := owed + (if op.paymaster == NO_ADDRESS then prefund else 0);
      if Acceptance(run.op) in l.log {
        InPrefix(l.log, l1.log, Acceptance(run.op));
        AcceptedNonceIsRefused(l1, op.sender, op.nonce, owed1);
      }
      ValidateAndUpdateNonceKeeps(l1, op.sender, op.nonce, owed1);
      var l2 := ValidateAndUpdateNonce(l1, op.sender, op.nonce).value;
      assert l2.log[|l1.log|] == Acceptance(run.op);
      if op.paymaster != NO_ADDRESS {
        PaymasterAdvances(l2, env, run, op, prefund, owed);
        InPrefix(l2.log, ValidatePaymasterPrepayment(l2, env, run, op, prefund).value.log, Acceptance(run.op));
      }
    }
  }

  /** None of the operations was accepted before log, all of them are by log', and no two are alike. */
  predicate AllNew(log: seq<Event>, log': seq<Event>, runs: seq<Run>) {
    && (forall i :: 0 <= i < |runs| ==> Acceptance(runs[i].op) !in log && Acceptance(runs[i].op) in log')
    && (forall i, j :: 0 <= i < j < |runs| ==> Acceptance(runs[i].op) != Acceptance(runs[j].op))
  }

  lemma AllNewLater(log: seq<Event>, log': seq<Event>, log'': seq<Event>, runs: seq<Run>)
    requires AllNew(log, log', runs) && log' <= log''
    ensures AllNew(log, log'', runs)
  {
    forall i | 0 <= i < |runs| ensures Acceptance(runs[i].op) in log'' {
      InPrefix(log', log'', Acceptance(runs[i].op));
    }
  }

  lemma AllNewConcat(log: seq<Event>, log': seq<Event>, log'': seq<Event>, runs: seq<Run>, more: seq<Run>)
    requires log <= log' <= log'' && AllNew(log, log', runs) && AllNew(log', log'', more)
    ensures AllNew(log, log'', runs + more)
  {
    AllNewLater(log, log', log'', runs);
    forall i | 0 <= i < |more| ensures Acceptance(more[i].op) !in log {
      if Acceptance(more[i].op) in log { InPrefix(log, log', Acceptance(more[i].op)); }
    }
  }

  lemma {:induction false} ValidateAllUsesNonces(l: Ledger, env: Env, aggregator: Address, runs: seq<Run>,
          base: nat, local: nat, owed: nat)
    requires Inv(l, owed)
    ensures var r := ValidateAll(l, env, aggregator, runs, base, local);
            r.Going? ==> AllNew(l.log, r.ledger.log, runs)
    decreases runs
  {
    hide Inv, ValidatePrepayment, ValidationDataCode, Acceptance;
    if runs != [] && ValidateAll(l, env, aggregator, runs, base, local).Going? {
      ValidationUsesNonce(l, env, runs[0], owed);
      ValidatePrepaymentAdvances(l, env, runs[0], owed);
      var (l1, info) := ValidatePrepayment(l, env, runs[0]).value;
      ValidateAllUsesNonces(l1, env, aggregator, runs[1..], base + 1, local + 1, owed + info.prefund);
      ValidateAllAdvances(l1, env, aggregator, runs[1..], base + 1, local + 1, owed + info.prefund);
      AllNewConcat(l.log, l1.log, ValidateAll(l, env, aggregator, runs, base, local).ledger.log, [runs[0]], runs[1..]);
      assert [runs[0]] + runs[1..] == runs;
    }
  }

  /** A bundle succeeds only with operations that were never accepted before, each of them once. */
  lemma BundleUsesNonces(l: Ledger, env: Env, locked: bool, step: Step, owed: nat)
    requires Inv(l, owed) && step.HandleOps?
    ensures var r := HandleOpsResult(l, env, locked, step);
            r.Done? ==> AllNew(l.log, r.ledger.log, step.runs)
  {
    hide Inv, ValidateAll, ExecuteAll, Compensate, AllNew;
    if HandleOpsResult(l, env, locked, step).Done? {
      ValidateAllUsesNonces(l, env, NO_ADDRESS, step.runs, 0, 0, owed);
      ValidateAllAdvances(l, env, NO_ADDRESS, step.runs, 0, 0, owed);
      var v := ValidateAll(l, env, NO_ADDRESS, step.runs, 0, 0);
      ExecuteAllAdvances(v.ledger, env, step.runs, v.value, 0, 0, owed);
      var e := ExecuteAll(v.ledger, env, step.runs, v.value, 0, 0);
      CompensateAdvances(e.ledger, env, step.beneficiary, e.value, step.payout, owed);
      AllNewLater(l.log, v.ledger.log, HandleOpsResult(l, env, locked, step).ledger.log, step.runs);
    }
  }

  /** Over a whole history the accepted sequence numbers of an account and key strictly increase. */
  lemma NoReplay(txs: seq<Transaction>, i: nat, j: nat)
    requires i < j < |History(txs).log| && SameSequence(History(txs).log[i], History(txs).log[j])
    ensures History(txs).log[i].seqNumber < History(txs).log[j].seqNumber
  {
    HistorySafe(txs);
  }
}
