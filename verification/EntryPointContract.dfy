/**
 The entry point as an object that updates its storage step by step. Every method is proved
 against the function of the same name that says what the call does to the ledger, and every call
 out of the contract is made in a solvent state: that is the precondition of RunExternal and Pay.
 */
module EntryPointContract {
  import opened Evm
  import opened Ledger
  import opened GasAccounting
  import opened EntryPointModel
  import opened LedgerInvariants
  import opened LedgerSafety
  import opened AggregatedBundles
  import Spec = EntryPointModel

  /** How a bundle, or a part of it, ends. */
  datatype Ending = Handled | FailedOp(index: nat, code: Code)

  /** How the inner call ends. */
  datatype InnerEnding = Paid(actualGasCost: Word) | RevertedOutOfGas | RevertedLowPrefund | RevertedOtherwise

  class EntryPoint {
    const self: Address
    var deposits: map<Address, DepositInfo>
    var nonces: map<(Address, Uint192), nat>
    /** The ether the contract holds, which the machine keeps. */
    var balance: nat
    /** The re-entrancy lock. */
    var locked: bool
    ghost var forced: nat
    ghost var log: seq<Event>
    /** Prefunds of operations that are validated and not executed, and fees not yet paid out. */
    ghost var owed: nat

    ghost function State(): Ledger
      reads this
    {
      Ledger(deposits, nonces, balance, forced, log)
    }

    ghost predicate Valid()
      reads this
    {
      Inv(State(), owed)
    }

    constructor (self: Address)
      ensures Valid() && State() == EMPTY && !locked && owed == 0 && this.self == self
    {
      hide Inv;
      this.self := self;
      deposits, nonces, balance, locked := map[], map[], 0, false;
      forced, log, owed := 0, [], 0;
      new;
      EmptyLedger(State());
    }

    function InfoOf(a: Address): (info: DepositInfo)
      reads this
      ensures info == Info(State(), a)
    {
      if a in deposits then deposits[a] else NO_DEPOSIT
    }

    function Sequence(a: Address, key: Uint192): (n: nat)
      reads this
      ensures n == NextSeq(State(), a, key)
    {
      if (a, key) in nonces then nonces[(a, key)] else 0
    }

    /** What the machine does when a call reverts: all its updates are undone. */
    method Undo(deposits: map<Address, DepositInfo>, nonces: map<(Address, Uint192), nat>, balance: nat,
                ghost forced: nat, ghost log: seq<Event>, ghost owed: nat)
      modifies this
      ensures State() == Ledger(deposits, nonces, balance, forced, log)
      ensures this.owed == owed && locked == old(locked)
    {
      this.deposits, this.nonces, this.balance := deposits, nonces, balance;
      this.forced, this.log, this.owed := forced, log, owed;
    }

    // ----- deposits and stakes -----

    method IncrementDeposit(account: Address, amount: nat) returns (ok: bool)
      modifies this
      ensures ok == Spec.IncrementDeposit(old(State()), account, amount).Returned?
      ensures State() == Committed(old(State()), Spec.IncrementDeposit(old(State()), account, amount))
      ensures owed == old(owed) && locked == old(locked)
    {
      var info := InfoOf(account);
      ok := info.deposit + amount < TWO_TO_256;
      if ok { deposits := deposits[account := info.(deposit := info.deposit + amount)]; }
    }

    method DepositTo(account: Address, value: nat) returns (ok: bool)
      requires Valid()
      modifies this
      ensures Valid() && ok == DepositToResult(old(State()), account, value).Returned?
      ensures State() == Committed(old(State()), DepositToResult(old(State()), account, value))
      ensures owed == old(owed) && locked == old(locked)
    {
      hide Inv;
      DepositToKeeps(State(), account, value, owed);
      if balance + value >= TWO_TO_256 { return false; }
      balance := balance + value;
      ok := IncrementDeposit(account, value);
      log := log + [Deposited(account, value)];
    }

    method AddStake(caller: Address, unstakeDelaySec: Uint32, value: nat) returns (ok: bool)
      requires Valid()
      modifies this
      ensures Valid() && ok == AddStakeResult(old(State()), caller, unstakeDelaySec, value).Returned?
      ensures State() == Committed(old(State()), AddStakeResult(old(State()), caller, unstakeDelaySec, value))
      ensures owed == old(owed) && locked == old(locked)
    {
      hide Inv;
      AddStakeKeeps(State(), caller, unstakeDelaySec, value, owed);
      if balance + value >= TWO_TO_256 { return false; }
      var info := InfoOf(caller);
      if unstakeDelaySec == 0 { return false; }
      if unstakeDelaySec < info.unstakeDelaySec { return false; }
      var stake := info.stake + value;
      if stake == 0 || stake > MAX_UINT112 { return false; }
      balance := balance + value;
      deposits := deposits[caller := DepositInfo(info.deposit, true, stake, unstakeDelaySec, 0)];
      log := log + [StakeLocked(caller, unstakeDelaySec, value)];
      ok := true;
    }

    method UnlockStake(env: Env, caller: Address) returns (ok: bool)
      requires Valid()
      modifies this
      ensures Valid() && ok == UnlockStakeResult(old(State()), env, caller).Returned?
      ensures State() == Committed(old(State()), UnlockStakeResult(old(State()), env, caller))
      ensures owed == old(owed) && locked == old(locked)
    {
      hide Inv;
      UnlockStakeKeeps(State(), env, caller, owed);
      var info := InfoOf(caller);
      if info.unstakeDelaySec == 0 || !info.staked { return false; }
      var withdrawTime := env.now % UINT48 + info.unstakeDelaySec;
      if withdrawTime >= UINT48 { return false; }
      deposits := deposits[caller := info.(withdrawTime := withdrawTime, staked := false)];
      log := log + [StakeUnlocked(caller, env.now)];
      ok := true;
    }

    method WithdrawStake(env: Env, caller: Address, withdrawAddress: Address, call: External) returns (ok: bool)
      requires Valid() && env.self == self
      modifies this
      ensures Valid() && ok == WithdrawStakeResult(old(State()), env, old(locked), caller, withdrawAddress,
              call).Returned?
      ensures State() == Committed(old(State()), WithdrawStakeResult(old(State()), env, old(locked), caller,
              withdrawAddress, call))
      ensures owed == old(owed) && locked == old(locked)
      decreases call, 1
    {
      hide Inv, ApplyAll;
      StakeReleasedKeeps(State(), env, caller, owed);
      var savedDeposits, savedNonces, savedBalance := deposits, nonces, balance;
      var info := InfoOf(caller);
      var stake := info.stake;
      if stake == 0 || info.withdrawTime == 0 || info.withdrawTime > env.now { return false; }
      deposits := deposits[caller := info.(unstakeDelaySec := 0, withdrawTime := 0, stake := 0)];
      log, owed := log + [StakeWithdrawn(caller, env.now, info.unstakeDelaySec, stake)], owed + stake;
      ok := Pay(env, withdrawAddress, stake, call);
      if !ok { Undo(savedDeposits, savedNonces, savedBalance, old(forced), old(log), old(owed)); }
    }

    method WithdrawTo(env: Env, caller: Address, withdrawAddress: Address, withdrawAmount: nat,
            call: External) returns (ok: bool)
      requires Valid() && env.self == self
      modifies this
      ensures Valid() && ok == WithdrawToResult(old(State()), env, old(locked), caller, withdrawAddress,
              withdrawAmount, call).Returned?
      ensures State() == Committed(old(State()), WithdrawToResult(old(State()), env, old(locked), caller,
              withdrawAddress, withdrawAmount, call))
      ensures owed == old(owed) && locked == old(locked)
      decreases call, 1
    {
      hide Inv, ApplyAll;
      DepositReleasedKeeps(State(), caller, withdrawAmount, owed);
      var savedDeposits, savedNonces, savedBalance := deposits, nonces, balance;
      var info := InfoOf(caller);
      if withdrawAmount > info.deposit { return false; }
      deposits := deposits[caller := info.(deposit := info.deposit - withdrawAmount)];
      log, owed := log + [Withdrawn(caller, withdrawAmount)], owed + withdrawAmount;
      ok := Pay(env, withdrawAddress, withdrawAmount, call);
      if !ok { Undo(savedDeposits, savedNonces, savedBalance, old(forced), old(log), old(owed)); }
    }

    // ----- nonces -----

    method IncrementNonce(caller: Address, key: Uint192) returns (ok: bool)
      requires Valid()
      modifies this
      ensures Valid() && ok == IncrementNonceResult(old(State()), caller, key).Returned?
      ensures State() == Committed(old(State()), IncrementNonceResult(old(State()), caller, key))
      ensures owed == old(owed) && locked == old(locked)
    {
      hide Inv;
      IncrementNonceKeeps(State(), caller, key, owed);
      var n := Sequence(caller, key);
      if n + 1 >= TWO_TO_256 { return false; }
      nonces := nonces[(caller, key) := n + 1];
      ok := true;
    }

    /** A wrong nonce leaves the sequence advanced; the bundle then fails and is undone. */
    method ValidateAndUpdateNonce(sender: Address, nonce: Word) returns (r: Check<()>)
      requires Valid()
      modifies this
      ensures Agrees(r, Spec.ValidateAndUpdateNonce(old(State()), sender, nonce))
      ensures (r.Pass? ==> Valid()) && owed == old(owed) && locked == old(locked)
    {
      hide Inv;
      ValidateAndUpdateNonceKeeps(State(), sender, nonce, owed);
      var key, seqNumber := KeyOf(nonce), SeqOf(nonce);
      var n := Sequence(sender, key);
      if n + 1 >= TWO_TO_256 { return Fail(NonceOverflow); }
      nonces := nonces[(sender, key) := n + 1];
      if n != seqNumber { return Fail(AA25); }
      log := log + [NonceAccepted(sender, key, n)];
      r := Pass(());
    }

    /** The method goes on in the state the function says, or fails with the same code. */
    ghost predicate Agrees(r: Check<()>, spec: Check<Ledger>)
      reads this
    {
      match spec
      case Fail(c) => r == Fail(c)
      case Pass(l) => r.Pass? && State() == l
    }

    // ----- calls out -----

    method RunExternal(env: Env, call: External)
      requires Valid() && env.self == self && locked
      modifies this
      ensures Valid() && State() == Spec.RunExternal(old(State()), env, call)
      ensures owed == old(owed) && locked == old(locked)
      decreases call, 0
    {
      if call.ok { ApplySteps(env, call.steps); }
    }

    method Pay(env: Env, to: Address, value: nat, call: External) returns (ok: bool)
      requires Valid() && env.self == self && value <= owed
      modifies this
      ensures Valid() && ok == Spec.Pay(old(State()), env, old(locked), to, value, call).Returned?
      ensures State() == Committed(old(State()), Spec.Pay(old(State()), env, old(locked), to, value, call))
      ensures owed == (if ok then old(owed) - value else old(owed)) && locked == old(locked)
      decreases call, 0
    {
      hide Inv, ApplyAll;
      PayAdvances(State(), env, locked, to, value, call, owed - value);
      if balance < value { return false; }
      if to == self {
        ok := IncrementDeposit(self, value);
        if ok { log, owed := log + [Deposited(self, value)], owed - value; }
      } else if call.ok {
        LedgerSafety.Paid(State(), value, owed - value);
        balance, owed := balance - value, owed - value;
        ApplySteps(env, call.steps);
        ok := true;
      } else {
        ok := false;
      }
    }

    /** Calls that reach the entry point from outside, one after the other. */
    method ApplySteps(env: Env, steps: seq<Step>)
      requires Valid() && env.self == self
      modifies this
      ensures Valid() && State() == ApplyAll(old(State()), env, old(locked), steps)
      ensures owed == old(owed) && locked == old(locked)
      decreases steps
    {
      hide Inv, Spec.Apply;
      var i := 0;
      while i < |steps|
        invariant 0 <= i <= |steps|
        invariant Valid() && owed == old(owed) && locked == old(locked)
        invariant ApplyAll(old(State()), env, locked, steps) == ApplyAll(State(), env, locked, steps[i..])
      {
        ApplyStep(env, steps[i]);
        assert steps[i..][1..] == steps[i + 1..];
        i := i + 1;
      }
    }

    method ApplyStep(env: Env, step: Step)
      requires Valid() && env.self == self
      modifies this
      ensures Valid() && State() == Spec.Apply(old(State()), env, old(locked), step)
      ensures owed == old(owed) && locked == old(locked)
      decreases step, 2
    {
      hide Inv, DepositToResult, AddStakeResult, UnlockStakeResult, WithdrawStakeResult, WithdrawToResult,
        IncrementNonceResult, HandleOpsResult, HandleAggregatedOpsResult, ForceEtherResult;
      match step {
        case DepositTo(account, value) => var _ := DepositTo(account, value);
        case AddStake(caller, delay, value) => var _ := AddStake(caller, delay, value);
        case UnlockStake(caller) => var _ := UnlockStake(env, caller);
        case WithdrawStake(caller, to, call) => var _ := WithdrawStake(env, caller, to, call);
        case WithdrawTo(caller, to, amount, call) => var _ := WithdrawTo(env, caller, to, amount, call);
        case IncrementNonce(caller, key) => var _ := IncrementNonce(caller, key);
        case HandleOps(runs, beneficiary, payout) => var _ := HandleOps(env, runs, beneficiary, payout);
        case HandleAggregatedOps(groups, beneficiary, payout) => var _ := HandleAggregatedOps(env, groups,
                beneficiary, payout);
        case ForceEther(value) => ForceEther(value);
      }
    }

    /** Ether that arrives without a call of the contract. */
    method ForceEther(value: nat)
      requires Valid()
      modifies this
      ensures Valid() && State() == Committed(old(State()), ForceEtherResult(old(State()), value))
      ensures owed == old(owed) && locked == old(locked)
    {
      hide Inv;
      ForceEtherKeeps(State(), value, owed);
      if balance + value < TWO_TO_256 { balance, forced := balance + value, forced + value; }
    }

    // ----- validation -----

    method CreateSenderIfNeeded(env: Env, run: Run) returns (r: Check<()>)
      requires Valid() && env.self == self && locked
      modifies this
      ensures Agrees(r, Spec.CreateSenderIfNeeded(old(State()), env, run))
      ensures Valid() && owed == old(owed) && locked
      decreases run, 0
    {
      hide Inv, Spec.RunExternal;
      if !run.op.hasInitCode { return Pass(()); }
      if run.creation.AlreadyConstructed? { return Fail(AA10); }
      RunExternal(env, run.factory);
      match run.creation {
        case CreatorReverted => r := Fail(CreatorFailed);
        case InitCodeFailed => r := Fail(AA13);
        case WrongSender => r := Fail(AA14);
        case NoCode => r := Fail(AA15);
        case Created => r := Pass(());
      }
    }

    /** Take the prefund out of the payer's deposit. */
    method TakePrefund(payer: Address, prefund: Word, code: Code) returns (r: Check<()>)
      requires Valid()
      modifies this
      ensures Agrees(r, Spec.TakePrefund(old(State()), payer, prefund, code))
      ensures Valid() && owed == (if r.Pass? then old(owed) + prefund else old(owed)) && locked == old(locked)
    {
      hide Inv;
      TakePrefundKeeps(State(), payer, prefund, code, owed);
      var info := InfoOf(payer);
      if prefund > info.deposit { return Fail(code); }
      deposits := deposits[payer := info.(deposit := info.deposit - prefund)];
      log, owed := log + [Charged(payer, prefund)], owed + prefund;
      r := Pass(());
    }

    method ValidateAccountPrepayment(env: Env, run: Run, op: MemoryUserOp, requiredPrefund: Word) returns (r: Check<()>)
      requires Valid() && env.self == self && locked
      modifies this
      ensures Agrees(r, Spec.ValidateAccountPrepayment(old(State()), env, run, op, requiredPrefund))
      ensures Valid() && locked
      ensures r.Pass? ==> owed == old(owed) + (if op.paymaster == NO_ADDRESS then requiredPrefund else 0)
      decreases run, 1
    {
      hide Inv, Spec.CreateSenderIfNeeded, Spec.RunExternal, Spec.TakePrefund;
      r := CreateSenderIfNeeded(env, run);
      if r.Fail? { return; }
      if !run.validate.ok { return Fail(AA23); }
      RunExternal(env, run.validate);
      if op.paymaster == NO_ADDRESS { r := TakePrefund(op.sender, requiredPrefund, AA21); }
    }

    method ValidatePaymasterPrepayment(env: Env, run: Run, op: MemoryUserOp, requiredPrefund: Word)
      returns (r: Check<()>)
      requires Valid() && env.self == self && locked
      modifies this
      ensures Agrees(r, Spec.ValidatePaymasterPrepayment(old(State()), env, run, op, requiredPrefund))
      ensures Valid() && locked && (r.Pass? ==> owed == old(owed) + requiredPrefund)
      decreases run, 1
    {
      hide Inv, Spec.RunExternal, Spec.TakePrefund;
      r := TakePrefund(op.paymaster, requiredPrefund, AA31);
      if r.Fail? { return; }
      var preGas := run.gas.beforePaymaster;
      if !run.validatePaymaster.ok { return Fail(AA33); }
      RunExternal(env, run.validatePaymaster);
      if preGas - run.gas.afterPaymaster > op.paymasterVerificationGasLimit { return Fail(AA36); }
    }

    method ValidatePrepayment(env: Env, run: Run) returns (r: Check<OpInfo>)
      requires Valid() && env.self == self && locked
      modifies this
      ensures match Spec.ValidatePrepayment(old(State()), env, run)
              case Fail(c) => r == Fail(c)
              case Pass((l, info)) => r == Pass(info) && State() == l && owed == old(owed) + info.prefund
      ensures locked && (r.Pass? ==> Valid())
      decreases run, 2
    {
      hide Inv, Spec.ValidateAccountPrepayment, Spec.ValidatePaymasterPrepayment, Spec.ValidateAndUpdateNonce,
        RequiredPrefund, GasValuesFit, Wrap;
      var preGas := run.gas.start;
      var copied := CopyUserOpToMemory(run.op);
      if copied.Fail? { return Fail(copied.code); }
      var op := copied.value;
      if !GasValuesFit(op) { return Fail(AA94); }
      var requiredPrefund := RequiredPrefund(op);
      var done := ValidateAccountPrepayment(env, run, op, requiredPrefund);
      if done.Fail? { return Fail(done.code); }
      done := ValidateAndUpdateNonce(op.sender, op.nonce);
      if done.Fail? { return Fail(done.code); }
      if preGas - run.gas.afterAccount > op.verificationGasLimit { return Fail(AA26); }
      var hasContext := false;
      if op.paymaster != NO_ADDRESS {
        done := ValidatePaymasterPrepayment(env, run, op, requiredPrefund);
        if done.Fail? { return Fail(done.code); }
        hasContext := run.hasContext;
      }
      r := Pass(OpInfo(op, requiredPrefund, hasContext, Wrap(preGas - run.gas.end + op.preVerificationGas)));
    }

    // ----- execution -----

    /** After the execution: postOp, the charge, and the refund. A failure leaves updates for the caller to undo. */
    method PostExecution(env: Env, run: Run, info: OpInfo, mode: Mode, actualGas: Word, spent: Word)
      returns (r: InnerEnding)
      requires Valid() && env.self == self && locked && info.prefund <= owed
      modifies this
      ensures match Spec.PostExecution(old(State()), env, run, info, mode, actualGas, spent)
              case Settled(l, cost) => r == Paid(cost) && State() == l && cost <= info.prefund
                                       && Valid() && owed == old(owed) - info.prefund + cost
              case LowPrefund => r.RevertedLowPrefund?
              case _ => r.RevertedOtherwise?
      ensures locked
      decreases run, 1
    {
      hide Inv, Spec.RunExternal, GasPrice, ChargedGas, Cost, Payer;
      PostExecutionAdvances(State(), env, run, info, mode, actualGas, spent, owed - info.prefund);
      var refundAddress := Payer(info.op);
      var gasPrice := GasPrice(info.op, env.basefee);
      if CallsPostOp(info, mode) {
        if !run.postOp.ok { return RevertedOtherwise; }
        RunExternal(env, run.postOp);
      }
      var actualGasCost := Cost(ChargedGas(info, actualGas, spent), gasPrice);
      if info.prefund < actualGasCost {
        if mode.PostOpReverted? { return Paid(info.prefund); }
        return RevertedLowPrefund;
      }
      var refund := info.prefund - actualGasCost;
      var ok := IncrementDeposit(refundAddress, refund);
      if !ok { return RevertedOtherwise; }
      log, owed := log + [Refunded(refundAddress, refund)], owed - refund;
      r := Paid(actualGasCost);
    }

    method InnerHandleOp(env: Env, run: Run, info: OpInfo) returns (r: InnerEnding)
      requires Valid() && env.self == self && locked && info.prefund <= owed
      modifies this
      ensures match Spec.InnerHandleOp(old(State()), env, run, info)
              case InnerDone(l, cost) => r == Paid(cost) && State() == l && cost <= info.prefund
                                         && Valid() && owed == old(owed) - info.prefund + cost
              case OutOfGas => r.RevertedOutOfGas?
              case PrefundTooLow => r.RevertedLowPrefund?
              case OtherRevert => r.RevertedOtherwise?
      ensures locked
      decreases run, 2
    {
      hide Inv, Spec.RunExternal, Spec.PostExecution, Wrap;
      var preGas := run.gas.innerStart;
      if run.innerAborts { return RevertedOtherwise; }
      if run.gas.innerCheck * 63 / 64 < GasNeeded(info.op) { return RevertedOutOfGas; }
      var mode := OpSucceeded;
      if run.op.hasCallData {
        RunExternal(env, run.call);
        if !run.call.ok { mode := OpReverted; }
      }
      var actualGas := Wrap(preGas - run.gas.afterCall + info.preOpGas);
      r := PostExecution(env, run, info, mode, actualGas, run.gas.postStart - run.gas.postEnd);
    }

    /** The inner call is made from outside, so that its updates can be undone when it reverts. */
    method ExecuteUserOp(env: Env, run: Run, info: OpInfo) returns (r: Check<Word>)
      requires Valid() && env.self == self && locked && info.prefund <= owed
      modifies this
      ensures match Spec.ExecuteUserOp(old(State()), env, run, info)
              case Fail(c) => r == Fail(c)
              case Pass((l, cost)) => r == Pass(cost) && State() == l && cost <= info.prefund
                                      && Valid() && owed == old(owed) - info.prefund + cost
      ensures locked
      decreases run, 3
    {
      hide Inv, Spec.InnerHandleOp, Spec.PostExecution, Wrap;
      ExecuteUserOpAdvances(State(), env, run, info, owed - info.prefund);
      PostExecutionAdvances(State(), env, run, info, PostOpReverted,
              Wrap(run.gas.execStart - run.gas.afterInner + info.preOpGas),
                            run.gas.fallbackStart - run.gas.fallbackEnd, owed - info.prefund);
      var savedDeposits, savedNonces, savedBalance := deposits, nonces, balance;
      var preGas := run.gas.execStart;
      var inner := InnerHandleOp(env, run, info);
      if inner.Paid? { return Pass(inner.actualGasCost); }
      Undo(savedDeposits, savedNonces, savedBalance, old(forced), old(log), old(owed));
      if inner.RevertedOutOfGas? { return Fail(AA95); }
      if inner.RevertedLowPrefund? { return Pass(info.prefund); }
      var actualGas := Wrap(preGas - run.gas.afterInner + info.preOpGas);
      var spent := run.gas.fallbackStart - run.gas.fallbackEnd;
      var outer := PostExecution(env, run, info, PostOpReverted, actualGas, spent);
      r := if outer.Paid? then Pass(outer.actualGasCost) else Fail(DepositOverflow);
    }

    // ----- bundles -----

    /** The first loop of a bundle, for one list of operations whose infos start at opIndex. */
    method ValidateRuns(env: Env, aggregator: Address, runs: seq<Run>, opInfos: array<OpInfo>, opIndex: nat)
      returns (r: Ending)
      requires Valid() && env.self == self && locked && opIndex + |runs| <= opInfos.Length
      modifies this, opInfos
      ensures match ValidateAll(old(State()), env, aggregator, runs, opIndex, 0)
              case Stopped(i, c) => r == FailedOp(i, c)
              case Going(l, infos) =>
                && r == Handled && State() == l && Valid() && owed == old(owed) + Prefunds(infos)
                && opInfos[opIndex..opIndex + |runs|] == infos
      ensures opInfos[..opIndex] == old(opInfos[..opIndex])
      ensures locked
      decreases runs
    {
      hide Inv, Spec.ValidatePrepayment, ValidationDataCode, Prefunds;
      ghost var start := ValidateAll(State(), env, aggregator, runs, opIndex, 0);
      NoneYet(start, opInfos, opIndex);
      var i := 0;
      while i < |runs|
        invariant 0 <= i <= |runs|
        invariant Valid() && locked && owed == old(owed) + Prefunds(opInfos[opIndex..opIndex + i])
        invariant opInfos[..opIndex] == old(opInfos[..opIndex])
        invariant start == After(opInfos[opIndex..opIndex + i],
                                 ValidateAll(State(), env, aggregator, runs[i..], opIndex + i, i))
      {
        ghost var before, rest := opInfos[opIndex..opIndex + i], runs[i..];
        var validated := ValidatePrepayment(env, runs[i]);
        if validated.Fail? { return FailedOp(opIndex + i, validated.code); }
        var info := validated.value;
        var data := ValidationDataCode(env, runs[i], info, aggregator);
        if data.Fail? { return FailedOp(i, data.code); }
        opInfos[opIndex + i] := info;
        assert opInfos[opIndex..opIndex + i + 1] == before + [info];
        assert rest[1..] == runs[i + 1..];
        AfterAfter(before, [info], ValidateAll(State(), env, aggregator, runs[i + 1..], opIndex + i + 1, i + 1));
        OnePrefund(before, info);
        i := i + 1;
      }
      assert runs[i..] == [];
      NothingMore(opInfos[opIndex..opIndex + i]);
      r := Handled;
    }

    lemma NoneYet(r: Phase<seq<OpInfo>>, opInfos: array<OpInfo>, opIndex: nat)
      requires opIndex <= opInfos.Length
      ensures After(opInfos[opIndex..opIndex], r) == r && Prefunds(opInfos[opIndex..opIndex]) == 0
    {
      AfterNothing(r);
    }

    lemma NothingMore(infos: seq<OpInfo>)
      ensures infos + [] == infos
    {
    }

    lemma OnePrefund(infos: seq<OpInfo>, info: OpInfo)
      ensures Prefunds(infos + [info]) == Prefunds(infos) + info.prefund
    {
      PrefundsConcat(infos, [info]);
    }

    /**
     The second loop of a bundle, for one list of operations. The sum of the fees stays a word, so
     the addition neither wraps where it is unchecked nor reverts where it is checked.
     */
    method ExecuteRuns(env: Env, runs: seq<Run>, opInfos: array<OpInfo>, opIndex: nat, collectedBefore: Word,
            ghost rest: nat)
      returns (r: Ending, collected: Word)
      requires Valid() && env.self == self && locked && opIndex + |runs| <= opInfos.Length
      requires owed == rest + Prefunds(opInfos[opIndex..opIndex + |runs|]) + collectedBefore
      modifies this
      ensures match ExecuteAll(old(State()), env, runs, opInfos[opIndex..opIndex + |runs|], opIndex, collectedBefore)
              case Stopped(i, c) => r == FailedOp(i, c)
              case Going(l, sum) => r == Handled && collected == sum && State() == l && Valid() && owed == rest + sum
      ensures locked
      decreases runs
    {
      hide Inv, Spec.ExecuteUserOp;
      ghost var infos := opInfos[opIndex..opIndex + |runs|];
      var i := 0;
      collected := collectedBefore;
      while i < |runs|
        invariant 0 <= i <= |runs|
        invariant Valid() && locked && owed == rest + Prefunds(infos[i..]) + collected
        invariant ExecuteAll(old(State()), env, runs, infos, opIndex, collectedBefore)
               == ExecuteAll(State(), env, runs[i..], infos[i..], opIndex + i, collected)
      {
        assert runs[i..][1..] == runs[i + 1..] && infos[i..][1..] == infos[i + 1..];
        assert opInfos[opIndex + i] == infos[i];
        var fee := ExecuteUserOp(env, runs[i], opInfos[opIndex + i]);
        if fee.Fail? { return FailedOp(opIndex + i, fee.code), collected; }
        NoWrap(State(), collected + fee.value, rest + Prefunds(infos[i + 1..]));
        collected := collected + fee.value;
        i := i + 1;
      }
      r := Handled;
    }

    method Compensate(env: Env, beneficiary: Address, amount: Word, payout: External) returns (r: Ending)
      requires Valid() && env.self == self && locked && amount <= owed
      modifies this
      ensures match Spec.Compensate(old(State()), env, beneficiary, amount, payout)
              case Aborted(i, c) => r == FailedOp(i, c)
              case Done(l) => r == Handled && State() == l && Valid() && owed == old(owed) - amount
      ensures locked
      decreases payout, 1
    {
      hide Inv, Spec.Pay;
      if beneficiary == NO_ADDRESS { return FailedOp(0, AA90); }
      var success := Pay(env, beneficiary, amount, payout);
      r := if success then Handled else FailedOp(0, AA91);
    }

    /** The bundle was handled as the function says, or failed with everything undone. */
    ghost predicate Ended(r: Ending, spec: BundleResult, was: Ledger)
      reads this
    {
      match spec
      case Done(l) => r == Handled && State() == l
      case Aborted(i, c) => r == FailedOp(i, c) && State() == was
    }

    method HandleOps(env: Env, runs: seq<Run>, beneficiary: Address, payout: External) returns (r: Ending)
      requires Valid() && env.self == self
      modifies this
      ensures Ended(r, HandleOpsResult(old(State()), env, old(locked), Step.HandleOps(runs, beneficiary,
              payout)), old(State()))
      ensures Valid() && owed == old(owed) && locked == old(locked)
      decreases Step.HandleOps(runs, beneficiary, payout), 1
    {
      hide Inv, ValidateAll, ExecuteAll, Spec.Compensate;
      if locked { return FailedOp(0, Reentrant); }
      var savedDeposits, savedNonces, savedBalance := deposits, nonces, balance;
      locked := true;
      r := HandleLocked(env, runs, beneficiary, payout);
      if r.FailedOp? { Undo(savedDeposits, savedNonces, savedBalance, old(forced), old(log), old(owed)); }
      locked := false;
    }

    /** The body of handleOps, under the lock. */
    method HandleLocked(env: Env, runs: seq<Run>, beneficiary: Address, payout: External) returns (r: Ending)
      requires Valid() && env.self == self && locked
      modifies this
      ensures match HandleOpsResult(old(State()), env, false, Step.HandleOps(runs, beneficiary, payout))
              case Done(l) => r == Handled && State() == l && Valid() && owed == old(owed)
              case Aborted(i, c) => r == FailedOp(i, c)
      ensures locked
      decreases Step.HandleOps(runs, beneficiary, payout), 0
    {
      hide Inv, ValidateAll, ExecuteAll, Spec.Compensate;
      var opInfos := new OpInfo[|runs|];
      r := ValidateRuns(env, NO_ADDRESS, runs, opInfos, 0);
      if r.FailedOp? { return; }
      var collected: Word := 0;
      r, collected := ExecuteRuns(env, runs, opInfos, 0, 0, old(owed));
      if r.FailedOp? { return; }
      r := Compensate(env, beneficiary, collected, payout);
    }

    // ----- bundles with aggregators -----

    method CheckSignatures(env: Env, groups: seq<Group>) returns (r: Ending, totalOps: nat)
      requires Valid() && env.self == self && locked
      modifies this
      ensures match Spec.CheckSignatures(old(State()), env, groups)
              case Stopped(i, c) => r == FailedOp(i, c)
              case Going(l, _) =>
                r == Handled && State() == l && totalOps == CountRuns(groups) && Valid() && owed == old(owed)
      ensures locked
      decreases groups
    {
      hide Inv, Spec.RunExternal;
      totalOps := 0;
      var a := 0;
      while a < |groups|
        invariant 0 <= a <= |groups|
        invariant Valid() && locked && owed == old(owed)
        invariant totalOps + CountRuns(groups[a..]) == CountRuns(groups)
        invariant Spec.CheckSignatures(old(State()), env, groups) == Spec.CheckSignatures(State(), env, groups[a..])
      {
        var opa := groups[a];
        assert groups[a..][1..] == groups[a + 1..];
        if opa.aggregator == SIGNATURE_ERROR { return FailedOp(0, AA96), totalOps; }
        if opa.aggregator != NO_ADDRESS {
          if !opa.signature.ok { return FailedOp(0, SignatureValidationFailed), totalOps; }
          RunExternal(env, opa.signature);
        }
        totalOps := totalOps + |opa.runs|;
        a := a + 1;
      }
      r := Handled;
    }

    method HandleAggregatedOps(env: Env, groups: seq<Group>, beneficiary: Address, payout: External) returns (r: Ending)
      requires Valid() && env.self == self
      modifies this
      ensures Ended(r, HandleAggregatedOpsResult(old(State()), env, old(locked),
              Step.HandleAggregatedOps(groups, beneficiary, payout)),
                    old(State()))
      ensures Valid() && owed == old(owed) && locked == old(locked)
      decreases Step.HandleAggregatedOps(groups, beneficiary, payout), 1
    {
      hide Inv, Spec.CheckSignatures, ValidateGroups, ExecuteGroups, Spec.Compensate;
      if locked { return FailedOp(0, Reentrant); }
      var savedDeposits, savedNonces, savedBalance := deposits, nonces, balance;
      locked := true;
      r := HandleGroupsLocked(env, groups, beneficiary, payout);
      if r.FailedOp? { Undo(savedDeposits, savedNonces, savedBalance, old(forced), old(log), old(owed)); }
      locked := false;
    }

    /** The body of handleAggregatedOps, under the lock. */
    method HandleGroupsLocked(env: Env, groups: seq<Group>, beneficiary: Address, payout: External) returns (r: Ending)
      requires Valid() && env.self == self && locked
      modifies this
      ensures match HandleAggregatedOpsResult(old(State()), env, false, Step.HandleAggregatedOps(groups,
              beneficiary, payout))
              case Done(l) => r == Handled && State() == l && Valid() && owed == old(owed)
              case Aborted(i, c) => r == FailedOp(i, c)
      ensures locked
      decreases Step.HandleAggregatedOps(groups, beneficiary, payout), 0
    {
      hide Inv, Spec.CheckSignatures, ValidateGroups, ExecuteGroups, Spec.Compensate;
      var totalOps: nat := 0;
      r, totalOps := CheckSignatures(env, groups);
      if r.FailedOp? { return; }
      var opInfos := new OpInfo[totalOps];
      r := ValidateAllGroups(env, groups, opInfos);
      if r.FailedOp? { return; }
      var collected: Word := 0;
      r, collected := ExecuteAllGroups(env, groups, opInfos);
      if r.FailedOp? { return; }
      r := Compensate(env, beneficiary, collected, payout);
    }

    method ValidateAllGroups(env: Env, groups: seq<Group>, opInfos: array<OpInfo>) returns (r: Ending)
      requires Valid() && env.self == self && locked && opInfos.Length == CountRuns(groups)
      modifies this, opInfos
      ensures match ValidateGroups(old(State()), env, groups, 0)
              case Stopped(i, c) => r == FailedOp(i, c)
              case Going(l, infos) =>
                r == Handled && State() == l && Valid() && owed == old(owed) + Prefunds(infos) && opInfos[..] == infos
      ensures locked
      decreases groups
    {
      hide Inv, ValidateAll, Prefunds;
      ghost var start := ValidateGroups(State(), env, groups, 0);
      var opIndex: nat, a := 0, 0;
      NoneYet(start, opInfos, 0);
      assert groups[0..] == groups && opInfos[0..0] == opInfos[..0];
      while a < |groups|
        invariant 0 <= a <= |groups|
        invariant Valid() && locked && opIndex + CountRuns(groups[a..]) == opInfos.Length
        invariant owed == old(owed) + Prefunds(opInfos[..opIndex])
        invariant start == After(opInfos[..opIndex], ValidateGroups(State(), env, groups[a..], opIndex))
      {
        var opa := groups[a];
        ghost var before := opInfos[..opIndex];
        assert groups[a..][1..] == groups[a + 1..];
        r := ValidateRuns(env, opa.aggregator, opa.runs, opInfos, opIndex);
        if r.FailedOp? { return; }
        ghost var infos := opInfos[opIndex..opIndex + |opa.runs|];
        opIndex := opIndex + |opa.runs|;
        assert opInfos[..opIndex] == before + infos;
        AfterAfter(before, infos, ValidateGroups(State(), env, groups[a + 1..], opIndex));
        PrefundsConcat(before, infos);
        a := a + 1;
      }
      assert groups[a..] == [];
      NothingMore(opInfos[..opIndex]);
      assert opInfos[..opIndex] == opInfos[..];
      r := Handled;
    }

    lemma SplitInfos(infos: seq<OpInfo>, from: nat, k: nat)
      requires from + k <= |infos|
      ensures infos[from..][..k] == infos[from..from + k] && infos[from..][k..] == infos[from + k..]
      ensures Prefunds(infos[from..]) == Prefunds(infos[from..from + k]) + Prefunds(infos[from + k..])
    {
      assert infos[from..from + k] + infos[from + k..] == infos[from..];
      PrefundsConcat(infos[from..from + k], infos[from + k..]);
    }

    method ExecuteAllGroups(env: Env, groups: seq<Group>, opInfos: array<OpInfo>) returns (r: Ending, collected: Word)
      requires Valid() && env.self == self && locked && opInfos.Length == CountRuns(groups)
      requires Prefunds(opInfos[..]) <= owed
      modifies this
      ensures match ExecuteGroups(old(State()), env, groups, opInfos[..], 0, 0)
              case Stopped(i, c) => r == FailedOp(i, c)
              case Going(l, sum) =>
                r == Handled && collected == sum && State() == l && Valid()
                        && owed == old(owed) - Prefunds(opInfos[..]) + sum
      ensures locked
      decreases groups
    {
      hide Inv, ExecuteAll, Prefunds;
      ghost var rest, infos := owed - Prefunds(opInfos[..]), opInfos[..];
      var opIndex: nat, a := 0, 0;
      collected := 0;
      while a < |groups|
        invariant 0 <= a <= |groups|
        invariant Valid() && locked && opIndex + CountRuns(groups[a..]) == |infos|
        invariant owed == rest + Prefunds(infos[opIndex..]) + collected
        invariant ExecuteGroups(old(State()), env, groups, infos, 0, 0)
               == ExecuteGroups(State(), env, groups[a..], infos[opIndex..], opIndex, collected)
      {
        var opa := groups[a];
        ghost var k := |opa.runs|;
        assert groups[a..][1..] == groups[a + 1..];
        SplitInfos(infos, opIndex, k);
        r, collected := ExecuteRuns(env, opa.runs, opInfos, opIndex, collected, rest + Prefunds(infos[opIndex + k..]));
        if r.FailedOp? { return; }
        opIndex := opIndex + |opa.runs|;
        a := a + 1;
      }
      assert groups[a..] == [] && infos[opIndex..] == [];
      NoPrefunds();
      r := Handled;
    }
  }
}
