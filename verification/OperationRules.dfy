/**
 What is to become of an operation, read off the operation as submitted and the answers and gas
 readings of its run: which check it fails first, what it is charged, and whose effects survive.
 */
module OperationRules {
  import opened Evm
  import opened Ledger
  import opened GasAccounting
  import opened EntryPointModel
  import opened ValidationWindow

  // ----- the operation as submitted -----

  /** The paymaster's fields count only when there is paymaster data. */
  predicate HasPaymasterData(op: UserOp) {
    op.paymasterAndDataLength > 0
  }

  function PaymasterOf(op: UserOp): Address {
    if HasPaymasterData(op) then op.paymaster else NO_ADDRESS
  }

  /** Who is charged: the paymaster if one is named, else the sender. */
  function PayerOf(op: UserOp): Address {
    if PaymasterOf(op) != NO_ADDRESS then PaymasterOf(op) else op.sender
  }

  /** The gas reserved for execution: for the call and for postOp. */
  function ExecutionGas(op: UserOp): nat {
    op.callGasLimit + if HasPaymasterData(op) then op.paymasterPostOpGasLimit else 0
  }

  /** All gas the operation reserves. */
  function ReservedGas(op: UserOp): nat {
    op.preVerificationGas + op.verificationGasLimit + op.callGasLimit
    + if HasPaymasterData(op) then op.paymasterVerificationGasLimit + op.paymasterPostOpGasLimit else 0
  }

  /** What the operation must be able to pay. */
  function Prefund(op: UserOp): nat {
    ReservedGas(op) * op.maxFeePerGas
  }

  /** The price of gas: the cap, or tip plus base fee, an unchecked sum, if that is less. */
  function Price(op: UserOp, basefee: Word): nat {
    if op.maxFeePerGas == op.maxPriorityFeePerGas then op.maxFeePerGas
    else Min(op.maxFeePerGas, (op.maxPriorityFeePerGas + basefee) % TWO_TO_256)
  }

  /** Every numeric value fits in 120 bits. */
  predicate SmallValues(op: UserOp) {
    && op.preVerificationGas <= MAX_UINT120 && op.verificationGasLimit <= MAX_UINT120
    && op.callGasLimit <= MAX_UINT120
    && op.maxFeePerGas <= MAX_UINT120 && op.maxPriorityFeePerGas <= MAX_UINT120
    && (HasPaymasterData(op) ==>
          op.paymasterVerificationGasLimit <= MAX_UINT120 && op.paymasterPostOpGasLimit <= MAX_UINT120)
  }

  // ----- rules in the order they are checked -----

  datatype Rule = Rule(broken: bool, code: Code)

  /** The code of the first rule that is broken. */
  function Verdict(rules: seq<Rule>): Check<()> {
    if rules == [] then Pass(())
    else if rules[0].broken then Fail(rules[0].code)
    else Verdict(rules[1..])
  }

  lemma {:induction false} VerdictConcat(rules: seq<Rule>, more: seq<Rule>)
    ensures Verdict(rules + more) == if Verdict(rules).Fail? then Verdict(rules) else Verdict(more)
  {
    if rules == [] {
      assert rules + more == more;
    } else {
      assert (rules + more)[1..] == rules[1..] + more;
      VerdictConcat(rules[1..], more);
    }
  }

  /** Rules in short lists, one by one. */
  lemma VerdictOfFew(rules: seq<Rule>)
    requires 2 <= |rules| <= 5
    ensures Verdict(rules)
         == if rules[0].broken then Fail(rules[0].code)
            else if rules[1].broken then Fail(rules[1].code)
            else if |rules| > 2 && rules[2].broken then Fail(rules[2].code)
            else if |rules| > 3 && rules[3].broken then Fail(rules[3].code)
            else if |rules| > 4 && rules[4].broken then Fail(rules[4].code)
            else Pass(())
  {
    assert rules[0..] == rules && rules[|rules|..] == [];
    VerdictFrom(rules, 0);
    VerdictFrom(rules, 1);
    if |rules| > 2 { VerdictFrom(rules, 2); }
    if |rules| > 3 { VerdictFrom(rules, 3); }
    if |rules| > 4 { VerdictFrom(rules, 4); }
  }

  lemma VerdictFrom(rules: seq<Rule>, k: nat)
    requires k < |rules|
    ensures Verdict(rules[k..]) == if rules[k].broken then Fail(rules[k].code) else Verdict(rules[k + 1..])
    ensures Verdict([]) == Pass(())
  {
    assert rules[k..][1..] == rules[k + 1..];
  }

  /** Rule k is the first one that is broken. */
  predicate FirstBroken(rules: seq<Rule>, k: nat) {
    k < |rules| && rules[k].broken && forall j :: 0 <= j < k ==> !rules[j].broken
  }

  /** Nothing fails exactly when no rule is broken, and a failure carries the code of the first broken rule. */
  lemma {:induction false} VerdictIsFirst(rules: seq<Rule>)
    ensures Verdict(rules).Pass? <==> forall k :: 0 <= k < |rules| ==> !rules[k].broken
    ensures Verdict(rules).Fail? ==> exists k: nat :: FirstBroken(rules, k) && rules[k].code == Verdict(rules).code
  {
    if rules != [] {
      VerdictIsFirst(rules[1..]);
      if rules[0].broken {
        assert FirstBroken(rules, 0);
      } else if Verdict(rules[1..]).Fail? {
        var k: nat :| FirstBroken(rules[1..], k) && rules[1..][k].code == Verdict(rules[1..]).code;
        forall j | 0 <= j < k + 1 ensures !rules[j].broken {
          if j > 0 { assert !rules[1..][j - 1].broken; }
        }
        assert FirstBroken(rules, k + 1);
      } else {
        forall j | 0 <= j < |rules| ensures !rules[j].broken {
          if j > 0 { assert !rules[1..][j - 1].broken; }
        }
      }
    }
  }

  // ----- what an operation must satisfy to be validated -----

  /** A call made under the lock: what its steps do, unless it reverts. */
  function Effects(l: Ledger, env: Env, call: External): Ledger {
    if call.ok then ApplyAll(l, env, true, call.steps) else l
  }

  /** The ledger after the calls of factory and account. */
  function AccountCalls(l: Ledger, env: Env, run: Run): Ledger {
    Effects(if run.op.hasInitCode then Effects(l, env, run.factory) else l, env, run.validate)
  }

  function FormRules(op: UserOp): seq<Rule> {
    [Rule(0 < op.paymasterAndDataLength < 52, AA93),
     Rule(!SmallValues(op), AA94)]
  }

  function CreationRules(run: Run): seq<Rule> {
    [Rule(run.op.hasInitCode && run.creation.AlreadyConstructed?, AA10),
     Rule(run.op.hasInitCode && run.creation.CreatorReverted?, CreatorFailed),
     Rule(run.op.hasInitCode && run.creation.InitCodeFailed?, AA13),
     Rule(run.op.hasInitCode && run.creation.WrongSender?, AA14),
     Rule(run.op.hasInitCode && run.creation.NoCode?, AA15)]
  }

  /** In the ledger after the account's calls. */
  function AccountRules(l: Ledger, run: Run): seq<Rule> {
    [Rule(!run.validate.ok, AA23),
     Rule(PaymasterOf(run.op) == NO_ADDRESS && Info(l, run.op.sender).deposit < Prefund(run.op), AA21)]
  }

  /** In the ledger after the account's calls. */
  function NonceRules(l: Ledger, run: Run): seq<Rule> {
    [Rule(NextSeq(l, run.op.sender, KeyOf(run.op.nonce)) >= TWO_TO_256 - 1, NonceOverflow),
     Rule(NextSeq(l, run.op.sender, KeyOf(run.op.nonce)) != SeqOf(run.op.nonce), AA25),
     Rule(run.gas.start - run.gas.afterAccount > run.op.verificationGasLimit, AA26)]
  }

  /** In the ledger after the account's calls, if a paymaster is named. */
  function PaymasterRules(l: Ledger, run: Run): seq<Rule> {
    var sponsored := PaymasterOf(run.op) != NO_ADDRESS;
    [Rule(sponsored && Info(l, run.op.paymaster).deposit < Prefund(run.op), AA31),
     Rule(sponsored && !run.validatePaymaster.ok, AA33),
     Rule(sponsored && run.gas.beforePaymaster - run.gas.afterPaymaster > run.op.paymasterVerificationGasLimit, AA36)]
  }

  /** Everything validation checks, in order. */
  function ValidationRules(l: Ledger, env: Env, run: Run): seq<Rule> {
    var l1 := AccountCalls(l, env, run);
    FormRules(run.op)
    + (CreationRules(run) + (AccountRules(l1, run) + (NonceRules(l1, run) + PaymasterRules(l1, run))))
  }

  /** What the validation data must say, in order. */
  function DataRules(run: Run, expected: Address, now: nat): seq<Rule> {
    var sponsored := PaymasterOf(run.op) != NO_ADDRESS;
    [Rule(AggregatorIn(run.validationData) != expected, AA24),
     Rule(!Timely(run.validationData, now), AA22),
     Rule(sponsored && AggregatorIn(run.paymasterValidationData) != NO_ADDRESS, AA34),
     Rule(sponsored && !Timely(run.paymasterValidationData, now), AA32)]
  }

  // ----- what validation leaves -----

  /** The static fields are those of the operation. */
  predicate CopiedFrom(m: MemoryUserOp, op: UserOp) {
    && m.sender == op.sender && m.nonce == op.nonce
    && m.verificationGasLimit == op.verificationGasLimit && m.callGasLimit == op.callGasLimit
    && m.preVerificationGas == op.preVerificationGas
    && m.maxFeePerGas == op.maxFeePerGas && m.maxPriorityFeePerGas == op.maxPriorityFeePerGas
    && m.paymaster == PaymasterOf(op)
    && m.paymasterVerificationGasLimit == (if HasPaymasterData(op) then op.paymasterVerificationGasLimit else 0)
    && m.paymasterPostOpGasLimit == (if HasPaymasterData(op) then op.paymasterPostOpGasLimit else 0)
  }

  /** The gas an operation is charged for before its execution. */
  function GasBefore(run: Run): nat {
    run.gas.start - run.gas.end + run.op.preVerificationGas
  }

  /** The info was filled from this operation and its run. */
  predicate FilledFrom(info: OpInfo, run: Run) {
    && SmallValues(run.op) && CopiedFrom(info.op, run.op)
    && info.prefund == Prefund(run.op)
    && info.preOpGas == GasBefore(run)
    && info.hasContext == CallsBack(run)
  }

  predicate AllFilled(infos: seq<OpInfo>, runs: seq<Run>) {
    |infos| == |runs| && forall i :: 0 <= i < |runs| ==> FilledFrom(infos[i], runs[i])
  }

  // ----- how an execution ends -----

  /** The paymaster left a context, so it is to be called after the execution. */
  predicate CallsBack(run: Run) {
    PaymasterOf(run.op) != NO_ADDRESS && run.hasContext
  }

  /** The inner call reaches its check with less gas than the limits of the operation and the overhead add up to. */
  predicate ShortOfGas(run: Run) {
    !run.innerAborts && run.gas.innerCheck * 63 / 64 < ExecutionGas(run.op) + 10000
  }

  predicate FirstShortOfGas(runs: seq<Run>, k: int) {
    0 <= k < |runs| && ShortOfGas(runs[k]) && forall j :: 0 <= j < k ==> !ShortOfGas(runs[j])
  }

  /** Gas used for the execution, plus a tenth of what was reserved for it and not used. */
  function WithPenalty(op: UserOp, used: nat): nat {
    used + if ExecutionGas(op) > used then (ExecutionGas(op) - used) / 10 else 0
  }

  /** The inner call gets to settle the account: it does not abort, and postOp, if called, does not revert. */
  predicate Settles(run: Run) {
    !run.innerAborts && (CallsBack(run) ==> run.postOp.ok)
  }

  /** The gas used for the execution, measured inside the inner call if that settles, else around it. */
  function UsedGas(run: Run): nat {
    var g := run.gas;
    if Settles(run) then g.innerStart - g.afterCall + (g.postStart - g.postEnd)
    else g.execStart - g.afterInner + (g.fallbackStart - g.fallbackEnd)
  }

  /** The gas the operation is charged for. */
  function GasCharged(run: Run): nat {
    GasBefore(run) + WithPenalty(run.op, UsedGas(run))
  }

  /** The charge, in wei. */
  function Charge(run: Run, basefee: Word): nat {
    InWei(GasCharged(run), Price(run.op, basefee))
  }

  function InWei(gas: nat, price: nat): nat {
    gas * price
  }

  /** The inner call is not undone. */
  predicate Survives(run: Run, basefee: Word) {
    !ShortOfGas(run) && Settles(run) && Charge(run, basefee) <= Prefund(run.op)
  }

  /** What an operation that is not short of gas pays. */
  function Fee(run: Run, basefee: Word): nat {
    Min(Charge(run, basefee), Prefund(run.op))
  }

  function Fees(runs: seq<Run>, basefee: Word): (fees: seq<nat>)
    ensures |fees| == |runs| && forall i :: 0 <= i < |runs| ==> fees[i] == Fee(runs[i], basefee)
  {
    seq(|runs|, i requires 0 <= i < |runs| => Fee(runs[i], basefee))
  }

  /** The ledger with the effects of the account's call and of postOp that are kept: none of an undone inner call. */
  function Kept(l: Ledger, env: Env, run: Run): Ledger {
    if !Survives(run, env.basefee) then l
    else
      var l1 := if run.op.hasCallData then Effects(l, env, run.call) else l;
      if CallsBack(run) then Effects(l1, env, run.postOp) else l1
  }

  /** The price exceeds neither the cap nor tip plus base fee, and is one of them unless their sum wraps. */
  lemma PriceIsFair(op: UserOp, basefee: Word)
    ensures Price(op, basefee) <= Min(op.maxFeePerGas, op.maxPriorityFeePerGas + basefee)
    ensures op.maxPriorityFeePerGas + basefee < TWO_TO_256 ==>
              Price(op, basefee) == Min(op.maxFeePerGas, op.maxPriorityFeePerGas + basefee)
  {
  }

  /** No operation pays more than its gas at the cap, or at tip plus base fee, or than its prefund. */
  lemma FeeIsFair(run: Run, basefee: Word)
    ensures Fee(run, basefee) <= Prefund(run.op)
    ensures Fee(run, basefee) <= GasCharged(run) * Min(run.op.maxFeePerGas, run.op.maxPriorityFeePerGas + basefee)
    ensures GasBefore(run) + UsedGas(run) <= GasCharged(run)
  {
    assert GasBefore(run) + UsedGas(run) <= GasCharged(run);
    hide Price, GasCharged, Prefund;
    PriceIsFair(run.op, basefee);
    MulBound(GasCharged(run), Price(run.op, basefee), GasCharged(run),
             Min(run.op.maxFeePerGas, run.op.maxPriorityFeePerGas + basefee));
  }

  // ----- the copy in memory -----

  /** The copy has the fields of the operation, and is refused exactly for paymaster data that is too short. */
  lemma CopyExact(op: UserOp)
    ensures CopyUserOpToMemory(op).Fail? <==> 0 < op.paymasterAndDataLength < 52
    ensures CopyUserOpToMemory(op).Fail? ==> CopyUserOpToMemory(op) == Fail(AA93)
    ensures CopyUserOpToMemory(op).Pass? ==> CopiedFrom(CopyUserOpToMemory(op).value, op)
  {
  }

  /** The single comparison is the check of all values of the operation. */
  lemma CopyFits(m: MemoryUserOp, op: UserOp)
    requires CopiedFrom(m, op)
    ensures GasValuesFit(m) <==> SmallValues(op)
  {
    hide GasValuesFit;
    GasValuesFitEach(m);
  }

  /** Then the unchecked prefund, the price and the gas needed are those of the operation. */
  lemma CopyCosts(m: MemoryUserOp, op: UserOp, basefee: Word)
    requires CopiedFrom(m, op) && SmallValues(op)
    ensures RequiredPrefund(m) == Prefund(op)
    ensures Payer(m) == PayerOf(op) && TotalGasLimit(m) == ReservedGas(op)
    ensures m.callGasLimit + m.paymasterPostOpGasLimit == ExecutionGas(op)
    ensures GasPrice(m, basefee) == Price(op, basefee)
  {
    hide GasValuesFit, RequiredPrefund;
    CopyFits(m, op);
    PrefundIsExact(m);
    assert TotalGasLimit(m) == ReservedGas(op);
  }
}
