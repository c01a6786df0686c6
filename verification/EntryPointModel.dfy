/**
 What the calls of the entry point do to its ledger, with the outside world explicit: every
 call into another contract comes with the steps that contract then takes, and its answer.
 */
module EntryPointModel {
  import opened BitwiseOr
  import opened Evm
  import opened Ledger
  import opened GasAccounting

  // ----- the outside world -----

  /** A call into another contract: whether it returns, and the steps it takes; a reverted call takes none. */
  datatype External = External(ok: bool, steps: seq<Step>)

  /** A call that reaches the entry point from outside. */
  datatype Step =
    | DepositTo(account: Address, value: nat)
    | AddStake(caller: Address, unstakeDelaySec: Uint32, value: nat)
    | UnlockStake(caller: Address)
    | WithdrawStake(caller: Address, to: Address, call: External)
    | WithdrawTo(caller: Address, to: Address, amount: nat, call: External)
    | IncrementNonce(caller: Address, key: Uint192)
    | HandleOps(runs: seq<Run>, beneficiary: Address, payout: External)
    | HandleAggregatedOps(groups: seq<Group>, beneficiary: Address, payout: External)
    | ForceEther(value: nat)

  /** An operation as submitted. */
  datatype UserOp = UserOp(
    sender: Address,
    nonce: Word,
    hasInitCode: bool,
    hasCallData: bool,
    verificationGasLimit: Word,
    callGasLimit: Word,
    preVerificationGas: Word,
    maxPriorityFeePerGas: Word,
    maxFeePerGas: Word,
    paymasterAndDataLength: nat,
    paymaster: Address,
    paymasterVerificationGasLimit: Word,
    paymasterPostOpGasLimit: Word)

  /** What the creation of the sender comes to. */
  datatype Creation = Created | AlreadyConstructed | InitCodeFailed | WrongSender | NoCode | CreatorReverted

  /** The gas readings of one operation, in the order they are taken. */
  datatype GasReadings = GasReadings(
    start: nat, afterAccount: nat, beforePaymaster: nat, afterPaymaster: nat, end: nat,
    execStart: nat, innerStart: nat, innerCheck: nat, afterCall: nat, postStart: nat, postEnd: nat,
    afterInner: nat, fallbackStart: nat, fallbackEnd: nat)

  /** Gas is only ever used up, and never starts at 2^64 or more. */
  predicate Decreasing(g: GasReadings) {
    && UINT64 > g.start >= g.afterAccount >= g.beforePaymaster >= g.afterPaymaster >= g.end
    && g.end >= g.execStart >= g.innerStart >= g.innerCheck >= g.afterCall >= g.postStart >= g.postEnd
    && g.execStart >= g.afterInner >= g.fallbackStart >= g.fallbackEnd
  }

  type Readings = g: GasReadings | Decreasing(g) witness GasReadings(0, 0, 0, 0, 0, 0, 0, 0, 0, 0, 0, 0, 0, 0)

  /** An operation with everything the outside world does and answers while it is handled. */
  datatype Run = Run(
    op: UserOp,
    creation: Creation,
    factory: External,
    validate: External,
    validationData: Word,
    validatePaymaster: External,
    hasContext: bool,
    paymasterValidationData: Word,
    call: External,
    postOp: External,
    innerAborts: bool,
    gas: Readings)

  /** Operations that share an aggregator. */
  datatype Group = Group(aggregator: Address, signature: External, runs: seq<Run>)

  /** The surroundings of a transaction. */
  datatype Env = Env(self: Address, now: nat, basefee: Word)

  // ----- outcomes -----

  datatype Code =
    | AA10 | AA13 | AA14 | AA15 | AA21 | AA22 | AA23 | AA24 | AA25 | AA26 | AA31 | AA32 | AA33 | AA34 | AA36
    | AA90 | AA91 | AA93 | AA94 | AA95 | AA96
    | SignatureValidationFailed | CreatorFailed | Reentrant | DepositOverflow | NonceOverflow

  /** A part of handling an operation: it goes on with a value, or the whole bundle fails. */
  datatype Check<+T> = Pass(value: T) | Fail(code: Code)

  /** A whole bundle: the final ledger, or the failure code and the index reported with it. */
  datatype BundleResult = Done(ledger: Ledger) | Aborted(index: nat, code: Code)

  // ----- deposits and stakes -----

  /** Checked addition to a deposit. */
  function IncrementDeposit(l: Ledger, a: Address, amount: nat): Outcome<Ledger> {
    var info := Info(l, a);
    if info.deposit + amount >= TWO_TO_256 then Reverted
    else Returned(SetInfo(l, a, info.(deposit := info.deposit + amount)))
  }

  /** A deposit is incremented, and the model records why. */
  function Credit(l: Ledger, a: Address, amount: nat, e: Event): Outcome<Ledger> {
    match IncrementDeposit(l, a, amount)
    case Reverted => Reverted
    case Returned(l1) => Returned(Record(l1, e))
  }

  /** Ether sent along with a call; no balance reaches 2^256. */
  function Receive(l: Ledger, value: nat): Outcome<Ledger> {
    if l.balance + value >= TWO_TO_256 then Reverted else Returned(l.(balance := l.balance + value))
  }

  function DepositToResult(l: Ledger, account: Address, value: nat): Outcome<Ledger> {
    match Receive(l, value)
    case Reverted => Reverted
    case Returned(l1) => Credit(l1, account, value, Deposited(account, value))
  }

  function AddStakeResult(l: Ledger, caller: Address, delay: Uint32, value: nat): Outcome<Ledger> {
    var info := Info(l, caller);
    var stake := info.stake + value;
    if l.balance + value >= TWO_TO_256 || delay == 0 || delay < info.unstakeDelaySec || stake == 0
            || stake > MAX_UINT112 then
      Reverted
    else
      var l1 := SetInfo(l, caller, DepositInfo(info.deposit, true, stake, delay, 0));
      Returned(Record(l1.(balance := l.balance + value), StakeLocked(caller, delay, value)))
  }

  function UnlockStakeResult(l: Ledger, env: Env, caller: Address): Outcome<Ledger> {
    var info := Info(l, caller);
    var withdrawTime := env.now % UINT48 + info.unstakeDelaySec;
    if info.unstakeDelaySec == 0 || !info.staked || withdrawTime >= UINT48 then Reverted
    else
      var l1 := SetInfo(l, caller, info.(withdrawTime := withdrawTime, staked := false));
      Returned(Record(l1, StakeUnlocked(caller, env.now)))
  }

  /** The ledger after the checks and updates of withdrawStake, before the payment. */
  function StakeReleased(l: Ledger, env: Env, caller: Address): Outcome<Ledger> {
    var info := Info(l, caller);
    if info.stake == 0 || info.withdrawTime == 0 || info.withdrawTime > env.now then Reverted
    else
      var l1 := SetInfo(l, caller, info.(unstakeDelaySec := 0, withdrawTime := 0, stake := 0));
      Returned(Record(l1, StakeWithdrawn(caller, env.now, info.unstakeDelaySec, info.stake)))
  }

  /** The ledger after the check and update of withdrawTo, before the payment. */
  function DepositReleased(l: Ledger, caller: Address, amount: nat): Outcome<Ledger> {
    var info := Info(l, caller);
    if amount > info.deposit then Reverted
    else Returned(Record(SetInfo(l, caller, info.(deposit := info.deposit - amount)), Withdrawn(caller, amount)))
  }

  // ----- nonces -----

  function KeyOf(nonce: Word): Uint192 {
    nonce / UINT64
  }

  function SeqOf(nonce: Word): nat {
    nonce % UINT64
  }

  function GetNonce(l: Ledger, sender: Address, key: Uint192): nat {
    Or(NextSeq(l, sender, key), key * UINT64)
  }

  function SetNextSeq(l: Ledger, sender: Address, key: Uint192, n: nat): Ledger {
    l.(nonces := l.nonces[(sender, key) := n])
  }

  function IncrementNonceResult(l: Ledger, caller: Address, key: Uint192): Outcome<Ledger> {
    var n := NextSeq(l, caller, key);
    if n + 1 >= TWO_TO_256 then Reverted else Returned(SetNextSeq(l, caller, key, n + 1))
  }

  /** Accept a nonce only if it carries the next sequence number, which it uses up. */
  function ValidateAndUpdateNonce(l: Ledger, sender: Address, nonce: Word): Check<Ledger> {
    var n := NextSeq(l, sender, KeyOf(nonce));
    if n + 1 >= TWO_TO_256 then Fail(NonceOverflow)
    else if n != SeqOf(nonce) then Fail(AA25)
    else Pass(Record(SetNextSeq(l, sender, KeyOf(nonce), n + 1), NonceAccepted(sender, KeyOf(nonce), n)))
  }

  // ----- calls out -----

  /** A call without ether: a reverted one leaves the ledger as it was. The lock is held. */
  function RunExternal(l: Ledger, env: Env, call: External): Ledger
    decreases call, 0
  {
    if call.ok then ApplyAll(l, env, true, call.steps) else l
  }

  /** A call with ether. To itself the entry point deposits; to others it pays, and they may call back. */
  function Pay(l: Ledger, env: Env, locked: bool, to: Address, value: nat, call: External): Outcome<Ledger>
    decreases call, 0
  {
    if l.balance < value then Reverted
    else if to == env.self then Credit(l, env.self, value, Deposited(env.self, value))
    else if !call.ok then Reverted
    else Returned(ApplyAll(l.(balance := l.balance - value), env, locked, call.steps))
  }

  // ----- validation -----

  const PAYMASTER_DATA_OFFSET: nat := 52

  function CopyUserOpToMemory(op: UserOp): Check<MemoryUserOp> {
    if op.paymasterAndDataLength == 0 then
      Pass(MemoryUserOp(op.sender, op.nonce, op.verificationGasLimit, op.callGasLimit, 0, 0,
                        op.preVerificationGas, NO_ADDRESS, op.maxFeePerGas, op.maxPriorityFeePerGas))
    else if op.paymasterAndDataLength < PAYMASTER_DATA_OFFSET then Fail(AA93)
    else
      Pass(MemoryUserOp(op.sender, op.nonce, op.verificationGasLimit, op.callGasLimit,
                        op.paymasterVerificationGasLimit, op.paymasterPostOpGasLimit,
                        op.preVerificationGas, op.paymaster, op.maxFeePerGas, op.maxPriorityFeePerGas))
  }

  /** What is remembered of a validated operation. */
  datatype OpInfo = OpInfo(op: MemoryUserOp, prefund: Word, hasContext: bool, preOpGas: Word)

  function CreateSenderIfNeeded(l: Ledger, env: Env, run: Run): Check<Ledger>
    decreases run, 0
  {
    if !run.op.hasInitCode then Pass(l)
    else if run.creation.AlreadyConstructed? then Fail(AA10)
    else
      var l1 := RunExternal(l, env, run.factory);
      match run.creation
      case CreatorReverted => Fail(CreatorFailed)
      case InitCodeFailed => Fail(AA13)
      case WrongSender => Fail(AA14)
      case NoCode => Fail(AA15)
      case _ => Pass(l1)
  }

  /** The account validates; without a paymaster its deposit then pays the prefund. */
  function ValidateAccountPrepayment(l: Ledger, env: Env, run: Run, op: MemoryUserOp, prefund: Word): Check<Ledger>
    decreases run, 1
  {
    match CreateSenderIfNeeded(l, env, run)
    case Fail(c) => Fail(c)
    case Pass(l1) =>
      if !run.validate.ok then Fail(AA23)
      else
        var l2 := RunExternal(l1, env, run.validate);
        if op.paymaster != NO_ADDRESS then Pass(l2)
        else TakePrefund(l2, op.sender, prefund, AA21)
  }

  function TakePrefund(l: Ledger, payer: Address, prefund: nat, code: Code): Check<Ledger> {
    var info := Info(l, payer);
    if prefund > info.deposit then Fail(code)
    else Pass(Record(SetInfo(l, payer, info.(deposit := info.deposit - prefund)), Charged(payer, prefund)))
  }

  /** The paymaster's deposit pays the prefund before the paymaster validates. */
  function ValidatePaymasterPrepayment(l: Ledger, env: Env, run: Run, op: MemoryUserOp, prefund: Word): Check<Ledger>
    decreases run, 1
  {
    match TakePrefund(l, op.paymaster, prefund, AA31)
    case Fail(c) => Fail(c)
    case Pass(l1) =>
      if !run.validatePaymaster.ok then Fail(AA33)
      else if run.gas.beforePaymaster - run.gas.afterPaymaster > op.paymasterVerificationGasLimit then Fail(AA36)
      else Pass(RunExternal(l1, env, run.validatePaymaster))
  }

  function ValidatePrepayment(l: Ledger, env: Env, run: Run): Check<(Ledger, OpInfo)>
    decreases run, 2
  {
    match CopyUserOpToMemory(run.op)
    case Fail(c) => Fail(c)
    case Pass(op) =>
      if !GasValuesFit(op) then Fail(AA94)
      else
        var prefund := RequiredPrefund(op);
        match ValidateAccountPrepayment(l, env, run, op, prefund)
        case Fail(c) => Fail(c)
        case Pass(l1) =>
          match ValidateAndUpdateNonce(l1, op.sender, op.nonce)
          case Fail(c) => Fail(c)
          case Pass(l2) =>
            if run.gas.start - run.gas.afterAccount > op.verificationGasLimit then Fail(AA26)
            else
              var preOpGas := Wrap(run.gas.start - run.gas.end + op.preVerificationGas);
              if op.paymaster == NO_ADDRESS then Pass((l2, OpInfo(op, prefund, false, preOpGas)))
              else
                match ValidatePaymasterPrepayment(l2, env, run, op, prefund)
                case Fail(c) => Fail(c)
                case Pass(l3) => Pass((l3, OpInfo(op, prefund, run.hasContext, preOpGas)))
  }

  /** Aggregator and time range packed in validation data; zero means valid for ever, no aggregator. */
  function GetValidationData(validationData: Word, now: nat): (Address, bool) {
    if validationData == 0 then (NO_ADDRESS, false)
    else
      var packedTimes := validationData / ADDRESS_RANGE;
      var until := packedTimes % UINT48;
      var validUntil := if until == 0 then UINT48 - 1 else until;
      var validAfter := packedTimes / UINT48;
      (validationData % ADDRESS_RANGE, now > validUntil || now < validAfter)
  }

  const ADDRESS_RANGE: nat := 0x1_0000000000_0000000000_0000000000_0000000000

  /** The paymaster's validation data, which stays zero when there is no paymaster. */
  function PaymasterValidationData(run: Run, info: OpInfo): Word {
    if info.op.paymaster == NO_ADDRESS then 0 else run.paymasterValidationData
  }

  function ValidationDataCode(env: Env, run: Run, info: OpInfo, expectedAggregator: Address): Check<()> {
    var (aggregator, outOfTimeRange) := GetValidationData(run.validationData, env.now);
    var (pmAggregator, pmOutOfTimeRange) := GetValidationData(PaymasterValidationData(run, info), env.now);
    if expectedAggregator != aggregator then Fail(AA24)
    else if outOfTimeRange then Fail(AA22)
    else if pmAggregator != NO_ADDRESS then Fail(AA34)
    else if pmOutOfTimeRange then Fail(AA32)
    else Pass(())
  }

  // ----- execution -----

  datatype Mode = OpSucceeded | OpReverted | PostOpReverted

  /** How the end of an execution comes out. */
  datatype PostResult = Settled(ledger: Ledger, actualGasCost: Word) | PostOpFailed | LowPrefund | RefundOverflow

  /** The party that was charged the prefund, and gets the refund. */
  function Payer(op: MemoryUserOp): Address {
    if op.paymaster == NO_ADDRESS then op.sender else op.paymaster
  }

  /** The paymaster's postOp runs when it left a context, except after a first failure. */
  predicate CallsPostOp(info: OpInfo, mode: Mode) {
    info.op.paymaster != NO_ADDRESS && info.hasContext && !mode.PostOpReverted?
  }

  /** The gas an execution is charged for, from the gas used before, the gas used here and the penalty. */
  function ChargedGas(info: OpInfo, actualGas: Word, spent: Word): Word {
    PenalizedGas(Wrap(actualGas + spent), info.preOpGas,
                 Wrap(info.op.callGasLimit + info.op.paymasterPostOpGasLimit))
  }

  function PostExecution(l: Ledger, env: Env, run: Run, info: OpInfo, mode: Mode, actualGas: Word,
          spent: Word): PostResult
    decreases run, 1
  {
    if CallsPostOp(info, mode) && !run.postOp.ok then PostOpFailed
    else
      var l1 := if CallsPostOp(info, mode) then RunExternal(l, env, run.postOp) else l;
      Settle(l1, info, mode, Cost(ChargedGas(info, actualGas, spent), GasPrice(info.op, env.basefee)))
  }

  /** Compare the cost with the prefund and refund the rest. */
  function Settle(l: Ledger, info: OpInfo, mode: Mode, cost: Word): PostResult {
    if info.prefund < cost then
      if mode.PostOpReverted? then Settled(l, info.prefund) else LowPrefund
    else
      var refund := info.prefund - cost;
      match Credit(l, Payer(info.op), refund, Refunded(Payer(info.op), refund))
      case Reverted => RefundOverflow
      case Returned(l1) => Settled(l1, cost)
  }

  /** How the inner call ends. */
  datatype InnerResult = InnerDone(ledger: Ledger, actualGasCost: Word) | OutOfGas | PrefundTooLow | OtherRevert

  /** The gas the inner call must still have, in unchecked arithmetic. */
  function GasNeeded(op: MemoryUserOp): Word {
    Wrap(Wrap(op.callGasLimit + op.paymasterPostOpGasLimit) + INNER_GAS_OVERHEAD)
  }

  /** The bundler left too little gas for the inner call, which reaches its check and says so. */
  predicate LacksGas(run: Run, op: MemoryUserOp) {
    !run.innerAborts && run.gas.innerCheck * 63 / 64 < GasNeeded(op)
  }

  /** The inner call; innerAborts says that it runs out of gas on its own, before or after its check. */
  function InnerHandleOp(l: Ledger, env: Env, run: Run, info: OpInfo): InnerResult
    decreases run, 2
  {
    if run.innerAborts then OtherRevert
    else if run.gas.innerCheck * 63 / 64 < GasNeeded(info.op) then OutOfGas
    else
      var mode := if run.op.hasCallData && !run.call.ok then OpReverted else OpSucceeded;
      var l1 := if run.op.hasCallData then RunExternal(l, env, run.call) else l;
      var actualGas := Wrap(run.gas.innerStart - run.gas.afterCall + info.preOpGas);
      match PostExecution(l1, env, run, info, mode, actualGas, run.gas.postStart - run.gas.postEnd)
      case Settled(l2, cost) => InnerDone(l2, cost)
      case LowPrefund => PrefundTooLow
      case _ => OtherRevert
  }

  /** Execute one operation: the ledger afterwards and what it paid. A reverted inner call is undone. */
  function ExecuteUserOp(l: Ledger, env: Env, run: Run, info: OpInfo): Check<(Ledger, Word)>
    decreases run, 3
  {
    match InnerHandleOp(l, env, run, info)
    case InnerDone(l1, cost) => Pass((l1, cost))
    case OutOfGas => Fail(AA95)
    case PrefundTooLow => Pass((l, info.prefund))
    case OtherRevert =>
      var actualGas := Wrap(run.gas.execStart - run.gas.afterInner + info.preOpGas);
      match PostExecution(l, env, run, info, PostOpReverted, actualGas, run.gas.fallbackStart - run.gas.fallbackEnd)
      case Settled(l1, cost) => Pass((l1, cost))
      case _ => Fail(DepositOverflow)
  }

  // ----- bundles -----

  /** The state between the operations of a bundle, or the failure that ends it. */
  datatype Phase<+T> = Going(ledger: Ledger, value: T) | Stopped(index: nat, code: Code)

  /** Validate runs one after the other; base is the index of the first, local the index some failures report. */
  function ValidateAll(l: Ledger, env: Env, aggregator: Address, runs: seq<Run>, base: nat,
          local: nat): (r: Phase<seq<OpInfo>>)
    ensures r.Going? ==> |r.value| == |runs|
    decreases runs
  {
    if runs == [] then Going(l, [])
    else
      match ValidatePrepayment(l, env, runs[0])
      case Fail(c) => Stopped(base, c)
      case Pass((l1, info)) =>
        match ValidationDataCode(env, runs[0], info, aggregator)
        case Fail(c) => Stopped(local, c)
        case Pass(_) =>
          match ValidateAll(l1, env, aggregator, runs[1..], base + 1, local + 1)
          case Stopped(i, c) => Stopped(i, c)
          case Going(l2, infos) => Going(l2, [info] + infos)
  }

  /** Execute runs one after the other, adding up what they pay with unchecked additions. */
  function ExecuteAll(l: Ledger, env: Env, runs: seq<Run>, infos: seq<OpInfo>, base: nat, collected: Word): Phase<Word>
    requires |runs| == |infos|
    decreases runs
  {
    if runs == [] then Going(l, collected)
    else
      match ExecuteUserOp(l, env, runs[0], infos[0])
      case Fail(c) => Stopped(base, c)
      case Pass((l1, cost)) => ExecuteAll(l1, env, runs[1..], infos[1..], base + 1, Wrap(collected + cost))
  }

  /** The payment to the beneficiary, under the lock. */
  function Compensate(l: Ledger, env: Env, beneficiary: Address, collected: Word, payout: External): BundleResult
    decreases payout, 1
  {
    if beneficiary == NO_ADDRESS then Aborted(0, AA90)
    else
      match Pay(l, env, true, beneficiary, collected, payout)
      case Reverted => Aborted(0, AA91)
      case Returned(l1) => Done(l1)
  }

  function HandleOpsResult(l: Ledger, env: Env, locked: bool, step: Step): BundleResult
    requires step.HandleOps?
    decreases step, 1
  {
    if locked then Aborted(0, Reentrant)
    else
      match ValidateAll(l, env, NO_ADDRESS, step.runs, 0, 0)
      case Stopped(i, c) => Aborted(i, c)
      case Going(l1, infos) =>
        match ExecuteAll(l1, env, step.runs, infos, 0, 0)
        case Stopped(i, c) => Aborted(i, c)
        case Going(l2, collected) => Compensate(l2, env, step.beneficiary, collected, step.payout)
  }

  // ----- bundles with aggregators -----

  const SIGNATURE_ERROR: Address := 1

  /** Every aggregator that is named checks the signatures of its group first. */
  function CheckSignatures(l: Ledger, env: Env, groups: seq<Group>): Phase<()>
    decreases groups
  {
    if groups == [] then Going(l, ())
    else if groups[0].aggregator == SIGNATURE_ERROR then Stopped(0, AA96)
    else if groups[0].aggregator != NO_ADDRESS && !groups[0].signature.ok then Stopped(0, SignatureValidationFailed)
    else
      var l1 := if groups[0].aggregator != NO_ADDRESS then RunExternal(l, env, groups[0].signature) else l;
      CheckSignatures(l1, env, groups[1..])
  }

  /** Validate group by group, counting operations across groups; some failures report the index in the group. */
  function ValidateGroups(l: Ledger, env: Env, groups: seq<Group>, base: nat): (r: Phase<seq<OpInfo>>)
    ensures r.Going? ==> |r.value| == CountRuns(groups)
    decreases groups
  {
    if groups == [] then Going(l, [])
    else
      match ValidateAll(l, env, groups[0].aggregator, groups[0].runs, base, 0)
      case Stopped(i, c) => Stopped(i, c)
      case Going(l1, infos) =>
        match ValidateGroups(l1, env, groups[1..], base + |groups[0].runs|)
        case Stopped(i, c) => Stopped(i, c)
        case Going(l2, rest) => Going(l2, infos + rest)
  }

  function CountRuns(groups: seq<Group>): nat {
    if groups == [] then 0 else |groups[0].runs| + CountRuns(groups[1..])
  }

  /** Execute group by group; the infos are one list for all groups. */
  function ExecuteGroups(l: Ledger, env: Env, groups: seq<Group>, infos: seq<OpInfo>, base: nat,
          collected: Word): Phase<Word>
    requires |infos| == CountRuns(groups)
    decreases groups
  {
    if groups == [] then Going(l, collected)
    else
      var k := |groups[0].runs|;
      match ExecuteAll(l, env, groups[0].runs, infos[..k], base, collected)
      case Stopped(i, c) => Stopped(i, c)
      case Going(l1, collected1) => ExecuteGroups(l1, env, groups[1..], infos[k..], base + k, collected1)
  }

  function HandleAggregatedOpsResult(l: Ledger, env: Env, locked: bool, step: Step): BundleResult
    requires step.HandleAggregatedOps?
    decreases step, 1
  {
    if locked then Aborted(0, Reentrant)
    else
      match CheckSignatures(l, env, step.groups)
      case Stopped(i, c) => Aborted(i, c)
      case Going(l0, _) =>
        match ValidateGroups(l0, env, step.groups, 0)
        case Stopped(i, c) => Aborted(i, c)
        case Going(l1, infos) =>
          match ExecuteGroups(l1, env, step.groups, infos, 0, 0)
          case Stopped(i, c) => Aborted(i, c)
          case Going(l2, collected) => Compensate(l2, env, step.beneficiary, collected, step.payout)
  }

  // ----- any step, and any run -----

  function Committed(l: Ledger, r: Outcome<Ledger>): Ledger {
    if r.Returned? then r.value else l
  }

  function WithdrawStakeResult(l: Ledger, env: Env, locked: bool, caller: Address, to: Address,
          call: External): Outcome<Ledger>
    decreases call, 1
  {
    match StakeReleased(l, env, caller)
    case Reverted => Reverted
    case Returned(l1) => Pay(l1, env, locked, to, Info(l, caller).stake, call)
  }

  function WithdrawToResult(l: Ledger, env: Env, locked: bool, caller: Address, to: Address, amount: nat,
          call: External): Outcome<Ledger>
    decreases call, 1
  {
    match DepositReleased(l, caller, amount)
    case Reverted => Reverted
    case Returned(l1) => Pay(l1, env, locked, to, amount, call)
  }

  /** Ether forced onto the contract, by a self-destruct or as a block reward. */
  function ForceEtherResult(l: Ledger, value: nat): Outcome<Ledger> {
    match Receive(l, value)
    case Reverted => Reverted
    case Returned(l1) => Returned(l1.(forced := l1.forced + value))
  }

  /** The ledger after a call from outside; a reverted call changes nothing. */
  function Apply(l: Ledger, env: Env, locked: bool, step: Step): Ledger
    decreases step, 2
  {
    match step
    case DepositTo(account, value) => Committed(l, DepositToResult(l, account, value))
    case AddStake(caller, delay, value) => Committed(l, AddStakeResult(l, caller, delay, value))
    case UnlockStake(caller) => Committed(l, UnlockStakeResult(l, env, caller))
    case WithdrawStake(caller, to, call) => Committed(l, WithdrawStakeResult(l, env, locked, caller, to, call))
    case WithdrawTo(caller, to, amount, call) =>
      Committed(l, WithdrawToResult(l, env, locked, caller, to, amount, call))
    case IncrementNonce(caller, key) => Committed(l, IncrementNonceResult(l, caller, key))
    case HandleOps(_, _, _) =>
      var r := HandleOpsResult(l, env, locked, step);
      if r.Done? then r.ledger else l
    case HandleAggregatedOps(_, _, _) =>
      var r := HandleAggregatedOpsResult(l, env, locked, step);
      if r.Done? then r.ledger else l
    case ForceEther(value) => Committed(l, ForceEtherResult(l, value))
  }

  function ApplyAll(l: Ledger, env: Env, locked: bool, steps: seq<Step>): Ledger
    decreases steps
  {
    if steps == [] then l else ApplyAll(Apply(l, env, locked, steps[0]), env, locked, steps[1..])
  }

  /** One transaction: its surroundings, and the steps it leads to. */
  datatype Transaction = Transaction(env: Env, steps: seq<Step>)

  /** The ledger after a history of transactions, from deployment on. */
  function History(txs: seq<Transaction>): Ledger {
    if txs == [] then EMPTY
    else
      var tx := txs[|txs| - 1];
      ApplyAll(History(txs[..|txs| - 1]), tx.env, false, tx.steps)
  }
}
