/** What an operation pays: required prefund, gas price, penalty for unused gas. */
module GasAccounting {
  import opened BitwiseOr
  import opened Evm
  import opened Ledger
  import opened ModArith

  const MAX_UINT120: nat := 0xFF_FFFF_FFFF_FFFF_FFFF_FFFF_FFFF_FFFF
  const PENALTY_PERCENT: nat := 10
  const INNER_GAS_OVERHEAD: nat := 10000

  /** The static fields of an operation. */
  datatype MemoryUserOp = MemoryUserOp(
    sender: Address,
    nonce: Word,
    verificationGasLimit: Word,
    callGasLimit: Word,
    paymasterVerificationGasLimit: Word,
    paymasterPostOpGasLimit: Word,
    preVerificationGas: Word,
    paymaster: Address,
    maxFeePerGas: Word,
    maxPriorityFeePerGas: Word)

  /** The result of unchecked arithmetic. */
  function Wrap(x: int): (r: Word)
    ensures 0 <= x < TWO_TO_256 ==> r == x
  {
    if 0 <= x < TWO_TO_256 then x else x % TWO_TO_256
  }

  /** The bitwise or of every numeric value. */
  function MaxGasValues(op: MemoryUserOp): nat {
    Or(Or(Or(Or(Or(Or(op.preVerificationGas, op.verificationGasLimit), op.callGasLimit),
                op.paymasterVerificationGasLimit), op.paymasterPostOpGasLimit), op.maxFeePerGas),
       op.maxPriorityFeePerGas)
  }

  /** The overflow check, a single comparison. */
  predicate GasValuesFit(op: MemoryUserOp) {
    MaxGasValues(op) <= MAX_UINT120
  }

  /** The single comparison bounds every value, and refuses no operation whose values are all in bounds. */
  lemma GasValuesFitEach(op: MemoryUserOp)
    ensures GasValuesFit(op) <==>
            && op.preVerificationGas <= MAX_UINT120 && op.verificationGasLimit <= MAX_UINT120
            && op.callGasLimit <= MAX_UINT120 && op.paymasterVerificationGasLimit <= MAX_UINT120
            && op.paymasterPostOpGasLimit <= MAX_UINT120 && op.maxFeePerGas <= MAX_UINT120
            && op.maxPriorityFeePerGas <= MAX_UINT120
  {
    hide Or, Pow2;
    Pow2OneTwenty();
    var a := Or(op.preVerificationGas, op.verificationGasLimit);
    var b := Or(a, op.callGasLimit);
    var c := Or(b, op.paymasterVerificationGasLimit);
    var d := Or(c, op.paymasterPostOpGasLimit);
    var e := Or(d, op.maxFeePerGas);
    OrFits(op.preVerificationGas, op.verificationGasLimit, 120);
    OrFits(a, op.callGasLimit, 120);
    OrFits(b, op.paymasterVerificationGasLimit, 120);
    OrFits(c, op.paymasterPostOpGasLimit, 120);
    OrFits(d, op.maxFeePerGas, 120);
    OrFits(e, op.maxPriorityFeePerGas, 120);
  }

  lemma Pow2OneTwenty()
    ensures Pow2(120) == MAX_UINT120 + 1
  {
    Pow2Eight();
    hide Pow2;
    Pow2SixtyFour();
    Pow2Add(8, 8);
    Pow2Add(16, 16);
    Pow2Add(32, 16);
    Pow2Add(48, 8);
    Pow2Add(64, 56);
  }

  /** The unchecked computation. */
  function RequiredPrefund(op: MemoryUserOp): Word {
    var requiredGas := Wrap(Wrap(Wrap(Wrap(op.verificationGasLimit + op.callGasLimit)
                                      + op.paymasterVerificationGasLimit)
                                 + op.paymasterPostOpGasLimit)
                            + op.preVerificationGas);
    Wrap(requiredGas * op.maxFeePerGas)
  }

  function TotalGasLimit(op: MemoryUserOp): nat {
    op.verificationGasLimit + op.callGasLimit + op.paymasterVerificationGasLimit
    + op.paymasterPostOpGasLimit + op.preVerificationGas
  }

  lemma MulBound(x: nat, y: nat, a: nat, b: nat)
    requires x <= a && y <= b
    ensures x * y <= a * b
  {
    assert x * y <= a * y <= a * b;
  }

  /** After the check, the prefund is the exact product. */
  lemma PrefundIsExact(op: MemoryUserOp)
    requires GasValuesFit(op)
    ensures RequiredPrefund(op) == TotalGasLimit(op) * op.maxFeePerGas
  {
    hide Wrap;
    GasValuesFitEach(op);
    MulBound(TotalGasLimit(op), op.maxFeePerGas, 5 * MAX_UINT120, MAX_UINT120);
    assert 5 * MAX_UINT120 * MAX_UINT120 < TWO_TO_256;
  }

  function Min(a: nat, b: nat): nat {
    if a < b then a else b
  }

  function GasPrice(op: MemoryUserOp, basefee: Word): (price: Word)
    ensures price <= op.maxFeePerGas
  {
    if op.maxFeePerGas == op.maxPriorityFeePerGas then op.maxFeePerGas
    else Min(op.maxFeePerGas, Wrap(op.maxPriorityFeePerGas + basefee))
  }

  /** Base fees stay this small; 2^120 wei is more than all ether. */
  const BASE_FEE_BOUND: nat := MAX_UINT120

  /**
   The price of a checked operation is the most it agreed to pay: it exceeds neither the cap nor the
   base fee plus the tip, and equals one of them. The separate branch for equal fees, and the
   unchecked addition, make no difference.
   */
  lemma GasPriceIsExact(op: MemoryUserOp, basefee: Word)
    requires GasValuesFit(op) && basefee <= BASE_FEE_BOUND
    ensures GasPrice(op, basefee) == Min(op.maxFeePerGas, op.maxPriorityFeePerGas + basefee)
  {
    GasValuesFitEach(op);
    hide Wrap, GasValuesFit;
  }

  /** Gas used, plus a tenth of the execution gas that was reserved and not used. */
  function PenalizedGas(actualGas: Word, preOpGas: Word, limit: Word): Word {
    var used := Wrap(actualGas - preOpGas);
    if limit > used then Wrap(actualGas + Wrap(Wrap(limit - used) * PENALTY_PERCENT) / 100) else actualGas
  }

  /** Gas numbers of an operation stay this small: readings are below 2^64, gas values below 2^120. */
  const GAS_BOUND: nat := 0x4_0000_0000_0000_0000_0000_0000_0000_0000

  /** The penalised gas lies between the gas used and what was reserved. */
  lemma PenaltyBounds(actualGas: Word, preOpGas: Word, limit: Word)
    requires preOpGas <= actualGas <= GAS_BOUND && limit <= GAS_BOUND
    ensures actualGas <= PenalizedGas(actualGas, preOpGas, limit)
    ensures PenalizedGas(actualGas, preOpGas, limit)
         <= if actualGas < preOpGas + limit then preOpGas + limit else actualGas
  {
    assert Wrap(actualGas - preOpGas) == actualGas - preOpGas;
  }

  /** Using more gas never makes an operation cheaper. */
  lemma PenaltyMonotone(g: Word, g': Word, preOpGas: Word, limit: Word)
    requires preOpGas <= g <= g' <= GAS_BOUND && limit <= GAS_BOUND
    ensures PenalizedGas(g, preOpGas, limit) <= PenalizedGas(g', preOpGas, limit)
  {
    PenaltyExact(g, preOpGas, limit);
    PenaltyExact(g', preOpGas, limit);
  }

  lemma PenaltyExact(g: Word, preOpGas: Word, limit: Word)
    requires preOpGas <= g <= GAS_BOUND && limit <= GAS_BOUND
    ensures PenalizedGas(g, preOpGas, limit)
         == g + (if limit > g - preOpGas then (limit - (g - preOpGas)) * PENALTY_PERCENT / 100 else 0)
  {
    assert Wrap(g - preOpGas) == g - preOpGas;
  }

  /** The cost in wei. */
  function Cost(gas: Word, price: Word): Word {
    Wrap(gas * price)
  }

  /** No cost of an operation that passed the check wraps around. */
  lemma CostIsExact(gas: Word, price: Word)
    requires gas <= 2 * GAS_BOUND && price <= MAX_UINT120
    ensures Cost(gas, price) == gas * price
  {
    hide Wrap;
    MulBound(gas, price, 2 * GAS_BOUND, MAX_UINT120);
    assert 2 * GAS_BOUND * MAX_UINT120 < TWO_TO_256;
  }
}
