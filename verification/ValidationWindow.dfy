/** The aggregator and the time window that accounts and paymasters pack into one word. */
module ValidationWindow {
  import opened BitwiseOr
  import opened Evm
  import opened ModArith
  import opened Ledger
  import opened EntryPointModel

  const ADDRESS_BITS: nat := 160
  const TIME_BITS: nat := 48

  /** How accounts pack the data: an or of shifted fields. */
  function Pack(aggregator: Address, validUntil: nat, validAfter: nat): nat {
    Or(Or(aggregator, validUntil * Pow2(ADDRESS_BITS)), validAfter * Pow2(ADDRESS_BITS + TIME_BITS))
  }

  lemma FieldSizes()
    ensures Pow2(ADDRESS_BITS) == ADDRESS_RANGE && Pow2(TIME_BITS) == UINT48
    ensures Pow2(ADDRESS_BITS + TIME_BITS) == ADDRESS_RANGE * UINT48
  {
    Pow2Eight();
    hide Pow2;
    Pow2SixtyFour();
    Pow2Add(8, 8);
    Pow2Add(16, 16);
    Pow2Add(32, 16);
    Pow2Add(64, 64);
    Pow2Add(128, 32);
    Pow2Add(160, 48);
  }

  lemma PackIsSum(aggregator: Address, validUntil: nat, validAfter: nat)
    requires validUntil < UINT48 && validAfter < UINT48
    ensures Pack(aggregator, validUntil, validAfter)
         == aggregator + ADDRESS_RANGE * validUntil + ADDRESS_RANGE * UINT48 * validAfter < TWO_TO_256
  {
    hide Pow2, Or;
    FieldSizes();
    OrIsSum(aggregator, validUntil, ADDRESS_BITS);
    OrIsSum(aggregator + validUntil * ADDRESS_RANGE, validAfter, ADDRESS_BITS + TIME_BITS);
  }

  /** The last second of a window is included; zero stands for the greatest 48-bit time. */
  predicate InWindow(validUntil: nat, validAfter: nat, now: nat) {
    validAfter <= now <= if validUntil == 0 then UINT48 - 1 else validUntil
  }

  /** Data that is zero as a word never expires. */
  predicate Valid(aggregator: Address, validUntil: nat, validAfter: nat, now: nat) {
    InWindow(validUntil, validAfter, now) || (aggregator == validUntil == validAfter == 0)
  }

  /** The three fields of a word: aggregator, end and start of the window. */
  function FieldsOf(data: Word): (f: (Address, nat, nat))
    ensures f.1 < UINT48 && f.2 < UINT48 && data == Pack(f.0, f.1, f.2)
  {
    var (a, u, v) := (data % ADDRESS_RANGE, data / ADDRESS_RANGE % UINT48, data / ADDRESS_RANGE / UINT48);
    PackIsSum(a, u, v);
    (a, u, v)
  }

  function AggregatorIn(data: Word): Address {
    FieldsOf(data).0
  }

  /** The window in the data contains the time, or the data is zero. */
  predicate Timely(data: Word, now: nat) {
    var (aggregator, until, after) := FieldsOf(data);
    Valid(aggregator, until, after, now)
  }

  /** There is one way to read a word. */
  lemma FieldsOfPacked(aggregator: Address, until: nat, after: nat)
    requires until < UINT48 && after < UINT48
    ensures Pack(aggregator, until, after) < TWO_TO_256
    ensures FieldsOf(Pack(aggregator, until, after)) == (aggregator, until, after)
  {
    hide Pack;
    PackIsSum(aggregator, until, after);
    Unpack(aggregator, until, after);
  }

  /** Reading packed data gives the aggregator back, and tells whether the time is in the window. */
  lemma ReadPacked(aggregator: Address, validUntil: nat, validAfter: nat, now: nat)
    requires validUntil < UINT48 && validAfter < UINT48
    ensures Pack(aggregator, validUntil, validAfter) < TWO_TO_256
    ensures GetValidationData(Pack(aggregator, validUntil, validAfter), now)
         == (aggregator, !Valid(aggregator, validUntil, validAfter, now))
  {
    hide Pack;
    PackIsSum(aggregator, validUntil, validAfter);
    Unpack(aggregator, validUntil, validAfter);
  }

  lemma Unpack(a: nat, u: nat, v: nat)
    requires a < ADDRESS_RANGE && u < UINT48
    ensures var x := a + ADDRESS_RANGE * u + ADDRESS_RANGE * UINT48 * v;
            && x % ADDRESS_RANGE == a && x / ADDRESS_RANGE == u + UINT48 * v
            && (x / ADDRESS_RANGE) % UINT48 == u && (x / ADDRESS_RANGE) / UINT48 == v
  {
    var x := a + ADDRESS_RANGE * u + ADDRESS_RANGE * UINT48 * v;
    DivModUnique(x, u + UINT48 * v, a, ADDRESS_RANGE);
    DivModUnique(u + UINT48 * v, v, u, UINT48);
  }

  /**
   An operation passes exactly when its account names the expected aggregator and its paymaster
   none, and both windows contain the block time.
   */
  lemma PassesInsideWindows(env: Env, run: Run, info: OpInfo, expected: Address,
                            aggregator: Address, until: nat, after: nat, pmAggregator: Address, pmUntil: nat,
                                    pmAfter: nat)
    requires until < UINT48 && after < UINT48 && pmUntil < UINT48 && pmAfter < UINT48
    requires run.validationData == Pack(aggregator, until, after)
    requires PaymasterValidationData(run, info) == Pack(pmAggregator, pmUntil, pmAfter)
    ensures ValidationDataCode(env, run, info, expected).Pass?
       <==> && aggregator == expected && pmAggregator == NO_ADDRESS
            && Valid(aggregator, until, after, env.now) && Valid(pmAggregator, pmUntil, pmAfter, env.now)
  {
    hide Pack, GetValidationData, Valid;
    ReadPacked(aggregator, until, after, env.now);
    ReadPacked(pmAggregator, pmUntil, pmAfter, env.now);
  }
}
