/** The decoders of public keys and signatures, as written for the test bench. */
module DecodeFinal {
  import opened Evm
  import opened ModArith
  import opened BitStream
  import opened FalconParameters
  import opened SignatureCodec
  import KeyCodec

  // ----- public keys -----

  predicate AllBelowQ(cs: seq<nat>) {
    forall u :: 0 <= u < |cs| ==> cs[u] < Q
  }

  /** The first coefficient that is not below q, if any, decides the error. */
  predicate KeyOutcome(coefficients: seq<nat>, r: Result<seq<nat>>) {
    match r
    case Ok(value) => value == coefficients && AllBelowQ(coefficients)
    case Fail(KeyOutOfRange(u, w)) =>
      && u < |coefficients| && w == coefficients[u] && w >= Q
      && forall j :: 0 <= j < u ==> coefficients[j] < Q
    case _ => false
  }

  lemma QBelowWidth()
    ensures Q < Pow2(KeyCodec.WIDTH)
  {
  }

  method DecodeFalconPk(pkBytes: seq<Byte>, n: nat) returns (r: Result<seq<nat>>)
    ensures KeyOutcome(KeyCodec.Coefficients(KeyCodec.Body(pkBytes), n), r)
    ensures forall cs: seq<nat> :: KeyCodec.IsKeyOf(pkBytes, cs) && |cs| == n && AllBelowQ(cs) ==> r == Ok(cs)
  {
    hide KeyCodec.IsKeyOf, KeyOutcome, Stream, Value, Holds, Field, PushByte, Uint32;
    ghost var body := KeyCodec.Body(pkBytes);
    var coeffs: seq<nat> := [];
    var acc: int, accLen: nat, idx: nat, u: nat := 0, 0, 1, 0;
    ReadingStart(body, 0, 0);
    while u < n
      invariant u <= n && idx >= 1 && accLen < 14 && Reading(body, acc, accLen, idx - 1, 14 * u)
      invariant |coeffs| == u
      invariant forall j :: 0 <= j < u ==> coeffs[j] == KeyCodec.Coefficient(body, j) < Q
      decreases 14 * n + 14 - 8 * idx
    {
      ReadingPush(body, acc, accLen, idx - 1, 14 * u);
      acc := PushByte(acc, ByteOrZero(pkBytes, idx));
      idx := idx + 1;
      accLen := accLen + 8;
      if accLen >= 14 {
        accLen := accLen - 14;
        ReadingTake(body, acc, accLen, idx - 1, 14 * u, 14);
        var w := Field(Uint32(acc), accLen, 14);
        if w >= Q {
          FirstOutOfRange(pkBytes, n, u, w);
          return Fail(KeyOutOfRange(u, w));
        }
        coeffs := coeffs + [w];
        u := u + 1;
      }
    }
    AllInRange(pkBytes, n, coeffs);
    return Ok(coeffs);
  }

  lemma AllInRange(pkBytes: seq<Byte>, n: nat, coeffs: seq<nat>)
    requires |coeffs| == n
    requires forall j :: 0 <= j < n ==> coeffs[j] == KeyCodec.Coefficient(KeyCodec.Body(pkBytes), j) < Q
    ensures KeyOutcome(KeyCodec.Coefficients(KeyCodec.Body(pkBytes), n), Ok(coeffs))
    ensures forall cs: seq<nat> :: KeyCodec.IsKeyOf(pkBytes, cs) && |cs| == n && AllBelowQ(cs) ==> coeffs == cs
  {
    hide KeyCodec.IsKeyOf, KeyCodec.Coefficient, KeyCodec.Body;
    KeyIsRead(pkBytes, n);
    assert coeffs == KeyCodec.Coefficients(KeyCodec.Body(pkBytes), n);
  }

  lemma FirstOutOfRange(pkBytes: seq<Byte>, n: nat, u: nat, w: nat)
    requires u < n && w == KeyCodec.Coefficient(KeyCodec.Body(pkBytes), u) && w >= Q
    requires forall j :: 0 <= j < u ==> KeyCodec.Coefficient(KeyCodec.Body(pkBytes), j) < Q
    ensures KeyOutcome(KeyCodec.Coefficients(KeyCodec.Body(pkBytes), n), Fail(KeyOutOfRange(u, w)))
    ensures forall cs: seq<nat> :: KeyCodec.IsKeyOf(pkBytes, cs) && |cs| == n ==> !AllBelowQ(cs)
  {
    hide KeyCodec.IsKeyOf, KeyCodec.Coefficient, KeyCodec.Body;
    KeyIsRead(pkBytes, n);
    assert KeyCodec.Coefficients(KeyCodec.Body(pkBytes), n)[u] == w;
  }

  lemma KeyIsRead(key: seq<Byte>, n: nat)
    ensures forall cs: seq<nat> :: KeyCodec.IsKeyOf(key, cs) && |cs| == n && AllBelowQ(cs) ==>
                                     KeyCodec.Coefficients(KeyCodec.Body(key), n) == cs
  {
    hide KeyCodec.IsKeyOf, KeyCodec.Coefficients, KeyCodec.Body;
    QBelowWidth();
    forall cs: seq<nat> | KeyCodec.IsKeyOf(key, cs) && |cs| == n && AllBelowQ(cs)
      ensures KeyCodec.Coefficients(KeyCodec.Body(key), n) == cs
    {
      KeyCodec.DecodeOfKey(key, cs);
    }
  }

  // ----- signatures -----

  function Coefficients(r: Result<(seq<int>, nat)>): Result<seq<int>> {
    match r
    case Fail(e) => Fail(e)
    case Ok((xs, _)) => Ok(xs)
  }

  /** The unary loop: bits one at a time, refilling the accumulator byte by byte. */
  method ReadUnary(compData: seq<Byte>, acc0: int, accLen0: nat, v0: nat, low: nat, u: nat, ghost p0: nat)
    returns (r: Result<nat>, acc: int, accLen: nat, v: nat, ghost p: nat)
    requires accLen0 < 8 && v0 <= |compData| && low <= MAX_COEFFICIENT && Reading(compData, acc0, accLen0, v0, p0)
    ensures match Unary(Stream(compData), p0, low, u)
            case Fail(e) => r == Fail(e)
            case Ok((m, e)) => r == Ok(m) && p == e
                               && accLen < 8 && v <= |compData| && Reading(compData, acc, accLen, v, p)
  {
    hide Stream, Value, Holds, Field, PushByte, Uint32;
    ghost var b := Stream(compData);
    var m: nat := low;
    acc, accLen, v, p := acc0, accLen0, v0, p0;
    while true
      invariant accLen < 8 && v <= |compData| && Reading(compData, acc, accLen, v, p)
      invariant m <= MAX_COEFFICIENT && Unary(b, p0, low, u) == Unary(b, p, m, u)
      decreases 8 * |compData| - p
    {
      if accLen == 0 {
        if v >= |compData| {
          return Fail(UnexpectedEnd), acc, accLen, v, p;
        }
        ReadingPush(compData, acc, accLen, v, p);
        acc := Uint32(PushByte(acc, compData[v]));
        v := v + 1;
        accLen := 8;
      }
      accLen := accLen - 1;
      ReadingTake(compData, acc, accLen, v, p, 1);
      OneBit(b, p);
      p := p + 1;
      if Field(Uint32(acc), accLen, 1) != 0 {
        return Ok(m), acc, accLen, v, p;
      }
      m := m + 128;
      if m > MAX_COEFFICIENT {
        return Fail(TooLarge(u)), acc, accLen, v, p;
      }
    }
  }

  lemma OneBit(b: seq<Bit>, p: nat)
    ensures Value(b, p, 1) == At(b, p)
  {
    assert Value(b, p, 0) == 0;
  }

  method DecodeFalconSig(compData: seq<Byte>, n: nat) returns (r: Result<seq<int>>)
    ensures r == Coefficients(DecodeFrom(Stream(compData), 0, 0, n))
  {
    hide Stream, Value, Holds, Field, PushByte, Uint32, Unary;
    ghost var b := Stream(compData);
    var x: seq<int> := [];
    var acc: int, accLen: nat, v: nat := 0, 0, 0;
    ghost var p: nat := 0;
    ReadingStart(compData, 0, 0);
    PrependNothing(DecodeFrom(b, 0, 0, n));
    for u := 0 to n
      invariant |x| == u && accLen < 8 && v <= |compData| && Reading(compData, acc, accLen, v, p)
      invariant DecodeFrom(b, 0, 0, n) == Prepend(x, DecodeFrom(b, p, u, n))
    {
      if v >= |compData| {
        return Fail(UnexpectedEnd);
      }
      ReadingPush(compData, acc, accLen, v, p);
      acc := Uint32(PushByte(acc, compData[v]));
      v := v + 1;
      ReadingTake(compData, acc, accLen, v, p, 8);
      var byte := Field(Uint32(acc), accLen, 8);
      var s, low := byte / 128, byte % 128;
      var unary;
      ghost var e;
      unary, acc, accLen, v, e := ReadUnary(compData, acc, accLen, v, low, u, p + 8);
      if unary.Fail? {
        return Fail(unary.error);
      }
      var m := unary.value;
      if s != 0 && m == 0 {
        return Fail(NegativeZero(u));
      }
      DecodeNext(b, p, u, n, x, Signed(s != 0, m), e);
      x := x + [Signed(s != 0, m)];
      p := e;
    }
    assert x + [] == x;
    return Ok(x);
  }

  lemma PrependNothing(r: Result<(seq<int>, nat)>)
    ensures Prepend([], r) == r
  {
    if r.Ok? { assert [] + r.value.0 == r.value.0; }
  }

  lemma DecodeNext(b: seq<Bit>, p: nat, u: nat, n: nat, xs: seq<int>, x: int, e: nat)
    requires u < n && DecodeCoefficient(b, p, u) == Ok((x, e))
    ensures Prepend(xs, DecodeFrom(b, p, u, n)) == Prepend(xs + [x], DecodeFrom(b, e, u + 1, n))
  {
    var rest := DecodeFrom(b, e, u + 1, n);
    if rest.Ok? { assert xs + ([x] + rest.value.0) == (xs + [x]) + rest.value.0; }
  }

  // ----- from signed coefficients to residues -----

  /** The representation the contract takes: a negative coefficient moved up by q. */
  function ToModQ(signed: seq<int>): (r: seq<int>)
    ensures |r| == |signed|
    ensures forall i :: 0 <= i < |signed| ==> Cong(r[i], signed[i], Q)
    ensures forall i :: 0 <= i < |signed| && 0 <= signed[i] + Q && signed[i] < Q ==> 0 <= r[i] < Q
  {
    forall i | 0 <= i < |signed| ensures Cong(signed[i] + Q, signed[i], Q) {
      CongFromMultiple(signed[i] + Q, signed[i], 1, Q);
    }
    seq(|signed|, i requires 0 <= i < |signed| => if signed[i] < 0 then Q + signed[i] else signed[i])
  }

  /** subarray clamps both ends to the length. */
  function Subarray(s: seq<Byte>, from: nat, to: nat): seq<Byte> {
    var hi := if to <= |s| then to else |s|;
    if from <= hi then s[from..hi] else []
  }

  datatype Decoded = Decoded(s2: seq<int>, nonce: seq<Byte>, signedS2: seq<int>)

  method DecodeFalconSignature(sigBytes: seq<Byte>, n: nat) returns (r: Result<Decoded>)
    ensures match Coefficients(DecodeFrom(Stream(Subarray(sigBytes, 43, |sigBytes|)), 0, 0, n))
            case Fail(e) => r == Fail(e)
            case Ok(xs) => r == Ok(Decoded(ToModQ(xs), Subarray(sigBytes, 2, 42), xs))
  {
    var nonce := Subarray(sigBytes, 2, 42);
    var compData := Subarray(sigBytes, 43, |sigBytes|);
    var signedS2 := DecodeFalconSig(compData, n);
    if signedS2.Fail? {
      return Fail(signedS2.error);
    }
    var s2 := ToModQ(signedS2.value);
    return Ok(Decoded(s2, nonce, signedS2.value));
  }
}
