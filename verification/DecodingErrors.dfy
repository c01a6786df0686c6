/** What the input looks like when decoding a signature fails: the error says it exactly. */
module DecodingErrors {
  import opened Evm
  import opened ModArith
  import opened BitStream
  import opened SignatureCodec

  predicate ZerosAt(b: seq<Bit>, p: nat, z: nat) {
    p + z <= |b| && forall i :: p <= i < p + z ==> b[i] == 0
  }

  /** The bits are a coefficient cut short. */
  predicate CutShort(b: seq<Bit>, x: int) {
    Legal(x) && |b| < |EncodeCoefficient(x)| && b == EncodeCoefficient(x)[..|b|]
  }

  /** After sign and low bits there are so many zeros that the absolute value exceeds 2047. */
  predicate RunsOver(b: seq<Bit>, z: nat) {
    ZerosAt(b, 8, z) && Value(b, 0, 8) % 128 + 128 * z > 2047
  }

  /** The bits where coefficient k should be give reason for the error. */
  ghost predicate Reason(b: seq<Bit>, k: nat, e: Error) {
    match e
    case UnexpectedEnd => exists x: int :: CutShort(b, x)
    case TooLarge(u) => u == k && exists z: nat :: RunsOver(b, z)
    case NegativeZero(u) => u == k && NegativeZeroBits() <= b
    case KeyOutOfRange(_, _) => false
  }

  // ----- the unary part -----

  lemma {:induction false} UnaryFails(b: seq<Bit>, p: nat, m: nat, u: nat)
    requires p <= |b| && m <= MAX_COEFFICIENT
    ensures Unary(b, p, m, u) == Fail(UnexpectedEnd)
       <==> ZerosAt(b, p, |b| - p) && m + 128 * (|b| - p) <= MAX_COEFFICIENT
    ensures Unary(b, p, m, u).Fail? ==> Unary(b, p, m, u).error in {UnexpectedEnd, TooLarge(u)}
    ensures Unary(b, p, m, u) == Fail(TooLarge(u))
       <==> exists z: nat :: ZerosAt(b, p, z) && m + 128 * z > MAX_COEFFICIENT
    decreases |b| - p
  {
    if p < |b| && b[p] == 0 && m + 128 <= MAX_COEFFICIENT {
      UnaryFails(b, p + 1, m + 128, u);
      if z: nat :| ZerosAt(b, p, z) && m + 128 * z > MAX_COEFFICIENT {
        assert ZerosAt(b, p + 1, z - 1);
      }
      if z: nat :| ZerosAt(b, p + 1, z) && m + 128 + 128 * z > MAX_COEFFICIENT {
        assert ZerosAt(b, p, z + 1);
      }
    } else if p < |b| && b[p] == 0 {
      assert ZerosAt(b, p, 1);
    }
  }

  lemma {:induction false} UnaryShift(b: seq<Bit>, p: nat, i: nat, m: nat, u: nat)
    requires p <= |b|
    ensures Unary(b, p + i, m, u) == match Unary(b[p..], i, m, u)
                                     case Fail(e) => Fail(e)
                                     case Ok((m', e)) => Ok((m', p + e))
    decreases |b| - p - i
  {
    if p + i < |b| { UnaryShift(b, p, i + 1, m + 128, u); }
  }

  lemma CoefficientShift(b: seq<Bit>, p: nat, u: nat, e: Error)
    requires p <= |b|
    ensures DecodeCoefficient(b, p, u) == Fail(e) <==> DecodeCoefficient(b[p..], 0, u) == Fail(e)
  {
    hide Value, Unary;
    if p + 8 <= |b| {
      ValueIsNumber(b, p, 8);
      ValueIsNumber(b[p..], 0, 8);
      assert b[p..][0..8] == b[p..p + 8];
      UnaryShift(b, p, 8, Value(b, p, 8) % 128, u);
    }
  }

  // ----- one coefficient -----

  /** The first eight bits of an encoding. */
  lemma FirstByte(b: seq<Bit>, x: int)
    requires Legal(x) && 8 <= |b| && b[..8] == EncodeCoefficient(x)[..8]
    ensures Value(b, 0, 8) == (if x < 0 then 128 else 0) + Abs(x) % 128
  {
    hide Value, BitsOf;
    var byte := (if x < 0 then 128 else 0) + Abs(x) % 128;
    SignAndLowBits(byte);
    Pow2Eight();
    assert EncodeCoefficient(x)[..8] == BitsOf(byte, 8);
    assert b[0..8] == b[..8];
    ValueOfSlice(b, 0, byte, 8);
  }

  lemma CutShortFails(b: seq<Bit>, k: nat, x: int)
    requires CutShort(b, x)
    ensures DecodeCoefficient(b, 0, k) == Fail(UnexpectedEnd)
  {
    hide Value, Unary, BitsOf;
    if 8 <= |b| {
      assert b[..8] == EncodeCoefficient(x)[..8];
      FirstByte(b, x);
      assert ZerosAt(b, 8, |b| - 8);
      UnaryFails(b, 8, Abs(x) % 128, k);
    }
  }

  /** Eight bits and some zeros begin the encoding of a legal coefficient, unless they make a negative zero. */
  lemma Completed(first: seq<Bit>, z: nat) returns (x: int)
    requires |first| == 8 && Value(first, 0, 8) % 128 + 128 * z <= MAX_COEFFICIENT
    requires Value(first, 0, 8) % 128 + 128 * z > 0 || Value(first, 0, 8) < 128
    ensures Legal(x) && EncodeCoefficient(x) == first + (ZeroBits(z) + [1])
  {
    hide Value, BitsOf;
    var byte := Value(first, 0, 8);
    ValueBound(first, 0, 8);
    Pow2Eight();
    SliceIsBits(first, 0, 8);
    assert first[0..8] == first;
    SignAndLowBits(byte);
    x := Signed(byte >= 128, byte % 128 + 128 * z);
    assert Abs(x) % 128 == byte % 128 && Abs(x) / 128 == z && (x < 0 <==> byte >= 128);
  }

  /** Bits that end in the middle of the sign and low bits begin some encoding. */
  lemma FewBitsAreCutShort(b: seq<Bit>) returns (x: int)
    requires |b| < 8
    ensures CutShort(b, x)
  {
    hide EncodeCoefficient;
    var first := b + seq<Bit>(8 - |b|, _ => 1);
    ValueBound(first, 0, 8);
    Pow2Eight();
    LastOne(first);
    x := Completed(first, 0);
    assert b == first[..|b|];
  }

  /** So do bits that end in the middle of the zeros. */
  lemma EndIsCutShort(b: seq<Bit>, k: nat) returns (x: int)
    requires 8 <= |b| && DecodeCoefficient(b, 0, k) == Fail(UnexpectedEnd)
    ensures CutShort(b, x)
  {
    hide Value, Unary, EncodeCoefficient;
    var first, z := b[..8], |b| - 8;
    ValueIsNumber(b, 0, 8);
    ValueIsNumber(first, 0, 8);
    assert b[0..8] == first[0..8];
    var byte := Value(b, 0, 8);
    ValueBound(b, 0, 8);
    UnaryFails(b, 8, byte % 128, k);
    var more := if byte >= 128 && byte % 128 + 128 * z == 0 then 1 else z;
    x := Completed(first, more);
    assert b[8..] == ZeroBits(more)[..z];
    assert b == first + b[8..];
  }

  lemma LastOne(b: seq<Bit>)
    requires |b| == 8 && b[7] == 1
    ensures Value(b, 0, 8) % 128 != 0
  {
    hide Value;
    assert Value(b, 0, 8) == 2 * Value(b, 0, 7) + 1 by { LastBit(b); }
  }

  lemma LastBit(b: seq<Bit>)
    requires |b| == 8
    ensures Value(b, 0, 8) == 2 * Value(b, 0, 7) + b[7]
  {
  }

  lemma NegativeZeroExactly(b: seq<Bit>, k: nat)
    ensures DecodeCoefficient(b, 0, k) == Fail(NegativeZero(k)) <==> NegativeZeroBits() <= b
  {
    hide Value, BitsOf, Pow2;
    SignAndLowBits(128);
    ZeroBitsOf(7);
    Pow2Eight();
    if NegativeZeroBits() <= b {
      assert b[0..8] == NegativeZeroBits()[..8] == BitsOf(128, 8);
      ValueOfSlice(b, 0, 128, 8);
      assert b[8] == NegativeZeroBits()[8];
    }
    if DecodeCoefficient(b, 0, k) == Fail(NegativeZero(k)) {
      var byte := Value(b, 0, 8);
      ValueBound(b, 0, 8);
      UnaryFails(b, 8, byte % 128, k);
      UnarySound(b, 8, byte % 128, k);
      assert byte == 128;
      SliceIsBits(b, 0, 8);
      assert b[0..8] == [1] + ZeroBits(7);
      assert b[8] == 1;
      assert b[..9] == b[0..8] + [b[8]];
    }
  }

  lemma CoefficientErrors(b: seq<Bit>, k: nat)
    ensures DecodeCoefficient(b, 0, k).Fail? ==>
              DecodeCoefficient(b, 0, k).error in {UnexpectedEnd, TooLarge(k), NegativeZero(k)}
    ensures DecodeCoefficient(b, 0, k) == Fail(TooLarge(k)) <==> exists z: nat :: RunsOver(b, z)
  {
    hide Value, Unary;
    if 8 <= |b| {
      var low := Value(b, 0, 8) % 128;
      UnaryFails(b, 8, low, k);
      assert forall z: nat :: RunsOver(b, z) <==> ZerosAt(b, 8, z) && low + 128 * z > MAX_COEFFICIENT;
    }
  }

  /** A coefficient is refused with an error exactly if the bits give reason for it. */
  lemma CoefficientFails(b: seq<Bit>, k: nat, e: Error)
    ensures DecodeCoefficient(b, 0, k) == Fail(e) <==> Reason(b, k, e)
  {
    hide DecodeCoefficient, CutShort, RunsOver, NegativeZeroBits;
    CoefficientErrors(b, k);
    NegativeZeroExactly(b, k);
    if DecodeCoefficient(b, 0, k) == Fail(UnexpectedEnd) {
      var x;
      if |b| < 8 { x := FewBitsAreCutShort(b); } else { x := EndIsCutShort(b, k); }
    }
    if x: int :| CutShort(b, x) {
      CutShortFails(b, k, x);
    }
  }

  // ----- all coefficients -----

  /** The bits start with the encoding of these coefficients, and what follows is reason for the error. */
  ghost predicate FailsAfter(b: seq<Bit>, n: nat, xs: seq<int>, e: Error) {
    && |xs| < n && (forall i :: 0 <= i < |xs| ==> Legal(xs[i]))
    && Encode(xs) <= b && Reason(b[|Encode(xs)|..], |xs|, e)
  }

  /** The same from coefficient u and bit p on. */
  ghost predicate FailsAfterFrom(b: seq<Bit>, p: nat, u: nat, n: nat, xs: seq<int>, e: Error)
    requires p <= |b|
  {
    && u + |xs| < n && (forall i :: 0 <= i < |xs| ==> Legal(xs[i]))
    && Encode(xs) <= b[p..] && Reason(b[p..][|Encode(xs)|..], u + |xs|, e)
  }

  lemma {:induction false} FailureHasReason(b: seq<Bit>, p: nat, u: nat, n: nat, e: Error) returns (xs: seq<int>)
    requires u <= n && p <= |b| && DecodeFrom(b, p, u, n) == Fail(e)
    ensures FailsAfterFrom(b, p, u, n, xs, e)
    decreases n - u
  {
    hide DecodeCoefficient, EncodeCoefficient, Legal, Reason;
    CoefficientShift(b, p, u, e);
    CoefficientFails(b[p..], u, e);
    if DecodeCoefficient(b, p, u).Fail? {
      xs := [];
      assert b[p..][0..] == b[p..];
    } else {
      CoefficientSound(b, p, u);
      var (x, mid) := DecodeCoefficient(b, p, u).value;
      var rest := FailureHasReason(b, mid, u + 1, n, e);
      xs := [x] + rest;
      assert xs[1..] == rest;
      JoinPrefix(b, p, mid, EncodeCoefficient(x), Encode(rest));
    }
  }

  lemma JoinPrefix(b: seq<Bit>, p: nat, mid: nat, first: seq<Bit>, rest: seq<Bit>)
    requires p <= mid <= |b| && b[p..mid] == first && rest <= b[mid..]
    ensures first + rest <= b[p..] && b[p..][|first + rest|..] == b[mid..][|rest|..]
  {
    assert b[p..] == b[p..mid] + b[mid..];
  }

  lemma {:induction false} ReasonFails(b: seq<Bit>, p: nat, u: nat, n: nat, xs: seq<int>, e: Error)
    requires p <= |b| && FailsAfterFrom(b, p, u, n, xs, e)
    ensures DecodeFrom(b, p, u, n) == Fail(e)
    decreases |xs|
  {
    hide DecodeCoefficient, EncodeCoefficient, Legal, Reason;
    if xs == [] {
      assert b[p..][0..] == b[p..];
      CoefficientShift(b, p, u, e);
      CoefficientFails(b[p..], u, e);
    } else {
      var first, rest := EncodeCoefficient(xs[0]), Encode(xs[1..]);
      assert Encode(xs) == first + rest;
      SplitPrefix(b, p, first, rest);
      CoefficientComplete(b, p, u, xs[0]);
      ReasonFails(b, p + |first|, u + 1, n, xs[1..], e);
    }
  }

  lemma SplitPrefix(b: seq<Bit>, p: nat, first: seq<Bit>, rest: seq<Bit>)
    requires p <= |b| && first + rest <= b[p..]
    ensures p + |first| <= |b| && b[p..p + |first|] == first && rest <= b[p + |first|..]
    ensures b[p + |first|..][|rest|..] == b[p..][|first + rest|..]
  {
    assert b[p..p + |first|] == (first + rest)[..|first|];
    assert b[p + |first|..][..|rest|] == (first + rest)[|first|..];
  }

  /**
   Main result: decoding fails with an error exactly if the input starts with the encoding of fewer
   than n legal coefficients and the bits after it are reason for the error: a legal coefficient
   that is cut short, one whose absolute value exceeds 2047, or a negative zero.
   */
  lemma FailsExactly(bytes: seq<Byte>, n: nat, e: Error)
    ensures DecodeFrom(Stream(bytes), 0, 0, n) == Fail(e)
       <==> exists xs: seq<int> :: FailsAfter(Stream(bytes), n, xs, e)
  {
    hide Stream, Encode, Legal, Reason, DecodeFrom;
    var b := Stream(bytes);
    assert b[0..] == b;
    if DecodeFrom(b, 0, 0, n) == Fail(e) {
      var xs := FailureHasReason(b, 0, 0, n, e);
      assert FailsAfter(b, n, xs, e);
    }
    if xs: seq<int> :| FailsAfter(b, n, xs, e) {
      ReasonFails(b, 0, 0, n, xs, e);
    }
  }
}
