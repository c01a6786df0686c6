/**
 The compressed encoding of signatures: for each coefficient a sign bit, the seven low bits
 of its absolute value, and the rest in unary; and the decoder that reads it.
 */
module SignatureCodec {
  import opened Evm
  import opened ModArith
  import opened BitStream

  const MAX_COEFFICIENT: nat := 2047

  datatype Error = UnexpectedEnd | TooLarge(index: nat) | NegativeZero(index: nat) | KeyOutOfRange(index: nat, w: nat)

  datatype Result<+T> = Ok(value: T) | Fail(error: Error)

  // ----- the encoding -----

  function Abs(x: int): nat {
    if x < 0 then -x else x
  }

  predicate Legal(x: int) {
    Abs(x) <= MAX_COEFFICIENT
  }

  function ZeroBits(z: nat): (b: seq<Bit>)
    ensures |b| == z && forall i :: 0 <= i < z ==> b[i] == 0
  {
    seq<Bit>(z, _ => 0)
  }

  lemma {:induction false} ZeroBitsOf(k: nat)
    ensures BitsOf(0, k) == ZeroBits(k)
  {
    if k > 0 { ZeroBitsOf(k - 1); }
  }

  /** The nine bits of a negative zero. */
  function NegativeZeroBits(): (b: seq<Bit>)
    ensures |b| == 9
  {
    [1] + ZeroBits(7) + [1]
  }

  function EncodeCoefficient(x: int): (b: seq<Bit>)
    ensures |b| == 9 + Abs(x) / 128
  {
    [if x < 0 then 1 else 0] + BitsOf(Abs(x) % 128, 7) + ZeroBits(Abs(x) / 128) + [1]
  }

  function Encode(xs: seq<int>): seq<Bit> {
    if xs == [] then [] else EncodeCoefficient(xs[0]) + Encode(xs[1..])
  }

  // ----- the decoder, at the level of bits -----

  /** Counting zeros up to the next one, starting from the absolute value m. */
  function Unary(b: seq<Bit>, p: nat, m: nat, u: nat): Result<(nat, nat)>
    decreases |b| - p
  {
    if p >= |b| then Fail(UnexpectedEnd)
    else if b[p] == 1 then Ok((m, p + 1))
    else if m + 128 > MAX_COEFFICIENT then Fail(TooLarge(u))
    else Unary(b, p + 1, m + 128, u)
  }

  function Signed(negative: bool, m: int): int {
    if negative then -m else m
  }

  /** Coefficient u, read at bit p, and where it ends. */
  function DecodeCoefficient(b: seq<Bit>, p: nat, u: nat): Result<(int, nat)> {
    if p + 8 > |b| then Fail(UnexpectedEnd)
    else
      var byte := Value(b, p, 8);
      match Unary(b, p + 8, byte % 128, u)
      case Fail(e) => Fail(e)
      case Ok((m, e)) =>
        if byte >= 128 && m == 0 then Fail(NegativeZero(u)) else Ok((Signed(byte >= 128, m), e))
  }

  /** Coefficients u, ..., n - 1 from bit p on. */
  function DecodeFrom(b: seq<Bit>, p: nat, u: nat, n: nat): Result<(seq<int>, nat)>
    requires u <= n
    decreases n - u
  {
    if u == n then Ok(([], p))
    else
      match DecodeCoefficient(b, p, u)
      case Fail(e) => Fail(e)
      case Ok((x, e)) => Prepend([x], DecodeFrom(b, e, u + 1, n))
  }

  function Prepend(xs: seq<int>, r: Result<(seq<int>, nat)>): Result<(seq<int>, nat)> {
    match r
    case Fail(e) => Fail(e)
    case Ok((ys, e)) => Ok((xs + ys, e))
  }

  // ----- one coefficient: decoding inverts encoding, and the other way round -----

  lemma {:induction false} UnarySound(b: seq<Bit>, p: nat, m: nat, u: nat)
    requires m <= MAX_COEFFICIENT && Unary(b, p, m, u).Ok?
    ensures var (m', e) := Unary(b, p, m, u).value;
            p < e <= |b| && m' == m + 128 * (e - p - 1) <= MAX_COEFFICIENT && b[p..e] == ZeroBits(e - p - 1) + [1]
    decreases |b| - p
  {
    var (m', e) := Unary(b, p, m, u).value;
    if b[p] != 1 {
      UnarySound(b, p + 1, m + 128, u);
      assert b[p..e] == [b[p]] + b[p + 1..e];
      assert ZeroBits(e - p - 1) == [0] + ZeroBits(e - p - 2);
    }
  }

  lemma {:induction false} UnaryComplete(b: seq<Bit>, p: nat, m: nat, u: nat, z: nat)
    requires p + z + 1 <= |b| && b[p..p + z + 1] == ZeroBits(z) + [1] && m + 128 * z <= MAX_COEFFICIENT
    ensures Unary(b, p, m, u) == Ok((m + 128 * z, p + z + 1))
    decreases z
  {
    assert b[p] == b[p..p + z + 1][0];
    if z > 0 {
      assert b[p + 1..p + 1 + (z - 1) + 1] == b[p..p + z + 1][1..];
      assert (ZeroBits(z) + [1])[1..] == ZeroBits(z - 1) + [1];
      UnaryComplete(b, p + 1, m + 128, u, z - 1);
    }
  }

  /** The first eight bits: the sign and the low part of the absolute value. */
  lemma SignAndLowBits(byte: nat)
    requires byte < 256
    ensures BitsOf(byte, 8) == [if byte >= 128 then 1 else 0] + BitsOf(byte % 128, 7)
  {
    var sign := if byte >= 128 then 1 else 0;
    assert Pow2(7) == 128;
    OneBitOf(sign);
    hide BitsOf, Pow2;
    BitsConcat(sign, 1, byte % 128, 7);
    assert sign * 128 + byte % 128 == byte;
  }

  lemma OneBitOf(bit: Bit)
    ensures BitsOf(bit, 1) == [bit]
  {
    assert BitsOf(bit / 2, 0) == [];
  }

  lemma CoefficientSound(b: seq<Bit>, p: nat, u: nat)
    requires DecodeCoefficient(b, p, u).Ok?
    ensures var (x, e) := DecodeCoefficient(b, p, u).value;
            p < e <= |b| && Legal(x) && b[p..e] == EncodeCoefficient(x)
  {
    hide Value, Unary, BitsOf;
    var byte := Value(b, p, 8);
    var (x, e) := DecodeCoefficient(b, p, u).value;
    ValueBound(b, p, 8);
    Pow2Eight();
    UnarySound(b, p + 8, byte % 128, u);
    SliceIsBits(b, p, 8);
    SignAndLowBits(byte);
    var z := e - (p + 8) - 1;
    assert Abs(x) == byte % 128 + 128 * z;
    assert Abs(x) % 128 == byte % 128 && Abs(x) / 128 == z;
    assert b[p..e] == b[p..p + 8] + b[p + 8..e];
  }

  lemma CoefficientComplete(b: seq<Bit>, p: nat, u: nat, x: int)
    requires Legal(x)
    requires p + |EncodeCoefficient(x)| <= |b| && b[p..p + |EncodeCoefficient(x)|] == EncodeCoefficient(x)
    ensures DecodeCoefficient(b, p, u) == Ok((x, p + |EncodeCoefficient(x)|))
  {
    hide Value, Unary, BitsOf;
    var z, low := Abs(x) / 128, Abs(x) % 128;
    var byte := (if x < 0 then 128 else 0) + low;
    var e := p + |EncodeCoefficient(x)|;
    SignAndLowBits(byte);
    assert EncodeCoefficient(x) == BitsOf(byte, 8) + (ZeroBits(z) + [1]);
    assert b[p..p + 8] == b[p..e][..8];
    assert b[p + 8..e] == b[p..e][8..];
    Pow2Eight();
    ValueOfSlice(b, p, byte, 8);
    UnaryComplete(b, p + 8, low, u, z);
  }

  // ----- all coefficients -----

  lemma {:induction false} DecodeSound(b: seq<Bit>, p: nat, u: nat, n: nat)
    requires u <= n && p <= |b| && DecodeFrom(b, p, u, n).Ok?
    ensures var (xs, e) := DecodeFrom(b, p, u, n).value;
            && |xs| == n - u && p <= e <= |b|
            && (forall i :: 0 <= i < |xs| ==> Legal(xs[i]))
            && b[p..e] == Encode(xs)
    decreases n - u
  {
    if u < n {
      hide DecodeCoefficient, EncodeCoefficient, Legal;
      CoefficientSound(b, p, u);
      var (x, mid) := DecodeCoefficient(b, p, u).value;
      DecodeSound(b, mid, u + 1, n);
      var (ys, e) := DecodeFrom(b, mid, u + 1, n).value;
      assert ([x] + ys)[1..] == ys;
      assert b[p..e] == b[p..mid] + b[mid..e];
    }
  }

  /** A slice that is two strings in a row. */
  lemma SplitSlice(b: seq<Bit>, p: nat, first: seq<Bit>, rest: seq<Bit>)
    requires p + |first + rest| <= |b| && b[p..p + |first + rest|] == first + rest
    ensures b[p..p + |first|] == first && b[p + |first|..p + |first| + |rest|] == rest
  {
    var both := b[p..p + |first + rest|];
    assert b[p..p + |first|] == both[..|first|];
    assert b[p + |first|..p + |first| + |rest|] == both[|first|..];
  }

  lemma DecodeFirst(b: seq<Bit>, p: nat, mid: nat, u: nat, n: nat, x: int, xs: seq<int>, e: nat)
    requires u < n && DecodeCoefficient(b, p, u) == Ok((x, mid)) && DecodeFrom(b, mid, u + 1, n) == Ok((xs, e))
    ensures DecodeFrom(b, p, u, n) == Ok(([x] + xs, e))
  {
  }

  lemma {:induction false} DecodeComplete(b: seq<Bit>, p: nat, u: nat, n: nat, xs: seq<int>)
    requires u <= n && |xs| == n - u && forall i :: 0 <= i < |xs| ==> Legal(xs[i])
    requires p + |Encode(xs)| <= |b| && b[p..p + |Encode(xs)|] == Encode(xs)
    ensures DecodeFrom(b, p, u, n) == Ok((xs, p + |Encode(xs)|))
    decreases n - u
  {
    if u < n {
      var first, rest := EncodeCoefficient(xs[0]), Encode(xs[1..]);
      assert Encode(xs) == first + rest;
      hide DecodeCoefficient, DecodeFrom, Encode, EncodeCoefficient, Legal;
      SplitSlice(b, p, first, rest);
      CoefficientComplete(b, p, u, xs[0]);
      DecodeComplete(b, p + |first|, u + 1, n, xs[1..]);
      DecodeFirst(b, p, p + |first|, u, n, xs[0], xs[1..], p + |first| + |rest|);
      assert [xs[0]] + xs[1..] == xs;
    }
  }

  /**
   Main result: decoding accepts exactly the byte strings whose bits start with the encoding of
   n coefficients of absolute value at most 2047, and returns those coefficients.
   */
  lemma DecodingInvertsEncoding(bytes: seq<Byte>, n: nat, xs: seq<int>, e: nat)
    ensures DecodeFrom(Stream(bytes), 0, 0, n) == Ok((xs, e))
       <==> && |xs| == n && (forall i :: 0 <= i < n ==> Legal(xs[i]))
            && e == |Encode(xs)| <= |Stream(bytes)| && Stream(bytes)[..e] == Encode(xs)
  {
    hide Stream, DecodeFrom, Encode, Legal;
    var b := Stream(bytes);
    if DecodeFrom(b, 0, 0, n) == Ok((xs, e)) {
      DecodeSound(b, 0, 0, n);
      assert b[0..e] == b[..e];
    }
    if |xs| == n && (forall i :: 0 <= i < n ==> Legal(xs[i])) && e == |Encode(xs)| <= |b| && b[..e] == Encode(xs) {
      assert b[0..0 + e] == b[..e];
      DecodeComplete(b, 0, 0, n, xs);
    }
  }

  /** The encoding padded with zero bits to whole bytes. */
  function EncodeBytes(xs: seq<int>): seq<Byte> {
    var b := Encode(xs);
    var padding := if |b| % 8 == 0 then 0 else 8 - |b| % 8;
    Pack(b + ZeroBits(padding))
  }

  /** Round trip through bytes, whatever follows the encoding. */
  lemma RoundTrip(xs: seq<int>, suffix: seq<Byte>)
    requires forall i :: 0 <= i < |xs| ==> Legal(xs[i])
    ensures DecodeFrom(Stream(EncodeBytes(xs) + suffix), 0, 0, |xs|) == Ok((xs, |Encode(xs)|))
  {
    hide Stream, DecodeFrom, Encode, Legal, Pack;
    var b, bytes := Encode(xs), EncodeBytes(xs);
    var padding := if |b| % 8 == 0 then 0 else 8 - |b| % 8;
    StreamOfPack(b + ZeroBits(padding));
    StreamPrefix(bytes + suffix, |bytes|);
    assert (bytes + suffix)[..|bytes|] == bytes;
    assert Stream(bytes + suffix)[..|b|] == Stream(bytes + suffix)[..8 * |bytes|][..|b|];
    DecodingInvertsEncoding(bytes + suffix, |xs|, xs, |b|);
  }
}
