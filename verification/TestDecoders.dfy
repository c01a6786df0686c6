/**
 The decoders the wallet test uses. They do not check: key coefficients may exceed q, the
 unary part of a signature coefficient may be of any length, and bytes past the end read as
 zero. They agree with the checking decoders on everything those accept.
 */
module TestDecoders {
  import opened Evm
  import opened ModArith
  import opened BitStream
  import opened FalconParameters
  import opened SignatureCodec
  import KeyCodec
  import DecodeFinal

  datatype Option<+T> = None | Some(value: T)

  // ----- what the unchecked signature decoder reads -----

  /** A sign bit and an absolute value, as read. */
  datatype Raw = Raw(negative: bool, m: nat)

  /** Counting zeros up to the next one; on zeros only, the loop never ends. */
  function LaxUnary(b: seq<Bit>, p: nat, m: nat): Option<(nat, nat)>
    decreases |b| - p
  {
    if p >= |b| then None
    else if b[p] == 1 then Some((m, p + 1))
    else LaxUnary(b, p + 1, m + 128)
  }

  function LaxCoefficient(b: seq<Bit>, p: nat): Option<(Raw, nat)> {
    var byte := Value(b, p, 8);
    match LaxUnary(b, p + 8, byte % 128)
    case None => None
    case Some((m, e)) => Some((Raw(byte >= 128, m), e))
  }

  function LaxFrom(b: seq<Bit>, p: nat, u: nat, n: nat): Option<(seq<Raw>, nat)>
    requires u <= n
    decreases n - u
  {
    if u == n then Some(([], p))
    else
      match LaxCoefficient(b, p)
      case None => None
      case Some((raw, e)) => PrependRaw([raw], LaxFrom(b, e, u + 1, n))
  }

  function PrependRaw(xs: seq<Raw>, r: Option<(seq<Raw>, nat)>): Option<(seq<Raw>, nat)> {
    match r
    case None => None
    case Some((ys, e)) => Some((xs + ys, e))
  }

  function SignedValue(raw: Raw): int {
    Signed(raw.negative, raw.m)
  }

  /** The value pushed for a coefficient: a negative one is moved up by q. */
  function Pushed(raw: Raw): int {
    if SignedValue(raw) < 0 then SignedValue(raw) + Q else SignedValue(raw)
  }

  function PushedAll(raws: seq<Raw>): (r: seq<int>)
    ensures |r| == |raws| && forall i :: 0 <= i < |raws| ==> r[i] == Pushed(raws[i])
  {
    seq(|raws|, i requires 0 <= i < |raws| => Pushed(raws[i]))
  }

  /** What the checking decoder accepts: a bounded absolute value and no negative zero. */
  predicate LegalRaw(raw: Raw) {
    raw.m <= MAX_COEFFICIENT && !(raw.negative && raw.m == 0)
  }

  // ----- the unchecked decoder inverts the unbounded encoding -----

  /** Any sign and absolute value, as they would be encoded. */
  function RawBits(raw: Raw): (b: seq<Bit>)
    ensures |b| == 9 + raw.m / 128
  {
    [if raw.negative then 1 else 0] + BitsOf(raw.m % 128, 7) + ZeroBits(raw.m / 128) + [1]
  }

  function RawEncode(raws: seq<Raw>): seq<Bit> {
    if raws == [] then [] else RawBits(raws[0]) + RawEncode(raws[1..])
  }

  lemma {:induction false} LaxUnaryExactly(b: seq<Bit>, p: nat, m: nat, m': nat, e: nat)
    ensures LaxUnary(b, p, m) == Some((m', e))
       <==> p < e <= |b| && m' == m + 128 * (e - p - 1) && b[p..e] == ZeroBits(e - p - 1) + [1]
    decreases |b| - p
  {
    if p < |b| && b[p] != 1 {
      LaxUnaryExactly(b, p + 1, m + 128, m', e);
      if p + 1 < e <= |b| {
        assert b[p..e] == [b[p]] + b[p + 1..e];
        assert ZeroBits(e - p - 1) == [0] + ZeroBits(e - p - 2);
      }
    } else if p < |b| && p < e <= |b| {
      assert b[p..e][0] == 1;
      if e == p + 1 { assert b[p..e] == ZeroBits(0) + [1]; }
    }
  }

  lemma LaxCoefficientExactly(b: seq<Bit>, p: nat, raw: Raw, e: nat)
    ensures LaxCoefficient(b, p) == Some((raw, e)) <==> e == p + |RawBits(raw)| <= |b| && b[p..e] == RawBits(raw)
  {
    hide Value, LaxUnary, BitsOf;
    var byte := Value(b, p, 8);
    var z, low := raw.m / 128, raw.m % 128;
    var first := (if raw.negative then 128 else 0) + low;
    ValueBound(b, p, 8);
    Pow2Eight();
    SignAndLowBits(first);
    assert RawBits(raw) == BitsOf(first, 8) + (ZeroBits(z) + [1]);
    LaxUnaryExactly(b, p + 8, byte % 128, raw.m, e);
    if p + 8 < e <= |b| {
      SliceIsBits(b, p, 8);
      SplitAt(b, p, p + 8, e, BitsOf(first, 8), ZeroBits(z) + [1]);
      if b[p..p + 8] == BitsOf(first, 8) { ValueOfSlice(b, p, first, 8); }
    }
  }

  lemma SplitAt(b: seq<Bit>, p: nat, mid: nat, e: nat, first: seq<Bit>, rest: seq<Bit>)
    requires p <= mid <= e <= |b| && |first| == mid - p
    ensures b[p..e] == first + rest <==> b[p..mid] == first && b[mid..e] == rest
  {
    assert b[p..e] == b[p..mid] + b[mid..e];
    if b[p..e] == first + rest {
      assert b[p..mid] == b[p..e][..mid - p];
      assert b[mid..e] == b[p..e][mid - p..];
    }
  }

  lemma {:induction false} LaxFromExactly(b: seq<Bit>, p: nat, u: nat, n: nat, raws: seq<Raw>, e: nat)
    requires u <= n && p <= |b|
    ensures LaxFrom(b, p, u, n) == Some((raws, e))
       <==> |raws| == n - u && e == p + |RawEncode(raws)| <= |b| && b[p..e] == RawEncode(raws)
    decreases n - u
  {
    if u < n {
      hide LaxCoefficient, RawBits;
      if LaxCoefficient(b, p).Some? {
        var (raw, mid) := LaxCoefficient(b, p).value;
        LaxCoefficientExactly(b, p, raw, mid);
        if LaxFrom(b, p, u, n) == Some((raws, e)) {
          LaxFromExactly(b, mid, u + 1, n, raws[1..], e);
          assert raws == [raw] + raws[1..];
          SplitAt(b, p, mid, e, RawBits(raw), RawEncode(raws[1..]));
        }
      }
      if |raws| == n - u && e == p + |RawEncode(raws)| <= |b| && b[p..e] == RawEncode(raws) {
        var mid := p + |RawBits(raws[0])|;
        SplitAt(b, p, mid, e, RawBits(raws[0]), RawEncode(raws[1..]));
        LaxCoefficientExactly(b, p, raws[0], mid);
        LaxFromExactly(b, mid, u + 1, n, raws[1..], e);
        assert [raws[0]] + raws[1..] == raws;
      }
    }
  }

  /** Main result: the unchecked decoder reads any signs and absolute values the bytes start with the encoding of. */
  lemma LaxDecodingInvertsEncoding(bytes: seq<Byte>, n: nat, raws: seq<Raw>, e: nat)
    ensures LaxFrom(Stream(bytes), 0, 0, n) == Some((raws, e))
       <==> |raws| == n && e == |RawEncode(raws)| <= |Stream(bytes)| && Stream(bytes)[..e] == RawEncode(raws)
  {
    hide Stream, LaxFrom, RawEncode;
    LaxFromExactly(Stream(bytes), 0, 0, n, raws, e);
  }

  // ----- agreement -----

  lemma {:induction false} LaxUnaryGrows(b: seq<Bit>, p: nat, m: nat)
    requires LaxUnary(b, p, m).Some?
    ensures LaxUnary(b, p, m).value.0 >= m && LaxUnary(b, p, m).value.1 > p
    decreases |b| - p
  {
    if b[p] != 1 { LaxUnaryGrows(b, p + 1, m + 128); }
  }

  lemma {:induction false} UnaryAgrees(b: seq<Bit>, p: nat, m: nat, u: nat)
    requires m <= MAX_COEFFICIENT
    ensures Unary(b, p, m, u).Ok? <==> LaxUnary(b, p, m).Some? && LaxUnary(b, p, m).value.0 <= MAX_COEFFICIENT
    ensures Unary(b, p, m, u).Ok? ==> Unary(b, p, m, u).value == LaxUnary(b, p, m).value
    decreases |b| - p
  {
    if p < |b| && b[p] != 1 {
      if m + 128 <= MAX_COEFFICIENT {
        UnaryAgrees(b, p + 1, m + 128, u);
      } else if LaxUnary(b, p, m).Some? {
        LaxUnaryGrows(b, p + 1, m + 128);
      }
    }
  }

  lemma CoefficientAgrees(b: seq<Bit>, p: nat, u: nat)
    ensures DecodeCoefficient(b, p, u).Ok? <==> LaxCoefficient(b, p).Some? && LegalRaw(LaxCoefficient(b, p).value.0)
    ensures DecodeCoefficient(b, p, u).Ok? ==>
              var (raw, e) := LaxCoefficient(b, p).value;
              DecodeCoefficient(b, p, u).value == (SignedValue(raw), e)
  {
    hide Value, Unary, LaxUnary;
    UnaryAgrees(b, p + 8, Value(b, p, 8) % 128, u);
    if p + 8 > |b| { NothingPastEnd(b, p + 8, Value(b, p, 8) % 128); }
  }

  lemma NothingPastEnd(b: seq<Bit>, p: nat, m: nat)
    requires p >= |b|
    ensures LaxUnary(b, p, m) == None
  {
  }

  /**
   Main result: the checking decoder accepts exactly when the unchecked one halts having read
   only legal coefficients; then both have read the same coefficients from the same bits.
   */
  lemma {:induction false} DecodersAgree(b: seq<Bit>, p: nat, u: nat, n: nat)
    requires u <= n
    ensures DecodeFrom(b, p, u, n).Ok?
       <==> && LaxFrom(b, p, u, n).Some?
            && forall i :: 0 <= i < |LaxFrom(b, p, u, n).value.0| ==> LegalRaw(LaxFrom(b, p, u, n).value.0[i])
    ensures DecodeFrom(b, p, u, n).Ok? ==>
              var (xs, e) := DecodeFrom(b, p, u, n).value;
              var (raws, e') := LaxFrom(b, p, u, n).value;
              e == e' && |xs| == |raws| && forall i :: 0 <= i < |xs| ==> xs[i] == SignedValue(raws[i])
    decreases n - u
  {
    if u < n {
      hide DecodeCoefficient, LaxCoefficient, LegalRaw, SignedValue;
      CoefficientAgrees(b, p, u);
      if LaxCoefficient(b, p).Some? {
        var (raw, e) := LaxCoefficient(b, p).value;
        DecodersAgree(b, e, u + 1, n);
        if LaxFrom(b, e, u + 1, n).Some? {
          LegalCons(raw, LaxFrom(b, e, u + 1, n).value.0);
        }
      }
    }
  }

  lemma LegalCons(raw: Raw, raws: seq<Raw>)
    ensures (forall i :: 0 <= i < |[raw] + raws| ==> LegalRaw(([raw] + raws)[i]))
       <==> LegalRaw(raw) && forall i :: 0 <= i < |raws| ==> LegalRaw(raws[i])
  {
    hide LegalRaw;
    var all := [raw] + raws;
    if forall i :: 0 <= i < |all| ==> LegalRaw(all[i]) {
      assert all[0] == raw;
      forall i | 0 <= i < |raws| ensures LegalRaw(raws[i]) { assert all[i + 1] == raws[i]; }
    }
  }

  /** On what the checking decoder accepts, the pushed values are its coefficients taken modulo q. */
  lemma PushedIsToModQ(b: seq<Bit>, n: nat)
    requires DecodeFrom(b, 0, 0, n).Ok?
    ensures LaxFrom(b, 0, 0, n).Some?
    ensures PushedAll(LaxFrom(b, 0, 0, n).value.0) == DecodeFinal.ToModQ(DecodeFrom(b, 0, 0, n).value.0)
  {
    hide DecodeFrom, LaxFrom;
    DecodersAgree(b, 0, 0, n);
  }

  lemma NegativeZeroFirst(b: seq<Bit>)
    requires |b| >= 9 && b[..9] == NegativeZeroBits()
    ensures LaxCoefficient(b, 0) == Some((Raw(true, 0), 9)) && DecodeCoefficient(b, 0, 0) == Fail(NegativeZero(0))
  {
    SignAndLowBits(128);
    assert Pow2(7) == 128;
    assert BitsOf(0, 7) == ZeroBits(7) by { ZeroBitsOf(7); }
    Pow2Eight();
    hide BitsOf, Pow2, Value;
    assert b[0..8] == b[..9][..8] == BitsOf(128, 8);
    ValueOfSlice(b, 0, 128, 8);
    assert b[8] == b[..9][8] == 1;
    assert LaxUnary(b, 8, 0) == Some((0, 9));
    assert Unary(b, 8, 0, 0) == Ok((0, 9));
  }

  /**
   The converse fails: for any coefficients after it there are signature bytes with a negative zero
   in front, which only the unchecked decoder lets through.
   */
  lemma NegativeZeroDisagrees(rest: seq<int>) returns (sigBytes: seq<Byte>)
    requires |rest| == N - 1 && forall i :: 0 <= i < |rest| ==> Legal(rest[i])
    ensures var b := Stream(DecodeFinal.Subarray(sigBytes, 43, |sigBytes|));
            && DecodeFrom(b, 0, 0, N) == Fail(NegativeZero(0))
            && LaxFrom(b, 0, 0, N).Some? && LaxFrom(b, 0, 0, N).value.0[..1] == [Raw(true, 0)]
  {
    hide Stream, Encode, NegativeZeroBits, Pack, DecodeCoefficient, LaxCoefficient, Legal;
    var bits := NegativeZeroBits() + Encode(rest);
    var padding := if |bits| % 8 == 0 then 0 else 8 - |bits| % 8;
    var b := bits + ZeroBits(padding);
    StreamOfPack(b);
    sigBytes := seq<Byte>(43, _ => 0) + Pack(b);
    assert DecodeFinal.Subarray(sigBytes, 43, |sigBytes|) == Pack(b);
    assert b[..9] == NegativeZeroBits();
    NegativeZeroFirst(b);
    assert b[9..9 + |Encode(rest)|] == Encode(rest);
    RestIsRead(b, rest);
  }

  lemma RestIsRead(b: seq<Bit>, rest: seq<int>)
    requires |rest| == N - 1 && forall i :: 0 <= i < |rest| ==> Legal(rest[i])
    requires 9 + |Encode(rest)| <= |b| && b[9..9 + |Encode(rest)|] == Encode(rest)
    requires LaxCoefficient(b, 0) == Some((Raw(true, 0), 9)) && DecodeCoefficient(b, 0, 0) == Fail(NegativeZero(0))
    ensures DecodeFrom(b, 0, 0, N) == Fail(NegativeZero(0))
    ensures LaxFrom(b, 0, 0, N).Some? && LaxFrom(b, 0, 0, N).value.0[..1] == [Raw(true, 0)]
  {
    hide Encode, DecodeCoefficient, LaxCoefficient, Legal;
    DecodeComplete(b, 9, 1, N, rest);
    DecodersAgree(b, 9, 1, N);
  }

  // ----- the bit reader -----

  class BitReader {
    const signMsg: seq<Byte>
    var acc: int
    var accLen: nat
    var bufIdx: nat
    ghost var position: nat

    /** The bytes after length, nonce and header. */
    ghost function Data(): seq<Byte> {
      DecodeFinal.Subarray(signMsg, 43, |signMsg|)
    }

    ghost predicate Valid()
      reads this
    {
      accLen < 8 && bufIdx >= 43 && Reading(Data(), acc, accLen, bufIdx - 43, position)
    }

    constructor (signMsg: seq<Byte>)
      ensures Valid() && this.signMsg == signMsg && position == 0
    {
      this.signMsg := signMsg;
      acc, accLen, bufIdx, position := 0, 0, 43, 0;
      new;
      ReadingStart(Data(), 0, 0);
    }

    lemma NextByte()
      requires bufIdx >= 43
      ensures ByteOrZero(signMsg, bufIdx) == ByteOrZero(Data(), bufIdx - 43)
    {
    }

    method ReadBits(bits: nat) returns (r: nat)
      requires Valid() && bits <= 8
      modifies this
      ensures Valid() && position == old(position) + bits && r == Value(Stream(Data()), old(position), bits)
    {
      hide Stream, Value, Holds, Field, PushByte;
      while accLen < bits
        invariant accLen < 16 && bufIdx >= 43 && position == old(position)
        invariant Reading(Data(), acc, accLen, bufIdx - 43, position) && accLen < bits + 8
        decreases 16 - accLen
      {
        NextByte();
        ReadingPush(Data(), acc, accLen, bufIdx - 43, position);
        acc := PushByte(acc, ByteOrZero(signMsg, bufIdx));
        bufIdx := bufIdx + 1;
        accLen := accLen + 8;
      }
      accLen := accLen - bits;
      ReadingTake(Data(), acc, accLen, bufIdx - 43, position, bits);
      r := Field(acc, accLen, bits);
      position := position + bits;
    }

    method ReadBit() returns (r: nat)
      requires Valid()
      modifies this
      ensures Valid() && position == old(position) + 1 && r == At(Stream(Data()), old(position))
    {
      hide Stream, Value, Holds, Field, PushByte;
      if accLen == 0 {
        NextByte();
        ReadingPush(Data(), acc, accLen, bufIdx - 43, position);
        acc := PushByte(acc, ByteOrZero(signMsg, bufIdx));
        bufIdx := bufIdx + 1;
        accLen := 8;
      }
      accLen := accLen - 1;
      ReadingTake(Data(), acc, accLen, bufIdx - 43, position, 1);
      DecodeFinal.OneBit(Stream(Data()), position);
      r := Field(acc, accLen, 1);
      position := position + 1;
    }
  }

  // ----- the decoders as written -----

  /** Every coefficient fits in its field. */
  predicate AllFit(cs: seq<nat>) {
    forall u :: 0 <= u < |cs| ==> cs[u] < Pow2(KeyCodec.WIDTH)
  }

  lemma KeyIsRead(key: seq<Byte>)
    ensures forall cs: seq<nat> :: KeyCodec.IsKeyOf(key, cs) && |cs| == N && AllFit(cs) ==>
                                     KeyCodec.Coefficients(KeyCodec.Body(key), N) == cs
  {
    hide KeyCodec.IsKeyOf, KeyCodec.Coefficients, KeyCodec.Body;
    forall cs: seq<nat> | KeyCodec.IsKeyOf(key, cs) && |cs| == N && AllFit(cs)
      ensures KeyCodec.Coefficients(KeyCodec.Body(key), N) == cs
    {
      KeyCodec.DecodeOfKey(key, cs);
    }
  }

  method DecodePk(inData: seq<Byte>) returns (x: seq<nat>)
    ensures x == KeyCodec.Coefficients(KeyCodec.Body(inData), N)
    ensures forall cs: seq<nat> :: KeyCodec.IsKeyOf(inData, cs) && |cs| == N && AllFit(cs) ==> x == cs
  {
    hide KeyCodec.IsKeyOf, AllFit, Stream, Value, Holds, Field, PushByte;
    KeyIsRead(inData);
    ghost var body := KeyCodec.Body(inData);
    x := [];
    var acc: int, accLen: nat, bufIdx: nat := 0, 0, 1;
    ReadingStart(body, 0, 0);
    for u := 0 to N
      invariant |x| == u && bufIdx >= 1 && accLen < 14 && Reading(body, acc, accLen, bufIdx - 1, 14 * u)
      invariant forall j :: 0 <= j < u ==> x[j] == KeyCodec.Coefficient(body, j)
    {
      while accLen < 14
        invariant accLen < 22 && bufIdx >= 1 && Reading(body, acc, accLen, bufIdx - 1, 14 * u)
        decreases 22 - accLen
      {
        ReadingPush(body, acc, accLen, bufIdx - 1, 14 * u);
        acc := PushByte(acc, ByteOrZero(inData, bufIdx));
        bufIdx := bufIdx + 1;
        accLen := accLen + 8;
      }
      accLen := accLen - 14;
      ReadingTake(body, acc, accLen, bufIdx - 1, 14 * u, 14);
      var w := Field(acc, accLen, 14);
      x := x + [w];
    }
  }

  /**
   Main result: on all bytes, the checking key decoder accepts exactly when the unchecked one finds
   every coefficient below q; then both return the same key, and otherwise the error names the first
   coefficient the unchecked one lets through.
   */
  method KeyDecodersAgree(keyBytes: seq<Byte>) returns (strict: Result<seq<nat>>, lax: seq<nat>)
    ensures |lax| == N
    ensures strict.Ok? <==> forall u :: 0 <= u < N ==> lax[u] < Q
    ensures match strict
            case Ok(key) => key == lax
            case Fail(KeyOutOfRange(u, w)) => u < N && w == lax[u] >= Q && forall j :: 0 <= j < u ==> lax[j] < Q
            case _ => false
  {
    strict := DecodeFinal.DecodeFalconPk(keyBytes, N);
    lax := DecodePk(keyBytes);
  }

  /** Every coefficient takes at least nine bits. */
  lemma {:induction false} LaxTakesNine(b: seq<Bit>, p: nat, u: nat, n: nat)
    requires u <= n && LaxFrom(b, p, u, n).Some?
    ensures LaxFrom(b, p, u, n).value.1 >= p + 9 * (n - u)
    decreases n - u
  {
    if u < n {
      hide Value;
      var byte := Value(b, p, 8);
      LaxUnaryGrows(b, p + 8, byte % 128);
      LaxTakesNine(b, LaxCoefficient(b, p).value.1, u + 1, n);
    }
  }

  /** The unary loop for one coefficient; budget bounds the calls of readBit still allowed. */
  method ReadUnary(reader: BitReader, low: nat, budget: nat) returns (m: Option<nat>, left: nat)
    requires reader.Valid()
    modifies reader
    ensures var b, p := Stream(reader.Data()), old(reader.position);
            if m.Some?
            then reader.Valid() && LaxUnary(b, p, low) == Some((m.value, reader.position))
                 && left + reader.position == budget + p
            else LaxUnary(b, p, low).Some? ==> LaxUnary(b, p, low).value.1 > p + budget
  {
    hide Stream, Reading;
    ghost var b := Stream(reader.Data());
    var n := low;
    left := budget;
    while true
      invariant reader.Valid() && LaxUnary(b, old(reader.position), low) == LaxUnary(b, reader.position, n)
      invariant left + reader.position == budget + old(reader.position)
      decreases left
    {
      if left == 0 {
        if LaxUnary(b, reader.position, n).Some? { LaxUnaryGrows(b, reader.position, n); }
        return None, 0;
      }
      ghost var p := reader.position;
      if p >= |b| { NothingPastEnd(b, p, n); NothingPastEnd(b, p + 1, n + 128); }
      var bit := reader.ReadBit();
      left := left - 1;
      if bit != 0 {
        return Some(n), left;
      }
      n := n + 128;
    }
  }

  datatype Decompressed = Decompressed(s2: seq<int>, salt: seq<Byte>)

  /**
   The unchecked decoder, allowed budget calls of readBit. It returns a value exactly when the
   bits hold N coefficients whose unary parts take at most budget bits; without enough ones the
   decompressS2 of the wallet test reads zeros forever.
   */
  method DecompressS2(signMsg: seq<Byte>, budget: nat) returns (r: Option<Decompressed>)
    ensures var lax := LaxFrom(Stream(DecodeFinal.Subarray(signMsg, 43, |signMsg|)), 0, 0, N);
            if lax.Some? && lax.value.1 <= 8 * N + budget
            then r == Some(Decompressed(PushedAll(lax.value.0), DecodeFinal.Subarray(signMsg, 2, 42)))
            else r == None
  {
    hide Stream, Value, Reading, LaxUnary, LaxFrom, PushedAll;
    PushedNothing();
    var salt := DecodeFinal.Subarray(signMsg, 2, 42);
    var reader := new BitReader(signMsg);
    ghost var b := Stream(reader.Data());
    ghost var raws: seq<Raw> := [];
    var s2: seq<int> := [];
    var left: nat := budget;
    PrependNoRaw(LaxFrom(b, 0, 0, N));
    for u := 0 to N
      invariant reader.Valid() && |raws| == u == |s2|
      invariant LaxFrom(b, 0, 0, N) == PrependRaw(raws, LaxFrom(b, reader.position, u, N))
      invariant s2 == PushedAll(raws)
      invariant left + reader.position == budget + 8 * u
    {
      ghost var p := reader.position;
      var byte := reader.ReadBits(8);
      var s, low := byte / 128, byte % 128;
      var m;
      ghost var before := left;
      m, left := ReadUnary(reader, low, left);
      if m.None? {
        if LaxFrom(b, p, u, N).Some? {
          OverBudget(b, p, u, N, low, before);
        }
        return None;
      }
      var valBig: int := if s != 0 then -(m.value as int) else m.value;
      if valBig < 0 {
        valBig := valBig + Q;
      }
      ReadNext(b, p, u, N, raws, byte, m.value, reader.position);
      raws := raws + [Raw(s != 0, m.value)];
      s2 := s2 + [valBig];
    }
    AllRead(b, reader.position, N, raws);
    r := Some(Decompressed(s2, salt));
  }

  /** Whatever halts does so inside the stream: the last bit read is a one. */
  lemma {:induction false} HaltsInStream(b: seq<Bit>, p: nat, u: nat, n: nat)
    requires u < n && LaxFrom(b, p, u, n).Some?
    ensures LaxFrom(b, p, u, n).value.1 <= |b|
    decreases n - u
  {
    hide Value;
    UnaryHaltsInStream(b, p + 8, Value(b, p, 8) % 128);
    if u + 1 < n { HaltsInStream(b, LaxCoefficient(b, p).value.1, u + 1, n); }
  }

  lemma {:induction false} UnaryHaltsInStream(b: seq<Bit>, p: nat, m: nat)
    requires LaxUnary(b, p, m).Some?
    ensures LaxUnary(b, p, m).value.1 <= |b|
    decreases |b| - p
  {
    if b[p] != 1 { UnaryHaltsInStream(b, p + 1, m + 128); }
  }

  /**
   Main result: on all bytes, with a read for every bit, whenever the checking signature decoder
   accepts, the unchecked one returns the same residues and nonce; and the checking one accepts
   exactly when the unchecked one halts and has met no coefficient above 2047 and no negative zero.
   */
  method SignatureDecodersAgree(sigBytes: seq<Byte>, budget: nat)
    returns (strict: Result<DecodeFinal.Decoded>, lax: Option<Decompressed>)
    requires budget >= 8 * |sigBytes|
    ensures strict.Ok? ==> lax == Some(Decompressed(strict.value.s2, strict.value.nonce))
    ensures var raws := LaxFrom(Stream(DecodeFinal.Subarray(sigBytes, 43, |sigBytes|)), 0, 0, N);
            && (lax.Some? <==> raws.Some?)
            && (strict.Ok? <==> lax.Some? && forall i :: 0 <= i < |raws.value.0| ==> LegalRaw(raws.value.0[i]))
  {
    hide Stream, LaxFrom, DecodeFrom, LegalRaw, PushedAll;
    strict := DecodeFinal.DecodeFalconSignature(sigBytes, N);
    lax := DecompressS2(sigBytes, budget);
    ghost var b := Stream(DecodeFinal.Subarray(sigBytes, 43, |sigBytes|));
    if LaxFrom(b, 0, 0, N).Some? { HaltsInStream(b, 0, 0, N); }
    DecodersAgree(b, 0, 0, N);
    if strict.Ok? { PushedIsToModQ(b, N); }
  }

  /** If the unary part of coefficient u alone exceeds what is left, the whole exceeds the budget. */
  lemma OverBudget(b: seq<Bit>, p: nat, u: nat, n: nat, low: nat, left: nat)
    requires u < n && low == Value(b, p, 8) % 128
    requires LaxUnary(b, p + 8, low).Some? ==> LaxUnary(b, p + 8, low).value.1 > p + 8 + left
    requires LaxFrom(b, p, u, n).Some?
    ensures LaxFrom(b, p, u, n).value.1 > p + 8 * (n - u) + left
  {
    hide LaxUnary, Value;
    LaxTakesNine(b, LaxCoefficient(b, p).value.1, u + 1, n);
  }

  /** One more coefficient read: what is left to read, and what is pushed. */
  lemma ReadNext(b: seq<Bit>, p: nat, u: nat, n: nat, raws: seq<Raw>, byte: nat, m: nat, e: nat)
    requires u < n && byte == Value(b, p, 8) && LaxUnary(b, p + 8, byte % 128) == Some((m, e))
    ensures byte < 256
    ensures var raw := Raw(byte / 128 != 0, m);
            && PrependRaw(raws, LaxFrom(b, p, u, n)) == PrependRaw(raws + [raw], LaxFrom(b, e, u + 1, n))
            && PushedAll(raws + [raw]) == PushedAll(raws) + [Pushed(raw)]
  {
    ValueBound(b, p, 8);
    Pow2Eight();
    hide LaxFrom, PrependRaw, Value, LaxUnary, PushedAll;
    LaxNext(b, p, u, n, raws, Raw(byte / 128 != 0, m), e);
    PushedAppend(raws, Raw(byte / 128 != 0, m));
  }

  lemma AllRead(b: seq<Bit>, p: nat, n: nat, raws: seq<Raw>)
    ensures PrependRaw(raws, LaxFrom(b, p, n, n)) == Some((raws, p))
  {
    assert raws + [] == raws;
  }

  lemma PushedNothing()
    ensures PushedAll([]) == []
  {
  }

  lemma PushedAppend(raws: seq<Raw>, raw: Raw)
    ensures PushedAll(raws + [raw]) == PushedAll(raws) + [Pushed(raw)]
  {
  }

  lemma PrependNoRaw(r: Option<(seq<Raw>, nat)>)
    ensures PrependRaw([], r) == r
  {
    if r.Some? { assert [] + r.value.0 == r.value.0; }
  }

  lemma LaxNext(b: seq<Bit>, p: nat, u: nat, n: nat, xs: seq<Raw>, x: Raw, e: nat)
    requires u < n && LaxCoefficient(b, p) == Some((x, e))
    ensures PrependRaw(xs, LaxFrom(b, p, u, n)) == PrependRaw(xs + [x], LaxFrom(b, e, u + 1, n))
  {
    var rest := LaxFrom(b, e, u + 1, n);
    if rest.Some? { assert xs + ([x] + rest.value.0) == (xs + [x]) + rest.value.0; }
  }
}
