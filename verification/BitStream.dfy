/** Byte strings as streams of bits, most significant bit first, and the accumulators that read them. */
module BitStream {
  import opened Evm
  import opened ModArith

  type Bit = b: int | 0 <= b < 2

  /** The k low bits of v, most significant first. */
  function BitsOf(v: nat, k: nat): (b: seq<Bit>)
    ensures |b| == k
  {
    if k == 0 then [] else BitsOf(v / 2, k - 1) + [v % 2]
  }

  /** The number a bit string stands for. */
  function Number(b: seq<Bit>): nat {
    if b == [] then 0 else 2 * Number(b[..|b| - 1]) + b[|b| - 1]
  }

  /** The bits of a byte string. */
  function Stream(bytes: seq<Byte>): (b: seq<Bit>)
    ensures |b| == 8 * |bytes|
  {
    if bytes == [] then [] else Stream(bytes[..|bytes| - 1]) + BitsOf(bytes[|bytes| - 1], 8)
  }

  /** A bit of the stream; past its end there are only zeros. */
  function At(b: seq<Bit>, i: nat): Bit {
    if i < |b| then b[i] else 0
  }

  /** The number read from k bits at position p. */
  function Value(b: seq<Bit>, p: nat, k: nat): nat {
    if k == 0 then 0 else 2 * Value(b, p, k - 1) + At(b, p + k - 1)
  }

  lemma {:induction false} ValueBound(b: seq<Bit>, p: nat, k: nat)
    ensures Value(b, p, k) < Pow2(k)
  {
    if k > 0 { ValueBound(b, p, k - 1); }
  }

  lemma {:induction false} ValueSplit(b: seq<Bit>, p: nat, j: nat, k: nat)
    ensures Value(b, p, j + k) == Value(b, p, j) * Pow2(k) + Value(b, p + j, k)
  {
    if k > 0 {
      ValueSplit(b, p, j, k - 1);
      DoubleFactor(Value(b, p, j), Pow2(k - 1));
    }
  }

  lemma DoubleFactor(x: nat, p: nat)
    ensures x * (2 * p) == 2 * (x * p)
  {
  }

  lemma {:induction false} NumberOfBits(v: nat, k: nat)
    requires v < Pow2(k)
    ensures Number(BitsOf(v, k)) == v
  {
    if k > 0 {
      NumberOfBits(v / 2, k - 1);
      assert BitsOf(v, k)[..k - 1] == BitsOf(v / 2, k - 1);
    }
  }

  lemma {:induction false} NumberBound(b: seq<Bit>)
    ensures Number(b) < Pow2(|b|)
  {
    if b != [] { NumberBound(b[..|b| - 1]); }
  }

  lemma {:induction false} BitsOfNumber(b: seq<Bit>)
    ensures BitsOf(Number(b), |b|) == b
  {
    if b != [] { BitsOfNumber(b[..|b| - 1]); }
  }

  lemma {:induction false} ValueIsNumber(b: seq<Bit>, p: nat, k: nat)
    requires p + k <= |b|
    ensures Value(b, p, k) == Number(b[p..p + k])
  {
    if k > 0 {
      ValueIsNumber(b, p, k - 1);
      assert b[p..p + k][..k - 1] == b[p..p + k - 1];
    }
  }

  lemma {:induction false} ValuePastEnd(b: seq<Bit>, p: nat, k: nat)
    requires |b| <= p
    ensures Value(b, p, k) == 0
  {
    if k > 0 { ValuePastEnd(b, p, k - 1); }
  }

  // ----- bytes in the stream -----

  /** Byte v of a byte string; past its end a read gives undefined, which the bit operations take as zero. */
  function ByteOrZero(bytes: seq<Byte>, v: nat): Byte {
    if v < |bytes| then bytes[v] else 0
  }

  lemma {:induction false} StreamPrefix(bytes: seq<Byte>, v: nat)
    requires v <= |bytes|
    ensures Stream(bytes)[..8 * v] == Stream(bytes[..v])
  {
    if v < |bytes| {
      StreamPrefix(bytes[..|bytes| - 1], v);
      assert bytes[..|bytes| - 1][..v] == bytes[..v];
    } else {
      assert bytes[..v] == bytes;
    }
  }

  lemma {:induction false} ByteInStream(bytes: seq<Byte>, v: nat)
    requires v < |bytes|
    ensures Stream(bytes)[8 * v..8 * v + 8] == BitsOf(bytes[v], 8)
  {
    StreamPrefix(bytes, v + 1);
    assert bytes[..v + 1][..v] == bytes[..v];
    var s := Stream(bytes[..v + 1]);
    assert s == Stream(bytes[..v]) + BitsOf(bytes[v], 8);
    assert Stream(bytes)[8 * v..8 * v + 8] == s[8 * v..];
  }

  /** Eight bits at a byte boundary are that byte. */
  lemma ByteValue(bytes: seq<Byte>, v: nat)
    ensures Value(Stream(bytes), 8 * v, 8) == ByteOrZero(bytes, v)
  {
    hide Value, Stream, BitsOf, Number;
    if v < |bytes| {
      ByteInStream(bytes, v);
      ValueIsNumber(Stream(bytes), 8 * v, 8);
      Pow2Eight();
      NumberOfBits(bytes[v], 8);
    } else {
      ValuePastEnd(Stream(bytes), 8 * v, 8);
    }
  }

  /** The bytes of a bit string whose length is a multiple of eight. */
  function Pack(b: seq<Bit>): (bytes: seq<Byte>)
    requires |b| % 8 == 0
    ensures 8 * |bytes| == |b|
  {
    if b == [] then []
    else
      var last := b[|b| - 8..];
      NumberBound(last);
      Pow2Eight();
      Pack(b[..|b| - 8]) + [Number(last)]
  }

  lemma {:induction false} StreamOfPack(b: seq<Bit>)
    requires |b| % 8 == 0
    ensures Stream(Pack(b)) == b
  {
    if b != [] {
      var bytes, init, last := Pack(b), b[..|b| - 8], b[|b| - 8..];
      StreamOfPack(init);
      BitsOfNumber(last);
      assert bytes[..|bytes| - 1] == Pack(init);
      assert b == init + last;
    }
  }

  lemma PackAppend(b: seq<Bit>, last: seq<Bit>, byte: Byte)
    requires |b| % 8 == 0 && |last| == 8 && Number(last) == byte
    ensures Pack(b + last) == Pack(b) + [byte]
  {
    hide Number;
    var c := b + last;
    assert c[|c| - 8..] == last && c[..|c| - 8] == b;
  }

  lemma StreamAppend(init: seq<Byte>, last: Byte)
    ensures Stream(init + [last]) == Stream(init) + BitsOf(last, 8)
  {
    hide BitsOf;
    assert (init + [last])[..|init|] == init;
  }

  lemma PackOfNothing()
    ensures Pack(Stream([])) == []
  {
  }

  lemma PackStreamAppend(init: seq<Byte>, last: Byte)
    ensures Pack(Stream(init + [last])) == Pack(Stream(init)) + [last]
  {
    hide BitsOf, Stream, Pack, Number;
    StreamAppend(init, last);
    Pow2Eight();
    NumberOfBits(last, 8);
    PackAppend(Stream(init), BitsOf(last, 8), last);
  }

  lemma {:induction false} PackOfStream(bytes: seq<Byte>)
    ensures Pack(Stream(bytes)) == bytes
  {
    hide Pack, Stream, BitsOf, Number;
    if bytes == [] {
      PackOfNothing();
    } else {
      var init, last := bytes[..|bytes| - 1], bytes[|bytes| - 1];
      PackOfStream(init);
      assert bytes == init + [last];
      PackStreamAppend(init, last);
    }
  }

  // ----- 32-bit accumulators -----

  const WORD32: nat := 0x1_0000_0000

  /** x >>> 0: the low 32 bits as an unsigned number. */
  function Uint32(x: int): (r: nat)
    ensures r < WORD32
  {
    x % WORD32
  }

  /** The low 32 bits as a signed number, as the bit operators of JavaScript produce. */
  function Int32(x: int): (r: int)
    ensures -0x8000_0000 <= r < 0x8000_0000
  {
    if Uint32(x) < 0x8000_0000 then Uint32(x) else Uint32(x) - WORD32
  }

  /** (acc << 8) | byte: the shift leaves eight zero bits, so the byte is added. */
  function PushByte(acc: int, byte: Byte): int {
    Int32(acc * 256) + byte
  }

  /** The k bits of acc above its low n ones; for a signed acc this is acc >> n masked with k ones. */
  function Field(acc: int, n: nat, k: nat): (r: nat)
    ensures r < Pow2(k)
  {
    (acc / Pow2(n)) % Pow2(k)
  }

  /** The low n bits of acc are the number x. */
  predicate Holds(acc: int, n: nat, x: nat) {
    Residue(acc, Pow2(n)) == x
  }

  /** Dropping whole multiples of 2^32 does not disturb the low bits. */
  lemma HoldsModulo(acc: int, acc': int, k: int, n: nat, x: nat)
    requires Holds(acc, n, x) && n <= 32 && acc' == acc + k * WORD32
    ensures Holds(acc', n, x)
  {
    hide Pow2, Residue;
    Pow2Add(32 - n, n);
    Pow2ThirtyTwo();
    MulAssociates(k, Pow2(32 - n), Pow2(n));
    CongFromMultiple(acc', acc, k * Pow2(32 - n), Pow2(n));
  }

  lemma MulAssociates(k: int, p: int, q: int)
    ensures k * (p * q) == (k * p) * q
  {
  }

  lemma Pow2ThirtyTwo()
    ensures Pow2(32) == WORD32
  {
    Pow2Eight();
    Pow2Add(8, 8);
    Pow2Add(16, 16);
  }

  lemma HoldsUint32(acc: int, n: nat, x: nat)
    requires Holds(acc, n, x) && n <= 32
    ensures Holds(Uint32(acc), n, x)
  {
    HoldsModulo(acc, Uint32(acc), -(acc / WORD32), n, x);
  }

  /** Pushing a byte appends it to the low bits, whatever stale bits are shifted out at the top. */
  lemma HoldsPush(acc: int, n: nat, x: nat, byte: Byte)
    requires Holds(acc, n, x) && n + 8 <= 32
    ensures Holds(PushByte(acc, byte), n + 8, 256 * x + byte)
  {
    Pow2Add(n, 8);
    Pow2Eight();
    AppendByte(acc, Pow2(n), x, byte);
    var k := -(acc * 256 / WORD32) - (if Uint32(acc * 256) < 0x8000_0000 then 0 else 1);
    hide Pow2, Residue;
    HoldsModulo(acc * 256 + byte, PushByte(acc, byte), k, n + 8, 256 * x + byte);
  }

  lemma AppendByte(acc: int, p: nat, x: nat, byte: Byte)
    requires p > 0 && Residue(acc, p) == x
    ensures Residue(acc * 256 + byte, p * 256) == 256 * x + byte
  {
    var h := acc / p;
    assert acc == h * p + x;
    assert (h * p) * 256 == h * (p * 256);
    DivModUnique(acc * 256 + byte, h, 256 * x + byte, p * 256);
  }

  /** Reading the k bits above the low n ones splits the number held. */
  lemma HoldsField(acc: int, n: nat, k: nat, x: nat, y: nat)
    requires Holds(acc, k + n, x * Pow2(n) + y) && x < Pow2(k) && y < Pow2(n)
    ensures Field(acc, n, k) == x && Holds(acc, n, y)
  {
    hide Pow2;
    Pow2Add(k, n);
    SplitNumber(acc, Pow2(n), Pow2(k), x, y);
  }

  lemma SplitNumber(acc: int, p: nat, q: nat, x: nat, y: nat)
    requires p > 0 && q > 0 && q * p > 0 && Residue(acc, q * p) == x * p + y && x < q && y < p
    ensures (acc / p) % q == x && Residue(acc, p) == y
  {
    var h := acc / (q * p);
    QuotientRemainder(acc, q * p);
    MulAssociates(h, q, p);
    assert acc == (h * q + x) * p + y;
    DivModUnique(acc, h * q + x, y, p);
    DivModUnique(h * q + x, h, x, q);
  }

  lemma QuotientRemainder(x: int, q: nat)
    requires q > 0
    ensures x == (x / q) * q + Residue(x, q)
  {
  }

  // ----- reading a byte string through an accumulator -----

  /** acc holds, in its low bits, the accLen bits read from the bytes but not yet used; p is the next bit. */
  ghost predicate Reading(bytes: seq<Byte>, acc: int, accLen: nat, v: nat, p: nat) {
    p + accLen == 8 * v && Holds(acc, accLen, Value(Stream(bytes), p, accLen))
  }

  lemma ReadingStart(bytes: seq<Byte>, acc: int, v: nat)
    ensures Reading(bytes, acc, 0, v, 8 * v)
  {
    DivModUnique(acc, acc, 0, 1);
  }

  /** Pushing the next byte, whether the accumulator is kept signed or unsigned. */
  lemma ReadingPush(bytes: seq<Byte>, acc: int, accLen: nat, v: nat, p: nat)
    requires Reading(bytes, acc, accLen, v, p) && accLen + 8 <= 32
    ensures Reading(bytes, PushByte(acc, ByteOrZero(bytes, v)), accLen + 8, v + 1, p)
    ensures Reading(bytes, Uint32(PushByte(acc, ByteOrZero(bytes, v))), accLen + 8, v + 1, p)
  {
    hide Holds, Value, Stream, PushByte, Uint32;
    var b, byte := Stream(bytes), ByteOrZero(bytes, v);
    Pow2Eight();
    ValueSplit(b, p, accLen, 8);
    ByteValue(bytes, v);
    HoldsPush(acc, accLen, Value(b, p, accLen), byte);
    HoldsUint32(PushByte(acc, byte), accLen + 8, Value(b, p, accLen + 8));
  }

  /** Taking k bits. */
  lemma ReadingTake(bytes: seq<Byte>, acc: int, accLen: nat, v: nat, p: nat, k: nat)
    requires Reading(bytes, acc, accLen + k, v, p) && accLen + k <= 32
    ensures Field(acc, accLen, k) == Value(Stream(bytes), p, k)
    ensures Field(Uint32(acc), accLen, k) == Value(Stream(bytes), p, k)
    ensures Reading(bytes, acc, accLen, v, p + k)
  {
    hide Holds, Value, Stream, Uint32, Field;
    var b := Stream(bytes);
    ValueSplit(b, p, k, accLen);
    ValueBound(b, p, k);
    ValueBound(b, p + k, accLen);
    HoldsUint32(acc, accLen + k, Value(b, p, accLen + k));
    HoldsField(acc, accLen, k, Value(b, p, k), Value(b, p + k, accLen));
    HoldsField(Uint32(acc), accLen, k, Value(b, p, k), Value(b, p + k, accLen));
  }

  // ----- bit strings put together -----

  lemma {:induction false} BitsConcat(x: nat, j: nat, y: nat, k: nat)
    requires y < Pow2(k)
    ensures BitsOf(x * Pow2(k) + y, j + k) == BitsOf(x, j) + BitsOf(y, k)
  {
    if k > 0 {
      HalfOfSum(x, Pow2(k - 1), y);
      BitsConcat(x, j, y / 2, k - 1);
    }
  }

  lemma HalfOfSum(x: nat, p: nat, y: nat)
    ensures (x * (2 * p) + y) / 2 == x * p + y / 2 && (x * (2 * p) + y) % 2 == y % 2
  {
    DoubleFactor(x, p);
  }

  lemma SliceIsBits(b: seq<Bit>, p: nat, k: nat)
    requires p + k <= |b|
    ensures b[p..p + k] == BitsOf(Value(b, p, k), k)
  {
    ValueIsNumber(b, p, k);
    BitsOfNumber(b[p..p + k]);
  }

  lemma ValueOfSlice(b: seq<Bit>, p: nat, v: nat, k: nat)
    requires p + k <= |b| && v < Pow2(k) && b[p..p + k] == BitsOf(v, k)
    ensures Value(b, p, k) == v
  {
    ValueIsNumber(b, p, k);
    NumberOfBits(v, k);
  }
}
