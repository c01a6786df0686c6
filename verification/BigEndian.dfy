/** Big-endian byte strings and right shifts. */
module BigEndian {
  import opened Evm
  import opened ModArith

  /** x >> s on an unsigned integer. */
  function Shr(x: nat, s: nat): nat
    decreases s
  {
    if s == 0 then x else Shr(x / 2, s - 1)
  }

  /** The k low bytes of x, most significant first. */
  function BytesOf(x: nat, k: nat): (b: seq<Byte>)
    ensures |b| == k
  {
    if k == 0 then [] else BytesOf(x / 256, k - 1) + [x % 256]
  }

  /** The number a byte string stands for. */
  function ValueOf(b: seq<Byte>): nat {
    if b == [] then 0 else 256 * ValueOf(b[..|b| - 1]) + b[|b| - 1]
  }

  /** Reading the bytes back gives the number, as long as it fits. */
  lemma {:induction false} ValueOfBytes(x: nat, k: nat)
    requires x < Pow2(8 * k)
    ensures ValueOf(BytesOf(x, k)) == x
  {
    if k > 0 {
      Pow2Add(8, 8 * (k - 1));
      Pow2Eight();
      var d := x / 256;
      assert d < Pow2(8 * (k - 1));
      ValueOfBytes(d, k - 1);
      assert BytesOf(x, k)[..k - 1] == BytesOf(d, k - 1);
    }
  }

  /** And the bytes of the number are the byte string. */
  lemma {:induction false} BytesOfValue(b: seq<Byte>)
    ensures BytesOf(ValueOf(b), |b|) == b
  {
    if b != [] { BytesOfValue(b[..|b| - 1]); }
  }

  /** Shifting by d and then by e is shifting by d + e. */
  lemma {:induction false} ShrShr(x: nat, d: nat, e: nat)
    ensures Shr(Shr(x, d), e) == Shr(x, d + e)
    decreases d
  {
    if d > 0 { ShrShr(x / 2, d - 1, e); }
  }

  lemma ShrEight(x: nat)
    ensures Shr(x, 8) == x / 256
  {
    ShrShr(x, 4, 4);
    assert forall y: nat :: Shr(y, 4) == y / 16;
  }

  /** Byte i from the top is what shifting right and truncating gives. */
  lemma {:induction false} ByteAt(x: nat, k: nat, i: nat)
    requires i < k
    ensures BytesOf(x, k)[i] == Shr(x, 8 * (k - 1 - i)) % 256
  {
    if i < k - 1 {
      ByteAt(x / 256, k - 1, i);
      ShrEight(x);
      ShrShr(x, 8, 8 * (k - 2 - i));
    }
  }
}
