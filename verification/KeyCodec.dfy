/** The encoding of public keys: coefficients of 14 bits each, one after the other. */
module KeyCodec {
  import opened Evm
  import opened ModArith
  import opened BitStream

  const WIDTH: nat := 14

  /** The bytes after the header byte. */
  function Body(key: seq<Byte>): seq<Byte> {
    if key == [] then [] else key[1..]
  }

  /** Coefficient u of a key, from the bits of its body; bits past the end are zero. */
  function Coefficient(body: seq<Byte>, u: nat): (w: nat)
    ensures w < Pow2(WIDTH)
  {
    ValueBound(Stream(body), WIDTH * u, WIDTH);
    Value(Stream(body), WIDTH * u, WIDTH)
  }

  function Coefficients(body: seq<Byte>, n: nat): (r: seq<nat>)
    ensures |r| == n && forall u :: 0 <= u < n ==> r[u] == Coefficient(body, u)
  {
    seq(n, u requires 0 <= u < n => Coefficient(body, u))
  }

  /** The bits of a list of coefficients. */
  function KeyBits(cs: seq<nat>): (b: seq<Bit>)
    ensures |b| == WIDTH * |cs|
  {
    if cs == [] then [] else KeyBits(cs[..|cs| - 1]) + BitsOf(cs[|cs| - 1], WIDTH)
  }

  lemma KeyBitsAppend(cs: seq<nat>, c: nat)
    ensures KeyBits(cs + [c]) == KeyBits(cs) + BitsOf(c, WIDTH)
  {
    hide BitsOf;
    assert (cs + [c])[..|cs|] == cs;
  }

  /** A key body: the packed coefficients, which must fill whole bytes. */
  function EncodeKey(cs: seq<nat>): (body: seq<Byte>)
    requires |cs| % 4 == 0
    ensures 8 * |body| == WIDTH * |cs|
  {
    WholeBytes(|cs|);
    Pack(KeyBits(cs))
  }

  lemma WholeBytes(n: nat)
    requires n % 4 == 0
    ensures (WIDTH * n) % 8 == 0
  {
    assert WIDTH * n == 8 * (7 * (n / 4));
  }

  lemma {:induction false} CoefficientInStream(b: seq<Bit>, cs: seq<nat>, u: nat)
    requires u < |cs| && cs[u] < Pow2(WIDTH) && KeyBits(cs) <= b
    ensures Value(b, WIDTH * u, WIDTH) == cs[u]
  {
    hide BitsOf, Value, Pow2;
    var init, last := cs[..|cs| - 1], cs[|cs| - 1];
    if u == |init| {
      MiddleOfConcat(b, KeyBits(init), BitsOf(last, WIDTH));
      ValueOfSlice(b, WIDTH * u, last, WIDTH);
    } else {
      CoefficientInStream(b, init, u);
    }
  }

  lemma MiddleOfConcat(b: seq<Bit>, c: seq<Bit>, d: seq<Bit>)
    requires c + d <= b
    ensures b[|c|..|c| + |d|] == d
  {
    assert (c + d)[|c|..] == d;
  }

  /** Main result: decoding a packed key returns its coefficients. */
  lemma DecodeOfEncode(cs: seq<nat>, suffix: seq<Byte>)
    requires |cs| % 4 == 0 && forall u :: 0 <= u < |cs| ==> cs[u] < Pow2(WIDTH)
    ensures Coefficients(EncodeKey(cs) + suffix, |cs|) == cs
  {
    hide BitsOf, Stream, Pack, KeyBits, Value, Pow2;
    var body := EncodeKey(cs);
    StreamOfPack(KeyBits(cs));
    StreamPrefix(body + suffix, |body|);
    assert (body + suffix)[..|body|] == body;
    assert KeyBits(cs) <= Stream(body + suffix);
    forall u | 0 <= u < |cs| ensures Coefficient(body + suffix, u) == cs[u] {
      CoefficientInStream(Stream(body + suffix), cs, u);
    }
  }

  /** The key is one header byte, the packed coefficients, and anything after them. */
  predicate IsKeyOf(key: seq<Byte>, cs: seq<nat>) {
    |cs| % 4 == 0 && |key| >= 1 && EncodeKey(cs) <= key[1..]
  }

  /** The header byte is skipped, whatever it is. */
  lemma DecodeOfKey(key: seq<Byte>, cs: seq<nat>)
    requires IsKeyOf(key, cs) && forall u :: 0 <= u < |cs| ==> cs[u] < Pow2(WIDTH)
    ensures Coefficients(Body(key), |cs|) == cs
  {
    hide EncodeKey, Coefficients, Pow2;
    var body := EncodeKey(cs);
    assert key[1..] == body + key[1..][|body|..];
    DecodeOfEncode(cs, key[1..][|body|..]);
  }

  lemma JoinSlices(b: seq<Bit>, p: nat, q: nat)
    requires p <= q <= |b|
    ensures b[..q] == b[..p] + b[p..q]
  {
  }

  lemma {:induction false} KeyBitsOfCoefficients(body: seq<Byte>, n: nat)
    requires WIDTH * n <= 8 * |body|
    ensures KeyBits(Coefficients(body, n)) == Stream(body)[..WIDTH * n]
  {
    if n > 0 {
      hide BitsOf, Stream, Value;
      KeyBitsOfCoefficients(body, n - 1);
      hide KeyBits;
      var init, last := Coefficients(body, n - 1), Coefficient(body, n - 1);
      assert Coefficients(body, n) == init + [last];
      KeyBitsAppend(init, last);
      SliceIsBits(Stream(body), WIDTH * (n - 1), WIDTH);
      JoinSlices(Stream(body), WIDTH * (n - 1), WIDTH * n);
    }
  }

  /** And packing the decoded coefficients returns the bytes they came from. */
  lemma EncodeOfDecode(body: seq<Byte>, n: nat)
    requires n % 4 == 0 && WIDTH * n == 8 * |body|
    ensures EncodeKey(Coefficients(body, n)) == body
  {
    hide Stream, Pack, KeyBits, Coefficients;
    KeyBitsOfCoefficients(body, n);
    assert Stream(body)[..WIDTH * n] == Stream(body);
    PackOfStream(body);
  }
}
