/** Congruence modulo a positive integer, and integer powers. */
module ModArith {

  /** The remainder of x modulo q. */
  function Residue(x: int, q: int): (r: nat)
    requires q > 0
    ensures r < q
  {
    x % q
  }

  /** The product of x and y, reduced. */
  function MulMod(x: int, y: int, q: int): (r: nat)
    requires q > 0
    ensures r < q
  {
    Residue(x * y, q)
  }

  /** The sum of x and y, reduced. */
  function AddMod(x: int, y: int, q: int): (r: nat)
    requires q > 0
    ensures r < q
  {
    Residue(x + y, q)
  }

  /** x and y leave the same remainder modulo q. */
  predicate Cong(x: int, y: int, q: int)
    requires q > 0
  {
    Residue(x, q) == Residue(y, q)
  }

  function Pow(b: int, e: nat): int {
    if e == 0 then 1 else b * Pow(b, e - 1)
  }

  /** The quotient and remainder of a decomposition x == k * q + r are unique. */
  lemma {:induction false} DivModUnique(x: int, k: int, r: int, q: int)
    requires q > 0 && 0 <= r < q && x == k * q + r
    ensures x / q == k && x % q == r
  {
    var d := x / q - k;
    assert x == (x / q) * q + x % q;
    assert d * q == r - x % q;
    if d >= 1 {
      MulAtLeast(d, q);
    } else if d <= -1 {
      MulAtLeast(-d, q);
    }
  }

  lemma MulAtLeast(d: int, q: int)
    requires d >= 1 && q >= 0
    ensures d * q >= q
  {
  }

  lemma CongFromMultiple(x: int, y: int, k: int, q: int)
    requires q > 0 && x == y + k * q
    ensures Cong(x, y, q)
  {
    var d := y / q;
    assert y == d * q + y % q;
    assert x == (d + k) * q + y % q;
    DivModUnique(x, d + k, y % q, q);
  }

  lemma MultipleFromCong(x: int, y: int, q: int) returns (k: int)
    requires q > 0 && Cong(x, y, q)
    ensures x == y + k * q
  {
    k := x / q - y / q;
    assert x == (x / q) * q + x % q;
    assert y == (y / q) * q + y % q;
  }

  lemma CongAdd(x: int, x': int, y: int, y': int, q: int)
    requires q > 0 && Cong(x, x', q) && Cong(y, y', q)
    ensures Cong(x + y, x' + y', q)
  {
    var k := MultipleFromCong(x, x', q);
    var l := MultipleFromCong(y, y', q);
    hide Residue;
    assert x + y == x' + y' + (k + l) * q;
    CongFromMultiple(x + y, x' + y', k + l, q);
  }

  lemma CongMul(x: int, x': int, y: int, y': int, q: int)
    requires q > 0 && Cong(x, x', q) && Cong(y, y', q)
    ensures Cong(x * y, x' * y', q)
  {
    var k := MultipleFromCong(x, x', q);
    var l := MultipleFromCong(y, y', q);
    hide Residue;
    ExpandProduct(x', k, y', l, q);
    CongFromMultiple(x * y, x' * y', x' * l + k * (y' + l * q), q);
  }

  lemma ExpandProduct(x: int, k: int, y: int, l: int, q: int)
    ensures (x + k * q) * (y + l * q) == x * y + (x * l + k * (y + l * q)) * q
  {
    var z := y + l * q;
    assert (x + k * q) * z == x * z + (k * q) * z;
    assert x * z == x * y + (x * l) * q by {
      assert x * (l * q) == (x * l) * q;
    }
    assert (k * q) * z == (k * z) * q;
  }

  lemma CongSub(x: int, x': int, y: int, y': int, q: int)
    requires q > 0 && Cong(x, x', q) && Cong(y, y', q)
    ensures Cong(x - y, x' - y', q)
  {
    var k := MultipleFromCong(x, x', q);
    var l := MultipleFromCong(y, y', q);
    hide Residue;
    assert x - y == x' - y' + (k - l) * q;
    CongFromMultiple(x - y, x' - y', k - l, q);
  }

  /** A value reduced modulo q is congruent to the value itself. */
  lemma CongMod(x: int, q: int)
    requires q > 0
    ensures Cong(Residue(x, q), x, q)
  {
    DivModUnique(x % q, 0, x % q, q);
  }

  lemma {:induction false} CongPow(x: int, y: int, e: nat, q: int)
    requires q > 0 && Cong(x, y, q)
    ensures Cong(Pow(x, e), Pow(y, e), q)
  {
    if e > 0 {
      CongPow(x, y, e - 1, q);
      CongMul(x, y, Pow(x, e - 1), Pow(y, e - 1), q);
    }
  }

  lemma {:induction false} PowAdd(b: int, d: nat, e: nat)
    ensures Pow(b, d + e) == Pow(b, d) * Pow(b, e)
  {
    if d > 0 {
      PowAdd(b, d - 1, e);
      assert b * (Pow(b, d - 1) * Pow(b, e)) == (b * Pow(b, d - 1)) * Pow(b, e);
    }
  }

  lemma {:induction false} PowMulBase(a: int, b: int, e: nat)
    ensures Pow(a * b, e) == Pow(a, e) * Pow(b, e)
  {
    if e > 0 {
      PowMulBase(a, b, e - 1);
      MulInterchange(a, b, Pow(a, e - 1), Pow(b, e - 1));
    }
  }

  lemma MulInterchange(a: int, b: int, c: int, d: int)
    ensures (a * b) * (c * d) == (a * c) * (b * d)
  {
    assert (a * b) * (c * d) == a * (b * (c * d));
    assert b * (c * d) == c * (b * d);
    assert a * (c * (b * d)) == (a * c) * (b * d);
  }

  lemma {:induction false} PowOne(e: nat)
    ensures Pow(1, e) == 1
  {
    if e > 0 { PowOne(e - 1); }
  }

  lemma PowOneExponent(b: int)
    ensures Pow(b, 1) == b
  {
    assert Pow(b, 0) == 1;
  }

  /** Squaring the base halves the exponent. */
  lemma {:induction false} PowSquare(b: int, e: nat)
    ensures Pow(b, 2 * e) == Pow(b * b, e)
  {
    PowAdd(b, e, e);
    PowMulBase(b, b, e);
  }

  /** A factor with an inverse modulo q can be cancelled. */
  lemma CongCancel(c: int, inv: int, x: int, y: int, q: int)
    requires q > 0 && Cong(c * inv, 1, q) && Cong(c * x, c * y, q)
    ensures Cong(x, y, q)
  {
    hide Residue;
    CongMul(c * x, c * y, inv, inv, q);
    CongMul(c * inv, 1, x, x, q);
    CongMul(c * inv, 1, y, y, q);
    assert (c * x) * inv == (c * inv) * x;
    assert (c * y) * inv == (c * inv) * y;
  }

  // ----- powers of two -----

  function Pow2(l: nat): (p: nat)
    ensures p >= 1
  {
    if l == 0 then 1 else 2 * Pow2(l - 1)
  }

  lemma {:induction false} Pow2Add(d: nat, e: nat)
    ensures Pow2(d + e) == Pow2(d) * Pow2(e)
  {
    if d > 0 {
      Pow2Add(d - 1, e);
      assert 2 * (Pow2(d - 1) * Pow2(e)) == (2 * Pow2(d - 1)) * Pow2(e);
    }
  }

  lemma Pow2Eight()
    ensures Pow2(8) == 256
  {
  }

  lemma Pow2SixtyFour()
    ensures Pow2(64) == 0x1_0000_0000_0000_0000
  {
    Pow2Eight();
    hide Pow2;
    Pow2Add(8, 8);
    Pow2Add(16, 16);
    Pow2Add(32, 32);
  }
}
