/**
 The bit-reversed table of roots used by the transform, and the tree of roots it
 describes: node 1 stands for X^n + 1, and node k splits into nodes 2k and 2k + 1,
 whose roots are the two square roots psi[k] and -psi[k] of its own root.
 */
module RootTable {
  import opened ModArith

  /** The root at tree node k. */
  function Rho(psi: seq<int>, k: nat): int
    requires 1 <= k && k / 2 < |psi|
  {
    if k == 1 then -1 else if k % 2 == 0 then psi[k / 2] else -psi[k / 2]
  }

  lemma RhoChildren(psi: seq<int>, k: nat)
    requires 1 <= k < |psi|
    ensures Rho(psi, 2 * k) == psi[k] && Rho(psi, 2 * k + 1) == -psi[k]
  {
  }

  /** Entry k of the table is a square root of the root at node k. */
  ghost predicate IsSquareRoot(psi: seq<int>, k: nat, q: int)
    requires q > 0 && 1 <= k < |psi|
  {
    Cong(psi[k] * psi[k], Rho(psi, k), q)
  }

  ghost predicate SquareRoots(psi: seq<int>, n: nat, q: int)
    requires q > 0
  {
    n <= |psi| && forall k :: 1 <= k < n ==> IsSquareRoot(psi, k, q)
  }

  ghost predicate IsInverse(psi: seq<int>, inv: seq<int>, k: nat, q: int)
    requires q > 0 && k < |psi| && k < |inv|
  {
    Cong(psi[k] * inv[k], 1, q)
  }

  /** psi is a table of roots covering length n, and inv holds the inverses of its entries. */
  ghost predicate IsRootTable(psi: seq<int>, inv: seq<int>, n: nat, q: int)
    requires q > 0
  {
    && SquareRoots(psi, n, q)
    && n <= |inv|
    && forall k :: 1 <= k < n ==> IsInverse(psi, inv, k, q)
  }

  predicate PowerOfTwo(n: nat) {
    n == 1 || (n >= 2 && n % 2 == 0 && PowerOfTwo(n / 2))
  }

  lemma NegateProduct(x: int, y: int)
    ensures (-x) * (-y) == x * y
  {
  }

  /** Squaring the root of a node gives the root of its parent. */
  lemma RhoSquared(psi: seq<int>, n: nat, k: nat, q: int)
    requires q > 0 && SquareRoots(psi, n, q) && 2 <= k < 2 * n
    ensures Cong(Rho(psi, k) * Rho(psi, k), Rho(psi, k / 2), q)
  {
    assert IsSquareRoot(psi, k / 2, q);
    NegateProduct(psi[k / 2], psi[k / 2]);
  }

  /** Below node k, in a subtree with t leaves, the roots are t-th roots of the root of k. */
  lemma {:induction false} RhoPower(psi: seq<int>, n: nat, k: nat, t: nat, i: nat, x: nat, q: int)
    requires q > 0 && SquareRoots(psi, n, q) && PowerOfTwo(t)
    requires 1 <= k && i < t && x == k * t + i && x < 2 * n
    ensures k <= x && Cong(Pow(Rho(psi, x), t), Rho(psi, k), q)
    decreases t
  {
    MulAtLeast(t, k);
    if t == 1 {
      PowOneExponent(Rho(psi, x));
    } else {
      var h := t / 2;
      HalveIndex(k, t, i);
      RhoPower(psi, n, k, h, i / 2, x / 2, q);
      RhoSquared(psi, n, x, q);
      var r, up := Rho(psi, x), Rho(psi, x / 2);
      PowSquare(r, h);
      assert Pow(r, t) == Pow(r * r, h);
      CongPow(r * r, up, h, q);
    }
  }

  lemma HalveIndex(k: nat, t: nat, i: nat)
    requires 1 <= k && t >= 2 && t % 2 == 0
    ensures (k * t + i) / 2 == k * (t / 2) + i / 2
    ensures 2 <= k * t + i
  {
    var h := t / 2;
    assert k * t == 2 * (k * h);
    MulAtLeast(k, h);
  }

  /** Every leaf of the tree is a root of X^n + 1. */
  lemma LeafRoot(psi: seq<int>, n: nat, i: nat, q: int)
    requires q > 0 && SquareRoots(psi, n, q) && PowerOfTwo(n) && i < n
    ensures Cong(Pow(Rho(psi, n + i), n), -1, q)
  {
    RhoPower(psi, n, 1, n, i, n + i, q);
  }

  lemma RhoInverse(psi: seq<int>, inv: seq<int>, n: nat, k: nat, q: int)
    requires q > 0 && IsRootTable(psi, inv, n, q) && 1 <= k < 2 * n
    ensures Cong(Rho(psi, k) * Rho(inv, k), 1, q)
  {
    if k > 1 {
      assert IsInverse(psi, inv, k / 2, q);
      NegateProduct(psi[k / 2], inv[k / 2]);
    }
  }

  /** The inverse table is a table of square roots as well. */
  lemma InverseSquareRoots(psi: seq<int>, inv: seq<int>, n: nat, q: int)
    requires q > 0 && IsRootTable(psi, inv, n, q)
    ensures SquareRoots(inv, n, q)
  {
    forall k | 1 <= k < n ensures IsSquareRoot(inv, k, q) {
      assert IsSquareRoot(psi, k, q) && IsInverse(psi, inv, k, q);
      RhoInverse(psi, inv, n, k, q);
      InverseOfSquare(psi[k], inv[k], Rho(psi, k), Rho(inv, k), q);
    }
  }

  lemma InverseOfSquare(s: int, sInv: int, r: int, rInv: int, q: int)
    requires q > 0 && Cong(s * s, r, q) && Cong(s * sInv, 1, q) && Cong(r * rInv, 1, q)
    ensures Cong(sInv * sInv, rInv, q)
  {
    MulInterchange(s, s, sInv, sInv);
    CongMul(s * sInv, 1, s * sInv, 1, q);
    CongMul(s * s, r, sInv * sInv, sInv * sInv, q);
    CongCancel(r, rInv, sInv * sInv, rInv, q);
  }

  // ----- where such a table comes from: powers of one root, in bit-reversed order -----

  /** The l low bits of k, read backwards. */
  function BitReverse(l: nat, k: nat): nat {
    if l == 0 then 0 else (if k % 2 == 1 then Pow2(l - 1) else 0) + BitReverse(l - 1, k / 2)
  }

  lemma {:induction false} BitReverseDouble(l: nat, k: nat)
    requires l > 0 && k < Pow2(l - 1)
    ensures BitReverse(l, k) == 2 * BitReverse(l - 1, k)
  {
    if l > 1 {
      BitReverseDouble(l - 1, k / 2);
    }
  }

  lemma {:induction false} BitReverseOfPower(l: nat, j: nat)
    requires j < l
    ensures BitReverse(l, Pow2(j)) == Pow2(l - 1 - j)
  {
    if j == 0 { BitReverseZero(l - 1); } else { BitReverseOfPower(l - 1, j - 1); }
  }

  /** The powers of g in bit-reversed order, as the tables of the contract list them. */
  function BitReversedPowers(g: int, l: nat): (psi: seq<int>)
    ensures |psi| == Pow2(l)
  {
    seq(Pow2(l), k requires 0 <= k < Pow2(l) => Pow(g, BitReverse(l, k)))
  }

  /** For any g with g^(2^l) == -1, the bit-reversed powers of g are a table of square roots. */
  lemma BitReversedPowersAreSquareRoots(g: int, l: nat, q: int)
    requires q > 0 && Cong(Pow(g, Pow2(l)), -1, q)
    ensures SquareRoots(BitReversedPowers(g, l), Pow2(l), q)
  {
    hide Residue, Pow, BitReverse;
    forall k | 1 <= k < Pow2(l) ensures IsSquareRoot(BitReversedPowers(g, l), k, q) {
      PowAdd(g, BitReverse(l, k), BitReverse(l, k));
      DoubledExponent(l, k);
      if k % 2 == 1 { OddSquare(g, l, BitReverse(l - 1, k / 2), q); }
      if k == 1 { RootOfFirst(g, l); }
    }
  }

  lemma DoubledExponent(l: nat, k: nat)
    requires 1 <= k < Pow2(l)
    ensures l > 0 && k / 2 < Pow2(l - 1) && BitReverse(l, k / 2) == 2 * BitReverse(l - 1, k / 2)
    ensures BitReverse(l, k) + BitReverse(l, k) == BitReverse(l, k / 2) + if k % 2 == 1 then Pow2(l) else 0
  {
    BitReverseDouble(l, k / 2);
  }

  lemma OddSquare(g: int, l: nat, h: nat, q: int)
    requires q > 0 && Cong(Pow(g, Pow2(l)), -1, q)
    ensures Cong(Pow(g, 2 * h + Pow2(l)), -Pow(g, 2 * h), q)
  {
    hide Residue, Pow, Pow2;
    PowAdd(g, Pow2(l), 2 * h);
    CongMul(Pow(g, Pow2(l)), -1, Pow(g, 2 * h), Pow(g, 2 * h), q);
  }

  lemma RootOfFirst(g: int, l: nat)
    requires l > 0
    ensures BitReverse(l, 0) == 0 && Pow(g, 0) == 1
  {
    BitReverseZero(l);
  }

  lemma {:induction false} BitReverseZero(l: nat)
    ensures BitReverse(l, 0) == 0
  {
    if l > 0 { BitReverseZero(l - 1); }
  }

  /** The powers of the inverse of g, in the same order, are the inverse table. */
  lemma BitReversedPowersAreRootTable(g: int, gInv: int, l: nat, q: int)
    requires q > 0 && Cong(Pow(g, Pow2(l)), -1, q) && Cong(g * gInv, 1, q)
    ensures IsRootTable(BitReversedPowers(g, l), BitReversedPowers(gInv, l), Pow2(l), q)
  {
    hide Residue;
    BitReversedPowersAreSquareRoots(g, l, q);
    var psi, inv := BitReversedPowers(g, l), BitReversedPowers(gInv, l);
    forall k | 1 <= k < Pow2(l) ensures IsInverse(psi, inv, k, q) {
      var e := BitReverse(l, k);
      PowMulBase(g, gInv, e);
      CongPow(g * gInv, 1, e, q);
      PowOne(e);
    }
  }

  /** Only the residues of the entries matter, and a table covers every smaller length. */
  lemma RootTableOfResidues(psi: seq<int>, inv: seq<int>, psi': seq<int>, inv': seq<int>, m: nat, n: nat, q: int)
    requires q > 0 && IsRootTable(psi, inv, n, q) && m <= n
    requires |psi'| == |psi| && forall k :: 0 <= k < |psi| ==> Cong(psi'[k], psi[k], q)
    requires |inv'| == |inv| && forall k :: 0 <= k < |inv| ==> Cong(inv'[k], inv[k], q)
    ensures IsRootTable(psi', inv', m, q)
  {
    hide Residue;
    forall k | 1 <= k < m ensures IsSquareRoot(psi', k, q) && IsInverse(psi', inv', k, q) {
      assert IsSquareRoot(psi, k, q) && IsInverse(psi, inv, k, q);
      CongMul(psi'[k], psi[k], psi'[k], psi[k], q);
      CongMul(psi'[k], psi[k], inv'[k], inv[k], q);
      RhoOfResidues(psi, psi', k, q);
      CongChain(psi'[k] * psi'[k], psi[k] * psi[k], Rho(psi, k), Rho(psi', k), q);
      CongChain(psi'[k] * inv'[k], psi[k] * inv[k], 1, 1, q);
    }
  }

  lemma CongChain(a: int, b: int, c: int, d: int, q: int)
    requires q > 0 && Cong(a, b, q) && Cong(b, c, q) && Cong(d, c, q)
    ensures Cong(a, d, q)
  {
  }

  lemma RhoOfResidues(psi: seq<int>, psi': seq<int>, k: nat, q: int)
    requires q > 0 && 1 <= k < |psi| == |psi'| && forall j :: 0 <= j < |psi| ==> Cong(psi'[j], psi[j], q)
    ensures Cong(Rho(psi', k), Rho(psi, k), q)
  {
    hide Residue;
    if k > 1 && k % 2 == 1 { CongSub(0, 0, psi'[k / 2], psi[k / 2], q); }
  }
}
