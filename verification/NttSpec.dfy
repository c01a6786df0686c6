/**
 What the forward and inverse transforms compute, by their defining sums, and why
 the two are inverse to each other and turn the negacyclic product into a pointwise one.
 */
module NttSpec {
  import opened ModArith
  import opened Polynomial
  import opened RootTable

  /** Coefficients reduced modulo q. */
  function Reduce(f: seq<int>, q: int): (r: seq<nat>)
    requires q > 0
    ensures |r| == |f| && forall i :: 0 <= i < |f| ==> r[i] == Residue(f[i], q) < q
  {
    seq(|f|, i requires 0 <= i < |f| => Residue(f[i], q))
  }

  /** The value of f at leaf root i. */
  function ValueAtLeaf(psi: seq<int>, f: seq<int>, i: nat): int
    requires i < |f| <= |psi|
  {
    Eval(f, Rho(psi, |f| + i))
  }

  /** Position i of the transform is the value of f at leaf root i. */
  function Ntt(psi: seq<int>, f: seq<int>, q: int): (r: seq<nat>)
    requires q > 0 && |f| <= |psi|
    ensures |r| == |f| && forall i :: 0 <= i < |f| ==> r[i] == Residue(ValueAtLeaf(psi, f, i), q)
  {
    seq(|f|, i requires 0 <= i < |f| => Residue(ValueAtLeaf(psi, f, i), q))
  }

  /** Sum of b[k] times the j-th power of the inverse of leaf root k, over lo <= k < hi. */
  function LeafSum(inv: seq<int>, b: seq<int>, j: nat, lo: nat, hi: nat): int
    requires lo <= hi <= |b| <= |inv|
  {
    if lo == hi then 0 else LeafSum(inv, b, j, lo, hi - 1) + b[hi - 1] * Pow(Rho(inv, |b| + hi - 1), j)
  }

  /** The inverse transform by the defining sum. */
  function Intt(inv: seq<int>, b: seq<int>, nInv: int, q: int): (r: seq<nat>)
    requires q > 0 && |b| <= |inv|
    ensures |r| == |b| && forall j :: 0 <= j < |b| ==> r[j] == MulMod(LeafSum(inv, b, j, 0, |b|), nInv, q)
  {
    seq(|b|, j requires 0 <= j < |b| => MulMod(LeafSum(inv, b, j, 0, |b|), nInv, q))
  }

  /** Products position by position, reduced. */
  function Pointwise(a: seq<int>, b: seq<int>, q: int): (r: seq<nat>)
    requires q > 0 && |a| == |b|
    ensures |r| == |a| && forall i :: 0 <= i < |a| ==> r[i] == MulMod(a[i], b[i], q)
  {
    seq(|a|, i requires 0 <= i < |a| => MulMod(a[i], b[i], q))
  }

  // ----- sums over the leaves below a node -----

  lemma {:induction false} LeafSumSplit(inv: seq<int>, b: seq<int>, j: nat, lo: nat, mid: nat, hi: nat)
    requires lo <= mid <= hi <= |b| <= |inv|
    ensures LeafSum(inv, b, j, lo, hi) == LeafSum(inv, b, j, lo, mid) + LeafSum(inv, b, j, mid, hi)
  {
    if mid < hi { LeafSumSplit(inv, b, j, lo, mid, hi - 1); }
  }

  lemma AddCongTerm(x: int, y: int, u: int, v: int, p: int, q: int)
    requires q > 0 && Cong(x, y, q) && Cong(u, v, q)
    ensures Cong(x + u * p, y + v * p, q)
  {
    hide Residue;
    CongMul(u, v, p, p, q);
    CongAdd(x, y, u * p, v * p, q);
  }

  lemma {:induction false} LeafSumCong(inv: seq<int>, b: seq<int>, c: seq<int>, j: nat, lo: nat, hi: nat, q: int)
    requires q > 0 && lo <= hi <= |b| <= |inv| && |c| == |b|
    requires forall k :: lo <= k < hi ==> Cong(b[k], c[k], q)
    ensures Cong(LeafSum(inv, b, j, lo, hi), LeafSum(inv, c, j, lo, hi), q)
  {
    if lo == hi {
      CongSame(0, q);
    } else {
      LeafSumCong(inv, b, c, j, lo, hi - 1, q);
      LastTerm(inv, b, j, lo, hi);
      LastTerm(inv, c, j, lo, hi);
      hide Cong, LeafSum, Pow, Rho;
      AddCongTerm(LeafSum(inv, b, j, lo, hi - 1), LeafSum(inv, c, j, lo, hi - 1), b[hi - 1], c[hi - 1],
                  Pow(Rho(inv, |b| + hi - 1), j), q);
    }
  }

  lemma CongSame(x: int, q: int)
    requires q > 0
    ensures Cong(x, x, q)
  {
  }

  lemma LastTerm(inv: seq<int>, b: seq<int>, j: nat, lo: nat, hi: nat)
    requires lo < hi <= |b| <= |inv|
    ensures LeafSum(inv, b, j, lo, hi) == LeafSum(inv, b, j, lo, hi - 1) + b[hi - 1] * Pow(Rho(inv, |b| + hi - 1), j)
  {
  }

  /** The inverse transform depends on the residues of its input only. */
  lemma InttCong(inv: seq<int>, b: seq<int>, c: seq<int>, nInv: int, q: int)
    requires q > 0 && |b| == |c| <= |inv| && forall k :: 0 <= k < |b| ==> Cong(b[k], c[k], q)
    ensures Intt(inv, b, nInv, q) == Intt(inv, c, nInv, q)
  {
    hide LeafSum, Residue;
    forall j | 0 <= j < |b| ensures Intt(inv, b, nInv, q)[j] == Intt(inv, c, nInv, q)[j] {
      LeafSumCong(inv, b, c, j, 0, |b|, q);
      CongMul(LeafSum(inv, b, j, 0, |b|), LeafSum(inv, c, j, 0, |b|), nInv, nInv, q);
    }
  }

  /** The leaves lo..lo + t are the leaves below tree node k. */
  predicate Below(n: nat, k: nat, t: nat, lo: nat) {
    PowerOfTwo(t) && 1 <= k && k * t == n + lo && lo + t <= n
  }

  lemma BelowChildren(n: nat, k: nat, t: nat, lo: nat)
    requires Below(n, k, 2 * t, lo)
    ensures Below(n, 2 * k, t, lo) && Below(n, 2 * k + 1, t, lo + t) && k < n
  {
    assert k * (2 * t) == (2 * k) * t == 2 * (k * t);
    assert (2 * k + 1) * t == (2 * k) * t + t;
    if k >= n { MulMonotone(n, k, t); }
  }

  lemma MulMonotone(x: nat, y: nat, t: nat)
    requires x <= y
    ensures x * t <= y * t
  {
  }

  lemma BelowRoot(n: nat)
    requires PowerOfTwo(n)
    ensures Below(n, 1, n, 0)
  {
    assert 1 * n == n;
  }

  lemma BelowLeaf(n: nat, i: nat)
    requires i < n
    ensures Below(n, n + i, 1, i)
  {
    assert (n + i) * 1 == n + i;
  }

  /** Adding t to the exponent multiplies the sum below node k by the inverse root of k. */
  lemma {:induction false} LeafSumShift(inv: seq<int>, b: seq<int>, j: nat, k: nat, t: nat, lo: nat, hi: nat, q: int)
    requires q > 0 && SquareRoots(inv, |b|, q) && Below(|b|, k, t, lo) && lo <= hi <= lo + t && k < 2 * |b|
    ensures Cong(LeafSum(inv, b, j + t, lo, hi), Rho(inv, k) * LeafSum(inv, b, j, lo, hi), q)
  {
    if lo < hi {
      LeafSumShift(inv, b, j, k, t, lo, hi - 1, q);
      var x := |b| + hi - 1;
      RhoPower(inv, |b|, k, t, hi - 1 - lo, x, q);
      PowAdd(Rho(inv, x), t, j);
      ShiftTerm(LeafSum(inv, b, j + t, lo, hi - 1), LeafSum(inv, b, j, lo, hi - 1), b[hi - 1],
                Pow(Rho(inv, x), t), Pow(Rho(inv, x), j), Rho(inv, k), q);
    }
  }

  lemma ShiftTerm(high: int, low: int, c: int, pt: int, pj: int, r: int, q: int)
    requires q > 0 && Cong(pt, r, q) && Cong(high, r * low, q)
    ensures Cong(high + c * (pt * pj), r * (low + c * pj), q)
  {
    CongMul(pt, r, c * pj, c * pj, q);
    assert c * (pt * pj) == pt * (c * pj);
    CongAdd(high, r * low, pt * (c * pj), r * (c * pj), q);
    assert r * (low + c * pj) == r * low + r * (c * pj);
  }

  // ----- one level of the tree -----

  /** Two values l and h and what a butterfly with root s makes of them. */
  lemma InverseButterfly(l: int, h: int, s: int, sInv: int, t: int, left: int, right: int, q: int)
    requires q > 0 && Cong(s * sInv, 1, q)
    requires Cong(left, t * (l + s * h), q) && Cong(right, t * (l + (-s) * h), q)
    ensures Cong(left + right, (2 * t) * l, q)
    ensures Cong(sInv * left + (-sInv) * right, (2 * t) * h, q)
  {
    CongAdd(left, t * (l + s * h), right, t * (l + (-s) * h), q);
    assert t * (l + s * h) + t * (l + (-s) * h) == (2 * t) * l by {
      assert (-s) * h == -(s * h);
      assert t * (l + s * h) + t * (l - s * h) == t * ((l + s * h) + (l - s * h));
    }
    CongSub(left, t * (l + s * h), right, t * (l + (-s) * h), q);
    CongMul(sInv, sInv, left - right, t * (l + s * h) - t * (l + (-s) * h), q);
    assert sInv * left + (-sInv) * right == sInv * (left - right);
    DifferenceTimesInverse(l, h, s, sInv, t, q);
  }

  lemma DifferenceTimesInverse(l: int, h: int, s: int, sInv: int, t: int, q: int)
    requires q > 0 && Cong(s * sInv, 1, q)
    ensures Cong(sInv * (t * (l + s * h) - t * (l + (-s) * h)), (2 * t) * h, q)
  {
    var sh, th := s * h, t * h;
    assert (-s) * h == -sh;
    assert t * (l + sh) - t * (l - sh) == t * ((l + sh) - (l - sh)) == 2 * (t * sh);
    assert t * sh == s * th;
    assert sInv * (2 * (s * th)) == (s * sInv) * (2 * th);
    CongMul(s * sInv, 1, 2 * th, 2 * th, q);
    assert (2 * t) * h == 2 * th;
  }

  // ----- the inverse transform of a transform -----

  /** Position i of b is, up to multiples of q, the value of f at leaf root i. */
  ghost predicate IsValueAt(psi: seq<int>, f: seq<int>, b: seq<int>, i: nat, q: int)
    requires q > 0 && i < |b| <= |psi|
  {
    Cong(b[i], Eval(f, Rho(psi, |b| + i)), q)
  }

  /** Coefficient j of the remainder of f at node k, times the width t, as a sum of values over leaves. */
  ghost predicate IsLeafSum(psi: seq<int>, inv: seq<int>, f: seq<int>, b: seq<int>,
                            k: nat, t: nat, lo: nat, j: nat, q: int)
    requires q > 0 && |b| <= |psi| && |b| <= |inv| && 1 <= k < 2 * |b| && 0 < t && lo + t <= |b|
  {
    Cong(LeafSum(inv, b, j, lo, lo + t), t * StrideEval(f, j, t, Rho(psi, k)), q)
  }

  /** If b holds the values of f at the leaf roots, sums over leaves are remainders of f, times the width. */
  lemma {:induction false} LeafSumOfValues(psi: seq<int>, inv: seq<int>, f: seq<int>, b: seq<int>,
                                           k: nat, t: nat, lo: nat, j: nat, q: int)
    requires q > 0 && |f| == |b| && IsRootTable(psi, inv, |b|, q)
    requires forall i :: 0 <= i < |b| ==> IsValueAt(psi, f, b, i, q)
    requires Below(|b|, k, t, lo) && k < 2 * |b| && j < t
    ensures IsLeafSum(psi, inv, f, b, k, t, lo, j, q)
    decreases t
  {
    hide Residue, LeafSum, StrideEval;
    if t == 1 {
      LeafSumAtLeaf(psi, inv, f, b, k, lo, q);
    } else {
      var h := t / 2;
      var c := if j < h then j else j - h;
      assert t == 2 * h;
      BelowChildren(|b|, k, h, lo);
      LeafSumOfValues(psi, inv, f, b, 2 * k, h, lo, c, q);
      LeafSumOfValues(psi, inv, f, b, 2 * k + 1, h, lo + h, c, q);
      LeafSumAtNode(psi, inv, f, b, k, h, lo, c, q);
    }
  }

  lemma LeafSumAtLeaf(psi: seq<int>, inv: seq<int>, f: seq<int>, b: seq<int>, k: nat, lo: nat, q: int)
    requires q > 0 && |b| <= |psi| && |b| <= |inv| && lo < |b| && k == |b| + lo && IsValueAt(psi, f, b, lo, q)
    ensures IsLeafSum(psi, inv, f, b, k, 1, lo, 0, q)
  {
    SingleLeaf(inv, b, lo);
  }

  lemma SingleLeaf(inv: seq<int>, b: seq<int>, lo: nat)
    requires lo < |b| <= |inv|
    ensures LeafSum(inv, b, 0, lo, lo + 1) == b[lo]
  {
    var x := Rho(inv, |b| + lo);
    assert Pow(x, 0) == 1;
    hide Pow;
    assert LeafSum(inv, b, 0, lo, lo) == 0;
    assert LeafSum(inv, b, 0, lo, lo + 1) == LeafSum(inv, b, 0, lo, lo) + b[lo] * Pow(x, 0);
  }

  /** From the two children of node k, of width h, to node k itself. */
  lemma LeafSumAtNode(psi: seq<int>, inv: seq<int>, f: seq<int>, b: seq<int>,
                      k: nat, h: nat, lo: nat, c: nat, q: int)
    requires q > 0 && IsRootTable(psi, inv, |b|, q) && Below(|b|, k, 2 * h, lo) && k < |b| && h > 0
    requires IsLeafSum(psi, inv, f, b, 2 * k, h, lo, c, q)
    requires IsLeafSum(psi, inv, f, b, 2 * k + 1, h, lo + h, c, q)
    ensures IsLeafSum(psi, inv, f, b, k, 2 * h, lo, c, q)
    ensures IsLeafSum(psi, inv, f, b, k, 2 * h, lo, c + h, q)
  {
    hide Residue, LeafSum, StrideEval;
    var s, t := psi[k], 2 * h;
    RemaindersAtChildren(psi, f, k, h, c, |b|, q);
    assert IsInverse(psi, inv, k, q);
    assert lo + h + h == lo + t;
    var left, right := LeafSum(inv, b, c, lo, lo + h), LeafSum(inv, b, c, lo + h, lo + t);
    var l, g := StrideEval(f, c, t, Rho(psi, k)), StrideEval(f, c + h, t, Rho(psi, k));
    assert Rho(psi, 2 * k) == s && Rho(psi, 2 * k + 1) == -s;
    CongMul(h, h, StrideEval(f, c, h, s), l + s * g, q);
    CongMul(h, h, StrideEval(f, c, h, -s), l + (-s) * g, q);
    InverseButterfly(l, g, s, inv[k], h, left, right, q);
    LeafSumSplit(inv, b, c, lo, lo + h, lo + t);
    InverseSquareRoots(psi, inv, |b|, q);
    LeafSumHigh(inv, b, c, k, h, lo, q);
  }

  /** The sums at exponent c + h, from those at exponent c. */
  lemma LeafSumHigh(inv: seq<int>, b: seq<int>, c: nat, k: nat, h: nat, lo: nat, q: int)
    requires q > 0 && SquareRoots(inv, |b|, q) && Below(|b|, k, 2 * h, lo)
    ensures k < |b|
    ensures Cong(LeafSum(inv, b, c + h, lo, lo + 2 * h),
                 inv[k] * LeafSum(inv, b, c, lo, lo + h) + (-inv[k]) * LeafSum(inv, b, c, lo + h, lo + 2 * h), q)
  {
    hide Residue, LeafSum, StrideEval;
    var mid, hi := lo + h, lo + 2 * h;
    BelowChildren(|b|, k, h, lo);
    LeafSumShift(inv, b, c, 2 * k, h, lo, mid, q);
    LeafSumShift(inv, b, c, 2 * k + 1, h, mid, hi, q);
    LeafSumSplit(inv, b, c + h, lo, mid, hi);
    var r := inv[k];
    var left, right := LeafSum(inv, b, c, lo, mid), LeafSum(inv, b, c, mid, hi);
    var left', right' := LeafSum(inv, b, c + h, lo, mid), LeafSum(inv, b, c + h, mid, hi);
    assert Rho(inv, 2 * k) == r && Rho(inv, 2 * k + 1) == -r;
    assert Cong(left', r * left, q);
    assert Cong(right', (-r) * right, q);
    CongAdd(left', r * left, right', (-r) * right, q);
  }

  /** Reducing the remainder at node k further, at its two children. */
  lemma RemaindersAtChildren(psi: seq<int>, f: seq<int>, k: nat, h: nat, c: nat, n: nat, q: int)
    requires q > 0 && SquareRoots(psi, n, q) && 1 <= k < n && h > 0
    ensures Cong(StrideEval(f, c, h, psi[k]),
                 StrideEval(f, c, 2 * h, Rho(psi, k)) + psi[k] * StrideEval(f, c + h, 2 * h, Rho(psi, k)), q)
    ensures Cong(StrideEval(f, c, h, -psi[k]),
                 StrideEval(f, c, 2 * h, Rho(psi, k)) + (-psi[k]) * StrideEval(f, c + h, 2 * h, Rho(psi, k)), q)
  {
    assert IsSquareRoot(psi, k, q);
    NegateProduct(psi[k], psi[k]);
    RemainderAtChild(f, c, h, psi[k], Rho(psi, k), q);
    RemainderAtChild(f, c, h, -psi[k], Rho(psi, k), q);
  }

  lemma RemainderAtChild(f: seq<int>, c: nat, h: nat, s: int, r: int, q: int)
    requires q > 0 && h > 0 && Cong(s * s, r, q)
    ensures Cong(StrideEval(f, c, h, s), StrideEval(f, c, 2 * h, r) + s * StrideEval(f, c + h, 2 * h, r), q)
  {
    StrideSplit(f, c, h, s);
    StrideCong(f, c, 2 * h, s * s, r, q);
    StrideCong(f, c + h, 2 * h, s * s, r, q);
    var x, y := StrideEval(f, c + h, 2 * h, s * s), StrideEval(f, c + h, 2 * h, r);
    CongMul(s, s, x, y, q);
    CongAdd(StrideEval(f, c, 2 * h, s * s), StrideEval(f, c, 2 * h, r), s * x, s * y, q);
  }

  /** Main result: the inverse transform of the transform of f is f, reduced modulo q. */
  lemma {:induction false} InverseOfForward(psi: seq<int>, inv: seq<int>, f: seq<int>, nInv: int, q: int)
    requires q > 0 && PowerOfTwo(|f|) && IsRootTable(psi, inv, |f|, q) && Cong(|f| * nInv, 1, q)
    ensures Intt(inv, Ntt(psi, f, q), nInv, q) == Reduce(f, q)
  {
    var n, b := |f|, Ntt(psi, f, q);
    BelowRoot(n);
    forall i | 0 <= i < n ensures IsValueAt(psi, f, b, i, q) {
      TransformIsValueAt(psi, f, i, q);
    }
    forall j | 0 <= j < n ensures Intt(inv, b, nInv, q)[j] == Reduce(f, q)[j] {
      LeafSumOfValues(psi, inv, f, b, 1, n, 0, j, q);
      InverseOfForwardAt(psi, inv, f, b, nInv, j, q);
    }
  }

  lemma InverseOfForwardAt(psi: seq<int>, inv: seq<int>, f: seq<int>, b: seq<int>, nInv: int, j: nat, q: int)
    requires q > 0 && j < |f| == |b| && |b| <= |psi| && |b| <= |inv| && Cong(|f| * nInv, 1, q)
    requires IsLeafSum(psi, inv, f, b, 1, |b|, 0, j, q)
    ensures Intt(inv, b, nInv, q)[j] == Reduce(f, q)[j]
  {
    RemainderAtRoot(psi, f, j);
    RemoveFactor(LeafSum(inv, b, j, 0, |b|), |b|, f[j], nInv, q);
  }

  lemma TransformIsValueAt(psi: seq<int>, f: seq<int>, i: nat, q: int)
    requires q > 0 && i < |f| <= |psi|
    ensures IsValueAt(psi, f, Ntt(psi, f, q), i, q)
  {
    CongMod(Eval(f, Rho(psi, |f| + i)), q);
  }

  lemma RemainderAtRoot(psi: seq<int>, f: seq<int>, j: nat)
    requires j < |f| && psi != []
    ensures StrideEval(f, j, |f|, Rho(psi, 1)) == f[j]
  {
    assert StrideEval(f, j, |f|, Rho(psi, 1)) == f[j] + Rho(psi, 1) * StrideEval(f, j + |f|, |f|, Rho(psi, 1));
  }

  lemma RemoveFactor(x: int, n: int, y: int, nInv: int, q: int)
    requires q > 0 && Cong(n * nInv, 1, q) && Cong(x, n * y, q)
    ensures Cong(x * nInv, y, q)
  {
    CongMul(x, n * y, nInv, nInv, q);
    CongMul(n * nInv, 1, y, y, q);
    assert (n * y) * nInv == (n * nInv) * y;
  }

  // ----- the transform of an inverse transform -----

  /** Times n, position i of r is the sum of b against the i-th powers of all inverse leaf roots. */
  ghost predicate IsInverseSum(inv: seq<int>, r: seq<int>, b: seq<int>, i: nat, q: int)
    requires q > 0 && i < |r| == |b| <= |inv|
  {
    Cong(|b| * r[i], LeafSum(inv, b, i, 0, |b|), q)
  }

  /** If r is the inverse transform of b, remainders of r times the width are sums of b over leaves. */
  lemma {:induction false} ValuesOfLeafSum(psi: seq<int>, inv: seq<int>, r: seq<int>, b: seq<int>,
                                           k: nat, t: nat, lo: nat, j: nat, nInv: int, q: int)
    requires q > 0 && |r| == |b| && IsRootTable(psi, inv, |b|, q) && PowerOfTwo(|b|) && Cong(|b| * nInv, 1, q)
    requires forall i :: 0 <= i < |b| ==> IsInverseSum(inv, r, b, i, q)
    requires Below(|b|, k, t, lo) && k < 2 * |b| && j < t <= |b|
    ensures IsLeafSum(psi, inv, r, b, k, t, lo, j, q)
    decreases |b| - t
  {
    var n := |b|;
    if t == n {
      RootOnly(n, k, lo);
      RemainderAtRoot(psi, r, j);
      assert IsInverseSum(inv, r, b, j, q);
    } else {
      var p, plo := k / 2, if k % 2 == 0 then lo else lo - t;
      ParentNode(n, k, t, lo);
      ValuesOfLeafSum(psi, inv, r, b, p, 2 * t, plo, j, nInv, q);
      ValuesOfLeafSum(psi, inv, r, b, p, 2 * t, plo, j + t, nInv, q);
      BelowChildren(n, p, t, plo);
      TwoIsInvertible(n, nInv, q);
      LeafSumAtChildren(psi, inv, r, b, p, t, plo, j, (n / 2) * nInv, q);
    }
  }

  /** From node k to its two children of width h, when 2 has an inverse. */
  lemma LeafSumAtChildren(psi: seq<int>, inv: seq<int>, r: seq<int>, b: seq<int>,
                          k: nat, h: nat, lo: nat, c: nat, half: int, q: int)
    requires q > 0 && IsRootTable(psi, inv, |b|, q) && Below(|b|, k, 2 * h, lo) && k < |b| && h > 0
    requires Cong(2 * half, 1, q)
    requires IsLeafSum(psi, inv, r, b, k, 2 * h, lo, c, q)
    requires IsLeafSum(psi, inv, r, b, k, 2 * h, lo, c + h, q)
    ensures IsLeafSum(psi, inv, r, b, 2 * k, h, lo, c, q)
    ensures IsLeafSum(psi, inv, r, b, 2 * k + 1, h, lo + h, c, q)
  {
    hide Residue, LeafSum, StrideEval;
    var s, t := psi[k], 2 * h;
    RemaindersAtChildren(psi, r, k, h, c, |b|, q);
    assert IsInverse(psi, inv, k, q);
    assert lo + h + h == lo + t;
    var left, right := LeafSum(inv, b, c, lo, lo + h), LeafSum(inv, b, c, lo + h, lo + t);
    var l, g := StrideEval(r, c, t, Rho(psi, k)), StrideEval(r, c + h, t, Rho(psi, k));
    assert Rho(psi, 2 * k) == s && Rho(psi, 2 * k + 1) == -s;
    LeafSumSplit(inv, b, c, lo, lo + h, lo + t);
    InverseSquareRoots(psi, inv, |b|, q);
    LeafSumHigh(inv, b, c, k, h, lo, q);
    ForwardButterfly(l, g, s, inv[k], h, left, right, half, q);
    ScaleCong(h, StrideEval(r, c, h, s), l + s * g, left, q);
    ScaleCong(h, StrideEval(r, c, h, -s), l + (-s) * g, right, q);
  }

  lemma ScaleCong(c: int, x: int, y: int, z: int, q: int)
    requires q > 0 && Cong(x, y, q) && Cong(c * y, z, q)
    ensures Cong(c * x, z, q)
  {
    CongMul(c, c, x, y, q);
  }

  lemma TwoIsInvertible(n: nat, nInv: int, q: int)
    requires q > 0 && PowerOfTwo(n) && n > 1 && Cong(n * nInv, 1, q)
    ensures Cong(2 * ((n / 2) * nInv), 1, q)
  {
    assert n * nInv == 2 * ((n / 2) * nInv);
  }

  lemma RootOnly(n: nat, k: nat, lo: nat)
    requires Below(n, k, n, lo)
    ensures k == 1 && lo == 0
  {
    if k >= 2 { MulMonotone(2, k, n); }
  }

  lemma ParentNode(n: nat, k: nat, t: nat, lo: nat)
    requires Below(n, k, t, lo) && k < 2 * n && t < n && PowerOfTwo(n)
    ensures k >= 2 && 2 * t <= n && (k % 2 == 1 ==> t <= lo)
    ensures Below(n, k / 2, 2 * t, if k % 2 == 0 then lo else lo - t)
  {
    var p := k / 2;
    var c := PowersNest(t, n);
    MulAtLeast(c, 2 * t);
    assert k != 1;
    ParentIndex(k, t);
    assert PowerOfTwo(2 * t) by { assert (2 * t) / 2 == t; }
    ParentInRange(n, p, c, t, if k % 2 == 0 then lo else lo - t);
  }

  lemma ParentIndex(k: nat, t: nat)
    ensures k * t == (k / 2) * (2 * t) + (if k % 2 == 0 then 0 else t)
  {
    var p := k / 2;
    assert p * (2 * t) == (2 * p) * t;
    if k % 2 == 1 { assert (2 * p + 1) * t == (2 * p) * t + t; }
  }

  lemma ParentInRange(n: nat, p: nat, c: nat, t: nat, lo: int)
    requires t > 0 && n == c * (2 * t) && p * (2 * t) == n + lo && 0 <= lo + t <= n
    ensures 0 <= lo && lo + 2 * t <= n
  {
    var d := p - c;
    assert d * (2 * t) == lo;
    if d < 0 {
      MulAtLeast(-d, 2 * t);
    }
    if d >= c {
      MulMonotone(c, d, 2 * t);
    } else {
      MulMonotone(d + 1, c, 2 * t);
    }
  }

  /** A smaller power of two divides half the larger one. */
  lemma {:induction false} PowersNest(t: nat, n: nat) returns (c: nat)
    requires PowerOfTwo(t) && PowerOfTwo(n) && t < n
    ensures n == c * (2 * t) && c >= 1
    decreases n
  {
    if t == 1 {
      c := n / 2;
    } else {
      var d := PowersNest(t / 2, n / 2);
      c := d;
      assert n == 2 * (d * (2 * (t / 2)));
    }
  }

  /** From twice the sums back to one of them. */
  lemma ForwardButterfly(l: int, h: int, s: int, sInv: int, t: int, left: int, right: int, half: int, q: int)
    requires q > 0 && Cong(s * sInv, 1, q) && Cong(2 * half, 1, q)
    requires Cong((2 * t) * l, left + right, q)
    requires Cong((2 * t) * h, sInv * left + (-sInv) * right, q)
    ensures Cong(t * (l + s * h), left, q)
    ensures Cong(t * (l + (-s) * h), right, q)
  {
    var diff := left - right;
    assert sInv * left + (-sInv) * right == sInv * diff;
    CongMul(s, s, (2 * t) * h, sInv * diff, q);
    assert s * (sInv * diff) == (s * sInv) * diff;
    CongMul(s * sInv, 1, diff, diff, q);
    // s * (2t * h) == left - right
    CongAdd((2 * t) * l, left + right, s * ((2 * t) * h), diff, q);
    CongSub((2 * t) * l, left + right, s * ((2 * t) * h), diff, q);
    DistributeButterfly(l, h, s, t);
    CongCancel(2, half, t * (l + s * h), left, q);
    CongCancel(2, half, t * (l + (-s) * h), right, q);
  }

  lemma DistributeButterfly(l: int, h: int, s: int, t: int)
    ensures (2 * t) * l + s * ((2 * t) * h) == 2 * (t * (l + s * h))
    ensures (2 * t) * l - s * ((2 * t) * h) == 2 * (t * (l + (-s) * h))
  {
    var sh := s * h;
    assert s * ((2 * t) * h) == (2 * t) * sh;
    assert (-s) * h == -sh;
    assert (2 * t) * l + (2 * t) * sh == (2 * t) * (l + sh) == 2 * (t * (l + sh));
    assert (2 * t) * l - (2 * t) * sh == (2 * t) * (l - sh) == 2 * (t * (l - sh));
  }

  /** Main result: every b, reduced modulo q, is the transform of its inverse transform. */
  lemma ForwardOfInverse(psi: seq<int>, inv: seq<int>, b: seq<int>, nInv: int, q: int)
    requires q > 0 && PowerOfTwo(|b|) && IsRootTable(psi, inv, |b|, q) && Cong(|b| * nInv, 1, q)
    ensures Ntt(psi, Intt(inv, b, nInv, q), q) == Reduce(b, q)
  {
    var n := |b|;
    var r: seq<int> := Intt(inv, b, nInv, q);
    forall i | 0 <= i < n ensures IsInverseSum(inv, r, b, i, q) {
      InverseSumAt(inv, b, i, nInv, q);
    }
    forall i | 0 <= i < n ensures Ntt(psi, r, q)[i] == Reduce(b, q)[i] {
      LeafValue(psi, inv, r, b, i, nInv, q);
      ForwardOfInverseAt(psi, inv, r, b, i, q);
    }
  }

  lemma LeafValue(psi: seq<int>, inv: seq<int>, r: seq<int>, b: seq<int>, i: nat, nInv: int, q: int)
    requires q > 0 && |r| == |b| && IsRootTable(psi, inv, |b|, q) && PowerOfTwo(|b|) && Cong(|b| * nInv, 1, q)
    requires forall k :: 0 <= k < |b| ==> IsInverseSum(inv, r, b, k, q)
    requires i < |b|
    ensures IsLeafSum(psi, inv, r, b, |b| + i, 1, i, 0, q)
  {
    BelowLeaf(|b|, i);
    ValuesOfLeafSum(psi, inv, r, b, |b| + i, 1, i, 0, nInv, q);
  }

  lemma ForwardOfInverseAt(psi: seq<int>, inv: seq<int>, r: seq<int>, b: seq<int>, i: nat, q: int)
    requires q > 0 && i < |r| == |b| && |b| <= |psi| && |b| <= |inv|
    requires IsLeafSum(psi, inv, r, b, |b| + i, 1, i, 0, q)
    ensures Ntt(psi, r, q)[i] == Reduce(b, q)[i]
  {
    SingleLeaf(inv, b, i);
  }

  lemma InverseSumAt(inv: seq<int>, b: seq<int>, i: nat, nInv: int, q: int)
    requires q > 0 && i < |b| <= |inv| && Cong(|b| * nInv, 1, q)
    ensures IsInverseSum(inv, Intt(inv, b, nInv, q), b, i, q)
  {
    RestoreFactor(LeafSum(inv, b, i, 0, |b|), |b|, Intt(inv, b, nInv, q)[i], nInv, q);
  }

  lemma RestoreFactor(x: int, n: int, y: int, nInv: int, q: int)
    requires q > 0 && Cong(n * nInv, 1, q) && y == MulMod(x, nInv, q)
    ensures Cong(n * y, x, q)
  {
    CongMod(x * nInv, q);
    CongMul(n, n, y, x * nInv, q);
    CongMul(n * nInv, 1, x, x, q);
    assert n * (x * nInv) == (n * nInv) * x;
  }

  // ----- convolution -----

  /** The transform of the negacyclic product is the pointwise product of the transforms. */
  lemma TransformOfProduct(psi: seq<int>, a: seq<int>, b: seq<int>, q: int)
    requires q > 0 && |a| == |b| && PowerOfTwo(|a|) && SquareRoots(psi, |a|, q)
    ensures Ntt(psi, NegacyclicProduct(a, b), q) == Pointwise(Ntt(psi, a, q), Ntt(psi, b, q), q)
  {
    forall i | 0 <= i < |a|
      ensures Ntt(psi, NegacyclicProduct(a, b), q)[i] == Pointwise(Ntt(psi, a, q), Ntt(psi, b, q), q)[i]
    {
      TransformOfProductAt(psi, a, b, i, q);
    }
  }

  lemma TransformOfProductAt(psi: seq<int>, a: seq<int>, b: seq<int>, i: nat, q: int)
    requires q > 0 && i < |a| == |b| && PowerOfTwo(|a|) && SquareRoots(psi, |a|, q)
    ensures Ntt(psi, NegacyclicProduct(a, b), q)[i] == Pointwise(Ntt(psi, a, q), Ntt(psi, b, q), q)[i]
  {
    hide Eval, TermSum, Residue, MulMod, NegacyclicProduct, Rho, Pow;
    LeafRoot(psi, |a|, i, q);
    EvalProduct(a, b, Rho(psi, |a| + i), q);
    ReducedProduct(ValueAtLeaf(psi, NegacyclicProduct(a, b), i), ValueAtLeaf(psi, a, i), ValueAtLeaf(psi, b, i), q);
  }

  lemma ReducedProduct(z: int, x: int, y: int, q: int)
    requires q > 0 && Cong(z, x * y, q)
    ensures Residue(z, q) == MulMod(Residue(x, q), Residue(y, q), q)
  {
    CongMod(x, q);
    CongMod(y, q);
    CongMul(Residue(x, q), x, Residue(y, q), y, q);
  }

  /** Main result: transform, multiply position by position, transform back: the negacyclic product. */
  lemma ConvolutionTheorem(psi: seq<int>, inv: seq<int>, a: seq<int>, b: seq<int>, nInv: int, q: int)
    requires q > 0 && |a| == |b| && PowerOfTwo(|a|) && IsRootTable(psi, inv, |a|, q) && Cong(|a| * nInv, 1, q)
    ensures Intt(inv, Pointwise(Ntt(psi, a, q), Ntt(psi, b, q), q), nInv, q) == Reduce(NegacyclicProduct(a, b), q)
  {
    TransformOfProduct(psi, a, b, q);
    InverseOfForward(psi, inv, NegacyclicProduct(a, b), nInv, q);
  }
}
