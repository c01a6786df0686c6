/**
 What the array holds after each stage of the in-place transforms. The forward
 transform with m blocks of width w holds, in every block, the remainder of the input
 modulo X^w minus the root of the block's tree node; the inverse transform holds sums
 over the leaves below the node.
 */
module NttStages {
  import opened ModArith
  import opened Polynomial
  import opened RootTable
  import opened NttSpec

  // ----- positions within blocks -----

  /** An array of length n seen as m blocks of width w. */
  predicate Layout(n: nat, m: nat, w: nat) {
    PowerOfTwo(m) && PowerOfTwo(w) && m * w == n
  }

  /** Block i of width w starts at lo. */
  predicate Starts(i: nat, w: nat, lo: nat) {
    lo == i * w
  }

  lemma LayoutBounds(n: nat, m: nat, w: nat)
    requires Layout(n, m, w)
    ensures 1 <= m <= n && 1 <= w <= n && (m == n <==> w == 1) && (m == 1 <==> w == n)
  {
    MulAtLeast(m, w);
    MulAtLeast(w, m);
    if w > 1 { MulMonotone(2, w, m); }
    if m > 1 { MulMonotone(2, m, w); }
  }

  lemma WholeArray(n: nat)
    requires PowerOfTwo(n)
    ensures Layout(n, 1, n) && Layout(n, n, 1)
  {
    assert 1 * n == n && n * 1 == n;
  }

  lemma HalveBlocks(n: nat, m: nat, w: nat)
    requires Layout(n, m, w) && w > 1
    ensures Layout(n, 2 * m, w / 2) && w == 2 * (w / 2) && 2 * m <= n
  {
    var h := w / 2;
    assert (2 * m) / 2 == m;
    assert (2 * m) * h == m * (2 * h);
    LayoutBounds(n, 2 * m, h);
  }

  lemma DoubleBlocks(n: nat, m: nat, w: nat)
    requires Layout(n, m, w) && m > 1
    ensures Layout(n, m / 2, 2 * w) && m == 2 * (m / 2) && 2 * w <= n
  {
    var h := m / 2;
    assert (2 * w) / 2 == w;
    assert (2 * h) * w == h * (2 * w);
    LayoutBounds(n, h, 2 * w);
  }

  /** The block of width w that position p lies in. */
  function BlockOf(p: nat, w: nat): nat
    requires w > 0
  {
    if p < w then 0 else 1 + BlockOf(p - w, w)
  }

  /** The place of position p within its block. */
  function OffsetOf(p: nat, w: nat): (c: nat)
    requires w > 0
    ensures c < w
  {
    if p < w then p else OffsetOf(p - w, w)
  }

  lemma {:induction false} BlockAndOffset(p: nat, i: nat, c: nat, w: nat)
    requires c < w && p == i * w + c
    ensures BlockOf(p, w) == i && OffsetOf(p, w) == c
  {
    if i > 0 {
      assert p - w == (i - 1) * w + c;
      BlockAndOffset(p - w, i - 1, c, w);
    }
  }

  lemma {:induction false} BlockIndex(p: nat, m: nat, w: nat)
    requires w > 0 && p < m * w
    ensures BlockOf(p, w) < m
  {
    if w <= p {
      assert (m - 1) * w == m * w - w;
      BlockIndex(p - w, m - 1, w);
    }
  }

  lemma BlockRange(n: nat, m: nat, w: nat, i: nat)
    requires Layout(n, m, w) && i < m
    ensures i * w + w <= n
  {
    MulMonotone(i + 1, m, w);
    assert (i + 1) * w == i * w + w;
  }

  /** A block of width 2t is a pair of neighbouring blocks of width t. */
  lemma Halves(i: nat, t: nat, lo: nat)
    requires Starts(i, 2 * t, lo)
    ensures Starts(2 * i, t, lo) && Starts(2 * i + 1, t, lo + t)
  {
    assert i * (2 * t) == (2 * i) * t;
    assert (2 * i + 1) * t == (2 * i) * t + t;
  }

  lemma FirstBlock(w: nat)
    ensures Starts(0, w, 0)
  {
  }

  /** Block i of width 2t fits in the array, and the next one starts where it ends. */
  lemma BlockFits(n: nat, m: nat, t: nat, i: nat, lo: nat)
    requires Layout(n, m, 2 * t) && i < m && Starts(i, 2 * t, lo)
    ensures t > 0 && m + i < 2 * m <= n && lo + 2 * t <= n
    ensures Starts(i + 1, 2 * t, lo + 2 * t)
  {
    LayoutBounds(n, m, 2 * t);
    MulMonotone(i + 1, m, 2 * t);
    assert (i + 1) * (2 * t) == i * (2 * t) + 2 * t;
    MulMonotone(2, 2 * t, m);
  }

  /** The start of block i as the forward loops compute it. */
  lemma BlockStart(i: nat, t: nat, lo: nat)
    requires Starts(i, 2 * t, lo)
    ensures (i * t) * 2 == lo
  {
  }

  lemma AllBlocks(n: nat, m: nat, w: nat, lo: nat)
    requires Layout(n, m, w) && Starts(m, w, lo)
    ensures lo == n
  {
  }

  // ----- forward stages -----

  /** The coefficient held at position p when there are m blocks of width w. */
  ghost function Remainder(psi: seq<int>, f: seq<int>, m: nat, w: nat, p: nat): int
    requires Layout(|f|, m, w) && |f| <= |psi| && p < |f|
  {
    LayoutBounds(|f|, m, w);
    BlockIndex(p, m, w);
    StrideEval(f, OffsetOf(p, w), w, Rho(psi, m + BlockOf(p, w)))
  }

  ghost function ForwardStage(psi: seq<int>, f: seq<int>, m: nat, w: nat): (s: seq<int>)
    requires Layout(|f|, m, w) && |f| <= |psi|
    ensures |s| == |f|
  {
    seq(|f|, p requires 0 <= p < |f| => Remainder(psi, f, m, w, p))
  }

  /** What one butterfly with root s must make of the values u and v. */
  ghost predicate IsButterfly(u: int, v: int, s: int, u': int, v': int, q: nat)
    requires q > 0
  {
    Cong(u', u + s * v, q) && Cong(v', u + (-s) * v, q)
  }

  /** From one forward stage to the next, each pair of positions at distance t goes through a butterfly. */
  lemma ForwardStageStep(psi: seq<int>, f: seq<int>, m: nat, t: nat, i: nat, lo: nat, q: nat)
    requires q > 0 && SquareRoots(psi, |f|, q) && Layout(|f|, m, 2 * t) && Layout(|f|, 2 * m, t)
    requires i < m && m + i < |f| && Starts(i, 2 * t, lo) && lo + 2 * t <= |f|
    ensures forall j :: lo <= j < lo + t ==>
              IsButterfly(ForwardStage(psi, f, m, 2 * t)[j], ForwardStage(psi, f, m, 2 * t)[j + t], psi[m + i],
                          ForwardStage(psi, f, 2 * m, t)[j], ForwardStage(psi, f, 2 * m, t)[j + t], q)
  {
    hide Residue, StrideEval, ForwardStage, Layout, Starts, Rho;
    forall j | lo <= j < lo + t
      ensures IsButterfly(ForwardStage(psi, f, m, 2 * t)[j], ForwardStage(psi, f, m, 2 * t)[j + t], psi[m + i],
                          ForwardStage(psi, f, 2 * m, t)[j], ForwardStage(psi, f, 2 * m, t)[j + t], q)
    {
      ForwardStageAt(psi, f, m, t, i, lo, j - lo, j);
      RemaindersAtChildren(psi, f, m + i, t, j - lo, |f|, q);
    }
  }

  lemma RemainderAt(psi: seq<int>, f: seq<int>, m: nat, w: nat, i: nat, lo: nat, c: nat)
    requires Layout(|f|, m, w) && |f| <= |psi| && Starts(i, w, lo) && i < m && c < w && lo + c < |f|
    ensures 1 <= m + i && (m + i) / 2 < |psi|
    ensures ForwardStage(psi, f, m, w)[lo + c] == StrideEval(f, c, w, Rho(psi, m + i))
  {
    hide StrideEval;
    BlockAndOffset(lo + c, i, c, w);
    LayoutBounds(|f|, m, w);
  }

  /**
   Each block of a forward stage is the remainder of the input by X^w minus the root of its node:
   the input is the block plus a multiple of that divisor, whatever the variable stands for.
   */
  lemma BlockIsRemainder(psi: seq<int>, f: seq<int>, m: nat, w: nat, i: nat, lo: nat, x: int)
    requires Layout(|f|, m, w) && |f| <= |psi| && Starts(i, w, lo) && i < m && lo + w <= |f|
    ensures 1 <= m + i && (m + i) / 2 < |psi| && w > 0
    ensures Eval(f, x) == Eval(ForwardStage(psi, f, m, w)[lo..lo + w], x)
                          + (Pow(x, w) - Rho(psi, m + i)) * QuotientEval(f, 0, w, Rho(psi, m + i), x)
  {
    hide StrideEval, QuotientEval, ForwardStage, Pow;
    LayoutBounds(|f|, m, w);
    RemainderAt(psi, f, m, w, i, lo, 0);
    var block := ForwardStage(psi, f, m, w)[lo..lo + w];
    forall c | 0 <= c < w ensures block[c] == StrideEval(f, c, w, Rho(psi, m + i)) {
      RemainderAt(psi, f, m, w, i, lo, c);
      assert block[c] == ForwardStage(psi, f, m, w)[lo + c];
    }
    StridesAreRemainder(f, block, w, Rho(psi, m + i), x);
  }

  lemma ForwardStageAt(psi: seq<int>, f: seq<int>, m: nat, t: nat, i: nat, lo: nat, c: nat, p: nat)
    requires Layout(|f|, m, 2 * t) && Layout(|f|, 2 * m, t) && |f| <= |psi| && 1 <= m
    requires i < m && m + i < |f| && c < t && Starts(i, 2 * t, lo) && p == lo + c && p + t < |f|
    ensures ForwardStage(psi, f, m, 2 * t)[p] == StrideEval(f, c, 2 * t, Rho(psi, m + i))
    ensures ForwardStage(psi, f, m, 2 * t)[p + t] == StrideEval(f, c + t, 2 * t, Rho(psi, m + i))
    ensures ForwardStage(psi, f, 2 * m, t)[p] == StrideEval(f, c, t, psi[m + i])
    ensures ForwardStage(psi, f, 2 * m, t)[p + t] == StrideEval(f, c, t, -psi[m + i])
  {
    hide StrideEval, Layout, Starts, ForwardStage, Rho;
    Halves(i, t, lo);
    RemainderAt(psi, f, m, 2 * t, i, lo, c);
    RemainderAt(psi, f, m, 2 * t, i, lo, c + t);
    RemainderAt(psi, f, 2 * m, t, 2 * i, lo, c);
    RemainderAt(psi, f, 2 * m, t, 2 * i + 1, lo + t, c);
    assert p + t == lo + (c + t) == (lo + t) + c;
    assert 2 * m + 2 * i == 2 * (m + i) && 2 * m + (2 * i + 1) == 2 * (m + i) + 1;
    RhoChildren(psi, m + i);
  }

  /** Before the first stage the array holds the input itself. */
  lemma ForwardStart(psi: seq<nat>, s: seq<nat>, q: nat)
    requires q > 0 && PowerOfTwo(|s|) && |s| <= |psi|
    ensures Layout(|s|, 1, |s|) && StageHeld(s, ForwardStage(psi, s, 1, |s|), q)
  {
    WholeArray(|s|);
    forall p | 0 <= p < |s| ensures ForwardStage(psi, s, 1, |s|)[p] == s[p] {
      BlockAndOffset(p, 0, p, |s|);
      RemainderAtRoot(psi, s, p);
    }
  }

  /** What the forward transform leaves in the array: a single coefficient is not even reduced. */
  function ForwardResult(psi: seq<int>, f: seq<nat>, q: nat): (r: seq<nat>)
    requires q > 0 && |f| <= |psi|
    ensures |r| == |f|
  {
    if |f| == 1 then f else Ntt(psi, f, q)
  }

  /** After the last stage the array holds the values at the leaf roots. */
  lemma ForwardEnd(psi: seq<nat>, f: seq<nat>, s: seq<nat>, m: nat, w: nat, q: nat)
    requires q > 0 && |f| <= |psi| && m == |f| && Layout(|f|, m, w)
    requires StageHeld(s, ForwardStage(psi, f, m, w), q)
    requires if m == 1 then s == f else AllBelow(s, q)
    ensures s == ForwardResult(psi, f, q)
  {
    LayoutBounds(|f|, m, w);
    if m > 1 {
      forall p | 0 <= p < |s| ensures s[p] == Residue(ValueAtLeaf(psi, f, p), q) {
        BlockAndOffset(p, p, 0, 1);
        assert Cong(s[p], ForwardStage(psi, f, m, w)[p], q);
        DivModUnique(s[p], 0, s[p], q);
      }
    }
  }

  lemma ForwardResultReduced(psi: seq<int>, f: seq<nat>, q: nat)
    requires q > 0 && 1 <= |f| <= |psi|
    ensures Reduce(ForwardResult(psi, f, q), q) == Ntt(psi, f, q)
  {
    if |f| == 1 {
      EvalSingleton(f[0], Rho(psi, 1));
      assert f == [f[0]];
      assert ValueAtLeaf(psi, f, 0) == f[0];
    } else {
      forall i | 0 <= i < |f| ensures Residue(Ntt(psi, f, q)[i], q) == Ntt(psi, f, q)[i] {
        DivModUnique(Ntt(psi, f, q)[i], 0, Ntt(psi, f, q)[i], q);
      }
    }
  }

  /** The butterfly of the code computes one, on any representatives. */
  lemma ForwardButterflyStep(u: int, v: int, s: int, oldU: int, oldV: int, newU: int, newV: int, q: nat)
    requires q > 0 && Cong(u, oldU, q) && Cong(v, oldV, q) && IsButterfly(oldU, oldV, s, newU, newV, q)
    ensures Cong(AddMod(u, MulMod(v, s, q), q), newU, q)
    ensures Cong(AddMod(u, q - MulMod(v, s, q), q), newV, q)
  {
    var w := MulMod(v, s, q);
    CongMod(v * s, q);
    CongMul(v, oldV, s, s, q);
    assert Cong(w, s * oldV, q);
    CongAdd(u, oldU, w, s * oldV, q);
    CongMod(u + w, q);
    CongSub(u, oldU, w, s * oldV, q);
    CongFromMultiple(u + (q - w), u - w, 1, q);
    CongMod(u + (q - w), q);
    assert oldU - s * oldV == oldU + (-s) * oldV;
  }

  // ----- inverse stages -----

  /** The sum held at position p when there are m blocks of width w. */
  ghost function BlockSum(inv: seq<int>, b: seq<int>, m: nat, w: nat, p: nat): int
    requires Layout(|b|, m, w) && |b| <= |inv| && p < |b|
  {
    LayoutBounds(|b|, m, w);
    BlockIndex(p, m, w);
    BlockRange(|b|, m, w, BlockOf(p, w));
    var lo := BlockOf(p, w) * w;
    LeafSum(inv, b, OffsetOf(p, w), lo, lo + w)
  }

  ghost function InverseStage(inv: seq<int>, b: seq<int>, m: nat, w: nat): (s: seq<int>)
    requires Layout(|b|, m, w) && |b| <= |inv|
    ensures |s| == |b|
  {
    seq(|b|, p requires 0 <= p < |b| => BlockSum(inv, b, m, w, p))
  }

  /** What one inverse butterfly with inverse root s must make of the values u and v. */
  ghost predicate IsInverseButterfly(u: int, v: int, s: int, u': int, v': int, q: nat)
    requires q > 0
  {
    Cong(u', u + v, q) && Cong(v', s * u + (-s) * v, q)
  }

  /** From one inverse stage to the next, each pair of positions at distance t goes through an inverse butterfly. */
  lemma InverseStageStep(inv: seq<int>, b: seq<int>, h: nat, t: nat, i: nat, lo: nat, q: nat)
    requires q > 0 && SquareRoots(inv, |b|, q) && Layout(|b|, h, 2 * t) && Layout(|b|, 2 * h, t)
    requires i < h && h + i < |b| && Starts(i, 2 * t, lo) && lo + 2 * t <= |b|
    ensures forall j :: lo <= j < lo + t ==>
              IsInverseButterfly(InverseStage(inv, b, 2 * h, t)[j], InverseStage(inv, b, 2 * h, t)[j + t], inv[h + i],
                                 InverseStage(inv, b, h, 2 * t)[j], InverseStage(inv, b, h, 2 * t)[j + t], q)
  {
    hide Residue, LeafSum, Below, InverseStage, Layout, Starts, Rho;
    BlockBelow(|b|, h, t, i, lo);
    forall j | lo <= j < lo + t
      ensures IsInverseButterfly(InverseStage(inv, b, 2 * h, t)[j], InverseStage(inv, b, 2 * h, t)[j + t], inv[h + i],
                                 InverseStage(inv, b, h, 2 * t)[j], InverseStage(inv, b, h, 2 * t)[j + t], q)
    {
      var c := j - lo;
      InverseStageAt(inv, b, h, t, i, lo, c, j);
      LeafSumSplit(inv, b, c, lo, lo + t, lo + 2 * t);
      LeafSumHigh(inv, b, c, h + i, t, lo, q);
    }
  }

  lemma BlockBelow(n: nat, h: nat, t: nat, i: nat, lo: nat)
    requires Layout(n, h, 2 * t) && i < h && Starts(i, 2 * t, lo) && lo + 2 * t <= n
    ensures Below(n, h + i, 2 * t, lo)
  {
    assert (h + i) * (2 * t) == h * (2 * t) + i * (2 * t);
  }

  lemma BlockSumAt(inv: seq<int>, b: seq<int>, m: nat, w: nat, i: nat, lo: nat, c: nat)
    requires Layout(|b|, m, w) && |b| <= |inv| && Starts(i, w, lo) && i < m && c < w && lo + w <= |b|
    ensures InverseStage(inv, b, m, w)[lo + c] == LeafSum(inv, b, c, lo, lo + w)
  {
    hide LeafSum;
    BlockAndOffset(lo + c, i, c, w);
  }

  lemma InverseStageAt(inv: seq<int>, b: seq<int>, h: nat, t: nat, i: nat, lo: nat, c: nat, p: nat)
    requires Layout(|b|, h, 2 * t) && Layout(|b|, 2 * h, t) && |b| <= |inv|
    requires i < h && c < t && Starts(i, 2 * t, lo) && p == lo + c && lo + 2 * t <= |b|
    ensures InverseStage(inv, b, 2 * h, t)[p] == LeafSum(inv, b, c, lo, lo + t)
    ensures InverseStage(inv, b, 2 * h, t)[p + t] == LeafSum(inv, b, c, lo + t, lo + 2 * t)
    ensures InverseStage(inv, b, h, 2 * t)[p] == LeafSum(inv, b, c, lo, lo + 2 * t)
    ensures InverseStage(inv, b, h, 2 * t)[p + t] == LeafSum(inv, b, c + t, lo, lo + 2 * t)
  {
    hide LeafSum, Layout, Starts, InverseStage;
    Halves(i, t, lo);
    BlockSumAt(inv, b, 2 * h, t, 2 * i, lo, c);
    BlockSumAt(inv, b, 2 * h, t, 2 * i + 1, lo + t, c);
    BlockSumAt(inv, b, h, 2 * t, i, lo, c);
    BlockSumAt(inv, b, h, 2 * t, i, lo, c + t);
    assert p + t == lo + (c + t) == (lo + t) + c && lo + t + t == lo + 2 * t;
  }

  lemma InverseStart(inv: seq<nat>, s: seq<nat>, q: nat)
    requires q > 0 && PowerOfTwo(|s|) && |s| <= |inv|
    ensures Layout(|s|, |s|, 1) && StageHeld(s, InverseStage(inv, s, |s|, 1), q)
  {
    WholeArray(|s|);
    forall p | 0 <= p < |s| ensures InverseStage(inv, s, |s|, 1)[p] == s[p] {
      BlockAndOffset(p, p, 0, 1);
      SingleLeaf(inv, s, p);
    }
  }

  /** After the last stage it holds sums over all leaves. */
  lemma InverseEnd(inv: seq<nat>, b: seq<int>, s: seq<nat>, m: nat, w: nat, q: nat)
    requires q > 0 && |b| <= |inv| && m == 1 && Layout(|b|, m, w)
    requires StageHeld(s, InverseStage(inv, b, m, w), q)
    ensures |s| == |b| && forall p :: 0 <= p < |s| ==> Cong(s[p], LeafSum(inv, b, p, 0, |b|), q)
  {
    LayoutBounds(|b|, m, w);
    forall p | 0 <= p < |s| ensures Cong(s[p], LeafSum(inv, b, p, 0, |b|), q) {
      BlockAndOffset(p, 0, p, |b|);
      assert Cong(s[p], InverseStage(inv, b, m, w)[p], q);
    }
  }

  lemma InverseButterflyStep(u: int, v: int, s: int, oldU: int, oldV: int, newU: int, newV: int, q: nat)
    requires q > 0 && Cong(u, oldU, q) && Cong(v, oldV, q) && IsInverseButterfly(oldU, oldV, s, newU, newV, q)
    ensures Cong(AddMod(u, v, q), newU, q)
    ensures Cong(MulMod(AddMod(u, q - v, q), s, q), newV, q)
  {
    CongAdd(u, oldU, v, oldV, q);
    CongMod(u + v, q);
    CongSub(u, oldU, v, oldV, q);
    CongFromMultiple(u + (q - v), u - v, 1, q);
    CongMod(u + (q - v), q);
    var d := AddMod(u, q - v, q);
    CongMul(d, oldU - oldV, s, s, q);
    CongMod(d * s, q);
    assert (oldU - oldV) * s == s * oldU + (-s) * oldV;
  }

  // ----- progress of one stage through the array -----

  /** Every entry of s represents the entry of stage at the same position. */
  ghost predicate StageHeld(s: seq<nat>, stage: seq<int>, q: nat)
    requires q > 0
  {
    |s| == |stage| && forall p :: 0 <= p < |s| ==> Cong(s[p], stage[p], q)
  }

  predicate AllBelow(s: seq<nat>, q: nat) {
    forall p :: 0 <= p < |s| ==> s[p] < q
  }

  /** In the block that starts at j1 the butterflies below j are done; earlier blocks are done completely. */
  predicate Done(p: nat, j1: nat, j: nat, t: nat) {
    p < j || j1 + t <= p < j + t
  }

  ghost predicate InStage(x: nat, before: int, after: int, done: bool, q: nat)
    requires q > 0
  {
    if done then x < q && Cong(x, after, q) else Cong(x, before, q)
  }

  /** The array part-way through a stage. */
  ghost predicate Progress(s: seq<nat>, before: seq<int>, after: seq<int>, j1: nat, j: nat, t: nat, q: nat)
    requires q > 0
  {
    && |s| == |before| == |after|
    && j1 <= j <= j1 + t
    && forall p :: 0 <= p < |s| ==> InStage(s[p], before[p], after[p], Done(p, j1, j, t), q)
  }

  lemma StageStart(s: seq<nat>, before: seq<int>, after: seq<int>, t: nat, q: nat)
    requires q > 0 && StageHeld(s, before, q) && |after| == |s|
    ensures Progress(s, before, after, 0, 0, t, q)
  {
  }

  lemma NextBlock(s: seq<nat>, before: seq<int>, after: seq<int>, j1: nat, t: nat, q: nat)
    requires q > 0 && Progress(s, before, after, j1, j1 + t, t, q)
    ensures Progress(s, before, after, j1 + 2 * t, j1 + 2 * t, t, q)
  {
    hide Residue;
    forall p | 0 <= p < |s| ensures InStage(s[p], before[p], after[p], Done(p, j1 + 2 * t, j1 + 2 * t, t), q) {
      assert InStage(s[p], before[p], after[p], Done(p, j1, j1 + t, t), q);
    }
  }

  lemma StageEnd(s: seq<nat>, before: seq<int>, after: seq<int>, t: nat, q: nat)
    requires q > 0 && Progress(s, before, after, |s|, |s|, t, q)
    ensures StageHeld(s, after, q) && AllBelow(s, q)
  {
    hide Residue;
    forall p | 0 <= p < |s| ensures Cong(s[p], after[p], q) && s[p] < q {
      assert InStage(s[p], before[p], after[p], Done(p, |s|, |s|, t), q);
    }
  }

  /** The array after the two stores of a butterfly. */
  function StorePair(s: seq<nat>, j: nat, t: nat, x: nat, y: nat): (r: seq<nat>)
    requires t > 0 && j + t < |s|
    ensures |r| == |s|
  {
    s[j := x][j + t := y]
  }

  lemma PairStored(s: seq<nat>, before: seq<int>, after: seq<int>, j1: nat, j: nat, t: nat, x: nat, y: nat, q: nat)
    requires q > 0 && Progress(s, before, after, j1, j, t, q) && j < j1 + t && j + t < |s|
    requires x < q && Cong(x, after[j], q) && y < q && Cong(y, after[j + t], q)
    ensures Progress(StorePair(s, j, t, x, y), before, after, j1, j + 1, t, q)
    ensures AllBelow(s, q) ==> AllBelow(StorePair(s, j, t, x, y), q)
  {
    hide Residue;
    var r := StorePair(s, j, t, x, y);
    forall p | 0 <= p < |s| ensures InStage(r[p], before[p], after[p], Done(p, j1, j + 1, t), q) {
      assert InStage(s[p], before[p], after[p], Done(p, j1, j, t), q);
    }
  }

  /** One forward butterfly keeps the stage in progress. */
  lemma ForwardPair(s: seq<nat>, before: seq<int>, after: seq<int>, j1: nat, j: nat, t: nat, S: nat, q: nat)
    requires q > 0 && Progress(s, before, after, j1, j, t, q) && j < j1 + t && j + t < |s|
    requires IsButterfly(before[j], before[j + t], S, after[j], after[j + t], q)
    ensures var V := MulMod(s[j + t], S, q);
            var r := StorePair(s, j, t, AddMod(s[j], V, q), AddMod(s[j], q - V, q));
            Progress(r, before, after, j1, j + 1, t, q) && (AllBelow(s, q) ==> AllBelow(r, q))
  {
    hide Residue, MulMod, AddMod, IsButterfly;
    var V := MulMod(s[j + t], S, q);
    assert InStage(s[j], before[j], after[j], Done(j, j1, j, t), q);
    assert InStage(s[j + t], before[j + t], after[j + t], Done(j + t, j1, j, t), q);
    ForwardButterflyStep(s[j], s[j + t], S, before[j], before[j + t], after[j], after[j + t], q);
    PairStored(s, before, after, j1, j, t, AddMod(s[j], V, q), AddMod(s[j], q - V, q), q);
  }

  /** One inverse butterfly keeps the stage in progress. */
  lemma InversePair(s: seq<nat>, before: seq<int>, after: seq<int>, j1: nat, j: nat, t: nat, S: nat, q: nat)
    requires q > 0 && Progress(s, before, after, j1, j, t, q) && j < j1 + t && j + t < |s|
    requires IsInverseButterfly(before[j], before[j + t], S, after[j], after[j + t], q)
    ensures var U, V := s[j], s[j + t];
            var r := StorePair(s, j, t, AddMod(U, V, q), MulMod(AddMod(U, q - V, q), S, q));
            Progress(r, before, after, j1, j + 1, t, q) && (AllBelow(s, q) ==> AllBelow(r, q))
  {
    hide Residue, MulMod, AddMod, IsInverseButterfly;
    var U, V := s[j], s[j + t];
    assert InStage(U, before[j], after[j], Done(j, j1, j, t), q);
    assert InStage(V, before[j + t], after[j + t], Done(j + t, j1, j, t), q);
    InverseButterflyStep(U, V, S, before[j], before[j + t], after[j], after[j + t], q);
    PairStored(s, before, after, j1, j, t, AddMod(U, V, q), MulMod(AddMod(U, q - V, q), S, q), q);
  }

  // ----- what the checked inverse transform can run on -----

  /** The entries the first inverse stage subtracts from q are at most q. */
  predicate CanSubtract(s: seq<nat>, q: nat) {
    forall p :: 0 <= p < |s| && p % 2 == 1 ==> s[p] <= q
  }

  /** In the first stage, the blocks before j1 could be subtracted and the rest is untouched. */
  predicate Subtractable(now: seq<nat>, was: seq<nat>, j1: nat, t: nat, q: nat) {
    && |now| == |was| && j1 <= |was|
    && (t != 1 ==> AllBelow(now, q))
    && (t == 1 ==>
          && j1 % 2 == 0
          && (forall p :: 0 <= p < j1 && p % 2 == 1 ==> was[p] <= q)
          && (forall p :: j1 <= p < |was| ==> now[p] == was[p]))
  }

  lemma SubtractableStart(s: seq<nat>, t: nat, q: nat)
    requires t == 1 || AllBelow(s, q)
    ensures Subtractable(s, s, 0, t, q)
  {
  }

  lemma SubtractableNext(now: seq<nat>, next: seq<nat>, was: seq<nat>, j1: nat, t: nat, q: nat)
    requires Subtractable(now, was, j1, t, q) && |next| == |now| && t > 0 && j1 + 2 * t <= |now|
    requires forall j :: j1 + t <= j < j1 + 2 * t ==> now[j] <= q
    requires AllBelow(now, q) ==> AllBelow(next, q)
    requires forall p :: j1 + 2 * t <= p < |now| ==> next[p] == now[p]
    ensures Subtractable(next, was, j1 + 2 * t, t, q)
  {
    if t == 1 { assert now[j1 + 1] <= q; }
  }

  lemma CannotSubtract(now: seq<nat>, was: seq<nat>, j1: nat, t: nat, q: nat)
    requires Subtractable(now, was, j1, t, q) && t > 0 && j1 + 2 * t <= |now|
    requires exists j :: j1 + t <= j < j1 + 2 * t && now[j] > q
    ensures t == 1 && !CanSubtract(was, q)
  {
    var j :| j1 + t <= j < j1 + 2 * t && now[j] > q;
    if t == 1 { assert j == j1 + 1 && was[j] > q; }
  }

  lemma AllSubtracted(now: seq<nat>, was: seq<nat>, t: nat, q: nat)
    requires Subtractable(now, was, |was|, t, q)
    ensures t == 1 ==> CanSubtract(was, q)
  {
  }

  lemma ScaledSum(x: nat, sum: int, nInv: int, q: nat)
    requires q > 0 && Cong(x, sum, q)
    ensures MulMod(x, nInv, q) == MulMod(sum, nInv, q)
  {
    CongMul(x, sum, nInv, nInv, q);
  }

  /** Multiplying representatives gives the same reduced products as multiplying reduced values. */
  lemma PointwiseOfReduced(a: seq<int>, b: seq<int>, q: nat)
    requires q > 0 && |a| == |b|
    ensures Pointwise(a, b, q) == Pointwise(Reduce(a, q), Reduce(b, q), q)
    ensures Pointwise(a, b, q) == Pointwise(Reduce(a, q), b, q)
  {
    forall i | 0 <= i < |a|
      ensures MulMod(a[i], b[i], q) == MulMod(Residue(a[i], q), Residue(b[i], q), q)
      ensures MulMod(a[i], b[i], q) == MulMod(Residue(a[i], q), b[i], q)
    {
      CongMod(a[i], q);
      CongMod(b[i], q);
      CongMul(a[i], Residue(a[i], q), b[i], Residue(b[i], q), q);
      CongMul(a[i], Residue(a[i], q), b[i], b[i], q);
    }
  }

  lemma PointwiseOfReducedRight(a: seq<int>, b: seq<int>, q: nat)
    requires q > 0 && |a| == |b|
    ensures Pointwise(a, b, q) == Pointwise(a, Reduce(b, q), q)
  {
    forall i | 0 <= i < |a| ensures MulMod(a[i], b[i], q) == MulMod(a[i], Residue(b[i], q), q) {
      CongMod(b[i], q);
      CongMul(a[i], a[i], b[i], Residue(b[i], q), q);
    }
  }
}
