/** The Solidity transforms: checked arithmetic on memory arrays, tables taken from storage. */
module ZknoxNtt {
  import opened Evm
  import opened ModArith
  import opened Polynomial
  import opened RootTable
  import opened NttStages
  import NttSpec
  import ZknoxNttAssembly

  // ----- the settings of the stateful functions -----

  /** The tables, read as the code of their contracts, the modulus and the factor. */
  datatype Settings = Settings(psiCode: seq<Word>, psiInvCode: seq<Word>, q: Word, nm1modq: Word)

  datatype Call = Update(settings: Settings) | MakeImmutable

  /** The settings of the last update among the calls. */
  function LastUpdate(was: Settings, calls: seq<Call>): Settings {
    if calls == [] then was
    else
      var last := calls[|calls| - 1];
      if last.Update? then last.settings else LastUpdate(was, calls[..|calls| - 1])
  }

  class Ntt {
    // the tables in storage, used by the stateless functions
    const psiRev: seq<nat>
    const psiInvRev: seq<nat>
    // the code of the two table contracts, used by the stateful functions
    var psiCode: seq<Word>
    var psiInvCode: seq<Word>
    var storageQ: Word
    var storageNm1modq: Word
    var isImmutable: Word

    constructor (psiRev: seq<nat>, psiInvRev: seq<nat>, psiCode: seq<Word>, psiInvCode: seq<Word>,
                 q: Word, nm1modq: Word)
      ensures this.psiRev == psiRev && this.psiInvRev == psiInvRev
      ensures this.psiCode == psiCode && this.psiInvCode == psiInvCode
      ensures storageQ == q && storageNm1modq == nm1modq && isImmutable == 1
    {
      this.psiRev, this.psiInvRev := psiRev, psiInvRev;
      this.psiCode, this.psiInvCode := psiCode, psiInvCode;
      storageQ, storageNm1modq := q, nm1modq;
      isImmutable := 1;
    }

    function Stored(): Settings
      reads this
    {
      Settings(psiCode, psiInvCode, storageQ, storageNm1modq)
    }

    method Update(settings: Settings)
      modifies this
      ensures Stored() == (if old(isImmutable) > 0 then settings else old(Stored()))
      ensures isImmutable == old(isImmutable)
    {
      if isImmutable > 0 {
        storageQ, storageNm1modq := settings.q, settings.nm1modq;
        psiCode, psiInvCode := settings.psiCode, settings.psiInvCode;
      }
    }

    method MakeImmutable()
      modifies this
      ensures isImmutable == 1 && Stored() == old(Stored())
    {
      isImmutable := 1;
    }

    /**
     Any calls of update and makeImmutable after deployment: the settings are those of the last
     update, so makeImmutable has no effect, before or after it.
     */
    method Administer(calls: seq<Call>)
      requires isImmutable == 1
      modifies this
      ensures isImmutable == 1 && Stored() == LastUpdate(old(Stored()), calls)
    {
      var i := 0;
      while i < |calls|
        invariant 0 <= i <= |calls| && isImmutable == 1
        invariant Stored() == LastUpdate(old(Stored()), calls[..i])
      {
        match calls[i] {
          case Update(settings) => Update(settings);
          case MakeImmutable => MakeImmutable();
        }
        assert calls[..i + 1][..i] == calls[..i];
        i := i + 1;
      }
      assert calls[..i] == calls;
    }

    /** The contract was set up with valid tables and factor for arrays of length n. */
    ghost predicate Configured(n: nat)
      reads this
    {
      storageQ > 0 && IsRootTable(psiCode, psiInvCode, n, storageQ) && Cong(n * storageNm1modq, 1, storageQ)
    }

    /** The innermost loop of the forward transform: the butterflies of the block that starts at j1. */
    method ForwardBlock(a: array<nat>, j1: nat, t: nat, S: nat, q: nat, ghost before: seq<int>, ghost after: seq<int>)
      requires q > 0 && t > 0 && j1 + 2 * t <= a.Length
      requires Progress(a[..], before, after, j1, j1, t, q)
      requires forall j :: j1 <= j < j1 + t ==> IsButterfly(before[j], before[j + t], S, after[j], after[j + t], q)
      modifies a
      ensures Progress(a[..], before, after, j1 + 2 * t, j1 + 2 * t, t, q)
      ensures old(AllBelow(a[..], q)) ==> AllBelow(a[..], q)
    {
      hide Residue, MulMod, AddMod, AllBelow, IsButterfly;
      var j2 := j1 + t - 1;
      var j := j1;
      while j < j2 + 1
        invariant j1 <= j <= j1 + t && Progress(a[..], before, after, j1, j, t, q)
        invariant old(AllBelow(a[..], q)) ==> AllBelow(a[..], q)
      {
        ForwardPair(a[..], before, after, j1, j, t, S, q);
        ghost var s := a[..];
        var U := a[j];
        var V := MulMod(a[j + t], S, q);
        a[j] := AddMod(U, V, q);
        a[j + t] := AddMod(U, q - V, q);
        assert a[..] == StorePair(s, j, t, AddMod(U, V, q), AddMod(U, q - V, q));
        j := j + 1;
      }
      NextBlock(a[..], before, after, j1, t, q);
    }

    /** The middle loop: one stage, which turns m blocks of width 2t into 2m blocks of width t. */
    method ForwardStageLoop(a: array<nat>, m: nat, t: nat, q: nat, ghost f: seq<int>)
      requires q > 0 && |f| == a.Length && SquareRoots(psiRev, |f|, q)
      requires Layout(|f|, m, 2 * t) && Layout(|f|, 2 * m, t)
      requires StageHeld(a[..], ForwardStage(psiRev, f, m, 2 * t), q)
      modifies a
      ensures StageHeld(a[..], ForwardStage(psiRev, f, 2 * m, t), q) && AllBelow(a[..], q)
    {
      assert |f| <= |psiRev|;
      hide Residue, Progress, StageHeld, AllBelow, ForwardStage, SquareRoots, Layout, Starts;
      ghost var before, after := ForwardStage(psiRev, f, m, 2 * t), ForwardStage(psiRev, f, 2 * m, t);
      StageStart(a[..], before, after, t, q);
      var i := 0;
      ghost var lo: nat := 0;
      FirstBlock(2 * t);
      while i < m
        invariant i <= m && Starts(i, 2 * t, lo) && Progress(a[..], before, after, lo, lo, t, q)
      {
        BlockFits(|f|, m, t, i, lo);
        BlockStart(i, t, lo);
        var j1 := (i * t) * 2;
        ForwardStageStep(psiRev, f, m, t, i, lo, q);
        ForwardBlock(a, j1, t, psiRev[m + i], q, before, after);
        i, lo := i + 1, lo + 2 * t;
      }
      AllBlocks(|f|, m, 2 * t, lo);
      StageEnd(a[..], before, after, t, q);
    }

    /** Forward transform in place. */
    method Forward(a: array<nat>, q: nat)
      requires q > 0 && PowerOfTwo(a.Length) && SquareRoots(psiRev, a.Length, q)
      modifies a
      ensures a[..] == ForwardResult(psiRev, old(a[..]), q)
    {
      assert a.Length <= |psiRev|;
      hide StageHeld, AllBelow, ForwardStage, SquareRoots, ForwardResult, Layout, PowerOfTwo;
      var n := a.Length;
      ghost var f := a[..];
      var t: nat, m: nat := n, 1;
      ForwardStart(psiRev, a[..], q);
      while m < n
        invariant Layout(n, m, t) && StageHeld(a[..], ForwardStage(psiRev, f, m, t), q)
        invariant if m == 1 then a[..] == f else AllBelow(a[..], q)
        decreases n - m
      {
        LayoutBounds(n, m, t);
        HalveBlocks(n, m, t);
        t := t / 2;
        ForwardStageLoop(a, m, t, q, f);
        m := m * 2;
      }
      LayoutBounds(n, m, t);
      ForwardEnd(psiRev, f, a[..], m, t, q);
    }

    /** The innermost loop of the inverse transform; it fails when q - V would be negative. */
    method InverseBlock(a: array<nat>, j1: nat, t: nat, S: nat, q: nat, ghost before: seq<int>, ghost after: seq<int>)
      returns (ok: bool)
      requires q > 0 && t > 0 && j1 + 2 * t <= a.Length
      requires Progress(a[..], before, after, j1, j1, t, q)
      requires forall j :: j1 <= j < j1 + t ==>
                 IsInverseButterfly(before[j], before[j + t], S, after[j], after[j + t], q)
      modifies a
      ensures ok <==> forall j :: j1 + t <= j < j1 + 2 * t ==> old(a[j]) <= q
      ensures ok ==> Progress(a[..], before, after, j1 + 2 * t, j1 + 2 * t, t, q)
      ensures old(AllBelow(a[..], q)) ==> AllBelow(a[..], q)
      ensures forall p :: j1 + 2 * t <= p < a.Length ==> a[p] == old(a[p])
    {
      hide Residue, MulMod, AddMod, AllBelow, IsInverseButterfly, Progress;
      var j2 := j1 + t - 1;
      var j := j1;
      while j < j2 + 1
        invariant j1 <= j <= j1 + t && Progress(a[..], before, after, j1, j, t, q)
        invariant old(AllBelow(a[..], q)) ==> AllBelow(a[..], q)
        invariant forall p :: j1 + t <= p < j + t ==> old(a[p]) <= q
        invariant forall p :: j + t <= p < a.Length ==> a[p] == old(a[p])
      {
        InversePair(a[..], before, after, j1, j, t, S, q);
        ghost var s := a[..];
        var U := a[j];
        var V := a[j + t];
        if q < V {
          return false;
        }
        a[j] := AddMod(U, V, q);
        a[j + t] := MulMod(AddMod(U, q - V, q), S, q);
        assert a[..] == StorePair(s, j, t, AddMod(U, V, q), MulMod(AddMod(U, q - V, q), S, q));
        j := j + 1;
      }
      NextBlock(a[..], before, after, j1, t, q);
      return true;
    }

    /** The middle loop: one stage, which turns 2h blocks of width t into h blocks of width 2t. */
    method InverseStageLoop(a: array<nat>, h: nat, t: nat, q: nat, ghost b: seq<int>) returns (ok: bool)
      requires q > 0 && |b| == a.Length && SquareRoots(psiInvRev, |b|, q)
      requires Layout(|b|, 2 * h, t) && Layout(|b|, h, 2 * t)
      requires StageHeld(a[..], InverseStage(psiInvRev, b, 2 * h, t), q)
      requires t == 1 || AllBelow(a[..], q)
      modifies a
      ensures ok <==> (t == 1 ==> CanSubtract(old(a[..]), q))
      ensures ok ==> StageHeld(a[..], InverseStage(psiInvRev, b, h, 2 * t), q) && AllBelow(a[..], q)
    {
      assert |b| <= |psiInvRev|;
      hide Residue, Progress, StageHeld, InverseStage, SquareRoots, Layout, Starts, IsInverseButterfly,
              Subtractable, CanSubtract, AllBelow;
      ghost var before, after := InverseStage(psiInvRev, b, 2 * h, t), InverseStage(psiInvRev, b, h, 2 * t);
      StageStart(a[..], before, after, t, q);
      SubtractableStart(a[..], t, q);
      var j1: nat := 0;
      var i := 0;
      ghost var was := a[..];
      FirstBlock(2 * t);
      while i < h
        invariant i <= h && j1 <= |b| && Starts(i, 2 * t, j1) && Progress(a[..], before, after, j1, j1, t, q)
        invariant Subtractable(a[..], was, j1, t, q)
      {
        BlockFits(|b|, h, t, i, j1);
        InverseStageStep(psiInvRev, b, h, t, i, j1, q);
        ghost var now := a[..];
        var done := InverseBlock(a, j1, t, psiInvRev[h + i], q, before, after);
        if !done {
          CannotSubtract(now, was, j1, t, q);
          return false;
        }
        SubtractableNext(now, a[..], was, j1, t, q);
        i, j1 := i + 1, j1 + t * 2;
      }
      AllBlocks(|b|, h, 2 * t, j1);
      AllSubtracted(a[..], was, t, q);
      StageEnd(a[..], before, after, t, q);
      return true;
    }

    /** Inverse transform in place; it fails exactly when an entry it must subtract from q exceeds q. */
    method Inverse(a: array<nat>, q: nat) returns (ok: bool)
      requires q > 0 && PowerOfTwo(a.Length) && SquareRoots(psiInvRev, a.Length, q)
      modifies a
      ensures ok <==> CanSubtract(old(a[..]), q)
      ensures ok ==> a[..] == NttSpec.Intt(psiInvRev, old(a[..]), storageNm1modq, q)
    {
      assert a.Length <= |psiInvRev|;
      hide StageHeld, AllBelow, InverseStage, SquareRoots, Layout, PowerOfTwo, Residue, MulMod, NttSpec.LeafSum;
      ghost var b: seq<int> := a[..];
      var t: nat := 1;
      var m: nat := a.Length;
      InverseStart(psiInvRev, a[..], q);
      while m > 1
        invariant Layout(|b|, m, t) && StageHeld(a[..], InverseStage(psiInvRev, b, m, t), q)
        invariant if t == 1 then a[..] == b else CanSubtract(old(a[..]), q) && AllBelow(a[..], q)
        decreases m
      {
        LayoutBounds(|b|, m, t);
        DoubleBlocks(|b|, m, t);
        var h := m / 2;
        var done := InverseStageLoop(a, h, t, q, b);
        if !done {
          return false;
        }
        t := t * 2;
        m := m / 2;
      }
      LayoutBounds(|b|, m, t);
      InverseEnd(psiInvRev, b, a[..], m, t, q);
      Scale(a, storageNm1modq, q, b);
      return true;
    }

    /** The last loop of the inverse transform. */
    method Scale(a: array<nat>, nm1modq: nat, q: nat, ghost b: seq<int>)
      requires q > 0 && |b| == a.Length <= |psiInvRev|
      requires forall p :: 0 <= p < |b| ==> Cong(a[p], NttSpec.LeafSum(psiInvRev, b, p, 0, |b|), q)
      modifies a
      ensures a[..] == NttSpec.Intt(psiInvRev, b, nm1modq, q)
    {
      hide MulMod, NttSpec.LeafSum, Residue;
      var m := 0;
      while m < a.Length
        invariant m <= a.Length
        invariant forall p :: 0 <= p < m ==> a[p] == MulMod(NttSpec.LeafSum(psiInvRev, b, p, 0, |b|), nm1modq, q)
        invariant forall p :: m <= p < a.Length ==> a[p] == old(a[p])
      {
        ScaledSum(a[m], NttSpec.LeafSum(psiInvRev, b, m, 0, |b|), nm1modq, q);
        a[m] := MulMod(a[m], nm1modq, q);
        m := m + 1;
      }
    }

    /** Products position by position; the lengths must agree. Solidity's mulmod panics for modulus zero. */
    static method VecMulMod(a: array<nat>, b: array<nat>, q: nat) returns (r: Outcome<array<nat>>)
      ensures r.Returned? <==> a.Length == b.Length && (q > 0 || a.Length == 0)
      ensures r.Returned? ==> fresh(r.value) && r.value.Length == a.Length
      ensures r.Returned? && q > 0 ==> r.value[..] == NttSpec.Pointwise(a[..], b[..], q)
    {
      hide MulMod;
      if a.Length != b.Length {
        return Reverted;
      }
      var res := new nat[a.Length];
      var i := 0;
      while i < a.Length
        invariant i <= a.Length
        invariant i > 0 ==> q > 0
        invariant forall p :: 0 <= p < i ==> res[p] == MulMod(a[p], b[p], q)
      {
        if q == 0 {
          return Reverted;
        }
        res[i] := MulMod(a[i], b[i], q);
        i := i + 1;
      }
      return Returned(res);
    }

    /** Sums position by position; addmod panics for modulus zero as well. */
    static method VecAddMod(a: array<nat>, b: array<nat>, q: nat) returns (r: Outcome<array<nat>>)
      ensures r.Returned? <==> a.Length == b.Length && (q > 0 || a.Length == 0)
      ensures r.Returned? ==> fresh(r.value) && r.value.Length == a.Length
      ensures r.Returned? && q > 0 ==> forall p :: 0 <= p < a.Length ==> r.value[p] == Residue(a[p] + b[p], q)
    {
      if a.Length != b.Length {
        return Reverted;
      }
      var res := new nat[a.Length];
      var i := 0;
      while i < a.Length
        invariant i <= a.Length
        invariant i > 0 ==> q > 0
        invariant forall p :: 0 <= p < i ==> res[p] == Residue(a[p] + b[p], q)
      {
        if q == 0 {
          return Reverted;
        }
        res[i] := AddMod(a[i], b[i], q);
        i := i + 1;
      }
      return Returned(res);
    }

    /** Differences position by position; an entry of b above q makes the checked q - b[i] fail. */
    static method VecSubMod(a: array<nat>, b: array<nat>, q: nat) returns (r: Outcome<array<nat>>)
      ensures r.Returned? <==> && a.Length == b.Length && (q > 0 || a.Length == 0)
                               && forall p :: 0 <= p < b.Length ==> b[p] <= q
      ensures r.Returned? ==> fresh(r.value) && r.value.Length == a.Length
      ensures r.Returned? && q > 0 ==> forall p :: 0 <= p < a.Length ==> r.value[p] == Residue(a[p] as int - b[p], q)
    {
      hide Residue;
      if a.Length != b.Length {
        return Reverted;
      }
      var res := new nat[a.Length];
      var i := 0;
      while i < a.Length
        invariant i <= a.Length
        invariant i > 0 ==> q > 0
        invariant forall p :: 0 <= p < i ==> b[p] <= q && res[p] == Residue(a[p] as int - b[p], q)
      {
        if q < b[i] || q == 0 {
          return Reverted;
        }
        CongFromMultiple(a[i] + (q - b[i]), a[i] as int - b[i], 1, q);
        res[i] := AddMod(a[i], q - b[i], q);
        i := i + 1;
      }
      return Returned(res);
    }

    /**
     The product of two polynomials modulo X^n + 1. Both arrays are overwritten by their transforms:
     one array passed twice is transformed twice, and the result is the square of its transform.
     */
    method MulNttPoly(a: array<nat>, b: array<nat>, q: nat) returns (r: Outcome<array<nat>>)
      requires q > 0
      requires PowerOfTwo(a.Length) && IsRootTable(psiRev, psiInvRev, a.Length, q)
      requires PowerOfTwo(b.Length) && SquareRoots(psiRev, b.Length, q)
      requires Cong(a.Length * storageNm1modq, 1, q)
      modifies a, b
      ensures r.Returned? <==> a.Length == b.Length
      ensures r.Returned? ==> fresh(r.value)
      ensures r.Returned? && a != b ==> r.value[..] == NttSpec.Reduce(NegacyclicProduct(old(a[..]), old(b[..])), q)
      ensures r.Returned? && a == b ==>
                var transform := ForwardResult(psiRev, old(a[..]), q);
                r.value[..] == NttSpec.Reduce(NegacyclicProduct(transform, transform), q)
    {
      assert a.Length <= |psiRev| && b.Length <= |psiRev|;
      hide Residue, SquareRoots, IsInverse, NttSpec.Pointwise, NegacyclicProduct, CanSubtract, NttSpec.Intt,
              ForwardResult;
      Forward(a, q);
      ghost var g := b[..];
      ghost var f := if a == b then g else old(a[..]);
      Forward(b, q);
      ForwardResultReduced(psiRev, f, q);
      ForwardResultReduced(psiRev, g, q);
      var p := VecMulMod(a, b, q);
      if p.Reverted? {
        return Reverted;
      }
      PointwiseOfReduced(a[..], b[..], q);
      ProductsFit(a[..], b[..], q);
      InverseSquareRoots(psiRev, psiInvRev, a.Length, q);
      NttSpec.ConvolutionTheorem(psiRev, psiInvRev, f, g, storageNm1modq, q);
      var ok := Inverse(p.value, q);
      return Returned(p.value);
    }

    /** The same with b already transformed; one array passed twice is transformed once, before it is read as b. */
    method HalfMul(a: array<nat>, b: array<nat>, q: nat) returns (r: Outcome<array<nat>>)
      requires q > 0
      requires PowerOfTwo(a.Length) && IsRootTable(psiRev, psiInvRev, a.Length, q)
      modifies a
      ensures r.Returned? <==> a.Length == b.Length
      ensures r.Returned? ==> fresh(r.value)
      ensures r.Returned? ==>
        var right := if a == b then ForwardResult(psiRev, old(a[..]), q) else old(b[..]);
        var products := NttSpec.Pointwise(NttSpec.Ntt(psiRev, old(a[..]), q), right, q);
        r.value[..] == NttSpec.Intt(psiInvRev, products, storageNm1modq, q)
    {
      ghost var f := a[..];
      hide Residue, SquareRoots, IsInverse, NttSpec.Pointwise, CanSubtract, NttSpec.Intt, ForwardResult;
      Forward(a, q);
      ForwardResultReduced(psiRev, f, q);
      var p := VecMulMod(a, b, q);
      if p.Reverted? {
        return Reverted;
      }
      PointwiseOfReduced(a[..], b[..], q);
      ProductsFit(a[..], b[..], q);
      InverseSquareRoots(psiRev, psiInvRev, a.Length, q);
      var ok := Inverse(p.value, q);
      return Returned(p.value);
    }

    // ----- the stateful functions, called across contracts -----

    /** The product of two polynomials modulo X^n + 1, through the assembly transforms. */
    method NttMul(a: seq<Word>, b: seq<Word>) returns (r: Outcome<seq<Word>>)
      requires PowerOfTwo(|a|) && |a| < 0x1_0000_0000 && Configured(|a|)
      requires PowerOfTwo(|b|) && |b| < 0x1_0000_0000 && SquareRoots(psiCode, |b|, storageQ)
      ensures r.Returned? <==> |a| == |b|
      ensures r.Returned? ==> r.value == NttSpec.Reduce(NegacyclicProduct(a, b), storageQ)
    {
      var q := storageQ;
      hide Residue, SquareRoots, IsInverse, NttSpec.Pointwise, NegacyclicProduct, CanSubtract, NttSpec.Intt,
              ForwardResult;
      var u := ZknoxNttAssembly.ForwardCopy(a, psiCode, q);
      var v := ZknoxNttAssembly.ForwardCopy(b, psiCode, q);
      ForwardResultReduced(psiCode, a, q);
      ForwardResultReduced(psiCode, b, q);
      var p := MultiplyCopies(u, v, q);
      if p.Reverted? {
        return Reverted;
      }
      PointwiseOfReduced(u, v, q);
      ProductsFit(u, v, q);
      InverseSquareRoots(psiCode, psiInvCode, |a|, q);
      NttSpec.ConvolutionTheorem(psiCode, psiInvCode, a, b, storageNm1modq, q);
      var w := ZknoxNttAssembly.InverseCopy(p.value, psiInvCode, storageNm1modq, q);
      return Returned(w);
    }

    /** The same with b already transformed. */
    method NttHalfMul(a: seq<Word>, b: seq<Word>) returns (r: Outcome<seq<Word>>)
      requires PowerOfTwo(|a|) && |a| < 0x1_0000_0000 && Configured(|a|)
      ensures r.Returned? <==> |a| == |b|
      ensures r.Returned? ==>
        var products := NttSpec.Pointwise(NttSpec.Ntt(psiCode, a, storageQ), b, storageQ);
        r.value == NttSpec.Intt(psiInvCode, products, storageNm1modq, storageQ)
    {
      var q := storageQ;
      hide Residue, SquareRoots, IsInverse, NttSpec.Pointwise, CanSubtract, NttSpec.Intt, ForwardResult;
      var u := ZknoxNttAssembly.ForwardCopy(a, psiCode, q);
      ForwardResultReduced(psiCode, a, q);
      var p := MultiplyCopies(u, b, q);
      if p.Reverted? {
        return Reverted;
      }
      PointwiseOfReduced(u, b, q);
      ProductsFit(u, b, q);
      InverseSquareRoots(psiCode, psiInvCode, |a|, q);
      var w := ZknoxNttAssembly.InverseCopy(p.value, psiInvCode, storageNm1modq, q);
      return Returned(w);
    }

    /** VecMulMod on the values of two arrays. */
    static method MultiplyCopies(u: seq<Word>, v: seq<Word>, q: Word) returns (r: Outcome<seq<Word>>)
      requires q > 0
      ensures r.Returned? <==> |u| == |v|
      ensures r.Returned? ==> r.value == NttSpec.Pointwise(u, v, q)
    {
      var a := new nat[|u|](k requires 0 <= k < |u| => u[k]);
      var b := new nat[|v|](k requires 0 <= k < |v| => v[k]);
      var p := VecMulMod(a, b, q);
      if p.Reverted? {
        return Reverted;
      }
      assert a[..] == u && b[..] == v;
      return Returned(p.value[..]);
    }
  }

  /** An update after makeImmutable still takes effect, whatever came before. */
  lemma UpdateAfterMakeImmutable(was: Settings, calls: seq<Call>, settings: Settings)
    ensures LastUpdate(was, calls + [MakeImmutable, Update(settings)]) == settings
    ensures LastUpdate(was, calls + [MakeImmutable]) == LastUpdate(was, calls)
  {
    assert (calls + [MakeImmutable])[..|calls|] == calls;
  }

  lemma ProductsFit(a: seq<nat>, b: seq<nat>, q: nat)
    requires q > 0 && |a| == |b|
    ensures CanSubtract(NttSpec.Pointwise(a, b, q), q)
  {
  }
}
