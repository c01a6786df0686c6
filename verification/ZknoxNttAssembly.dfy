/**
 The assembly transforms: the array lives in memory behind its length word, elements are
 reached by computed addresses, and the table is the code of another contract, read one
 word at a time into a scratch word.
 */
module ZknoxNttAssembly {
  import opened Evm
  import opened ModArith
  import opened RootTable
  import opened NttStages
  import NttSpec

  /** Where an array of n words sits: its length at word base, its elements after it, the scratch word elsewhere. */
  predicate Placed(memory: array<Word>, base: nat, n: nat, scratch: nat) {
    && base + 1 + n <= memory.Length
    && scratch < memory.Length && !(base <= scratch <= base + n)
    && 32 * memory.Length < TWO_TO_256
  }

  /** The elements of the array. */
  function Elements(memory: seq<Word>, base: nat, n: nat): (s: seq<nat>)
    requires base + 1 + n <= |memory|
    ensures |s| == n
  {
    memory[base + 1..base + 1 + n]
  }

  /** Only the scratch word and the elements of the array may differ. */
  predicate OnlyArrayChanged(now: seq<Word>, was: seq<Word>, base: nat, n: nat, scratch: nat) {
    |now| == |was| && forall k :: 0 <= k < |now| && k != scratch && !(base < k <= base + n) ==> now[k] == was[k]
  }

  lemma StillOnlyArray(now: seq<Word>, mid: seq<Word>, was: seq<Word>, base: nat, n: nat, scratch: nat)
    requires OnlyArrayChanged(now, mid, base, n, scratch) && OnlyArrayChanged(mid, was, base, n, scratch)
    ensures OnlyArrayChanged(now, was, base, n, scratch)
  {
  }

  /** The address the code computes for element j. */
  function ElementAddress(a: Word, j: Word): Word {
    Add(a, Mul(Add(j, 1), 32))
  }

  lemma ElementAddressExact(memory: array<Word>, base: nat, n: nat, scratch: nat, a: Word, j: Word)
    requires Placed(memory, base, n, scratch) && a == 32 * base && j < n
    ensures ElementAddress(a, j) == 32 * (base + 1 + j)
    ensures Aligned(memory, ElementAddress(a, j)) && ElementAddress(a, j) / 32 == base + 1 + j
  {
  }

  lemma OffsetAddressExact(memory: array<Word>, base: nat, n: nat, scratch: nat, a: Word, j: Word, t: Word)
    requires Placed(memory, base, n, scratch) && a == 32 * base && j + t < n
    ensures var x := ElementAddress(a, j);
            && Add(x, Mul(t, 32)) == 32 * (base + 1 + (j + t))
            && Aligned(memory, Add(x, Mul(t, 32))) && Add(x, Mul(t, 32)) / 32 == base + 1 + (j + t)
            && Sub(Add(x, Mul(t, 32)), Mul(t, 32)) == x
  {
    ElementAddressExact(memory, base, n, scratch, a, j);
  }

  /** Storing element j + t first and element j second is storing the pair. */
  lemma PairInMemory(was: seq<Word>, now: seq<Word>, base: nat, n: nat, j: nat, t: nat, x: Word, y: Word)
    requires base + 1 + n <= |was| && t > 0 && j + t < n
    requires now == was[base + 1 + (j + t) := y][base + 1 + j := x]
    ensures Elements(now, base, n) == StorePair(Elements(was, base, n), j, t, x, y)
  {
  }

  /** The innermost loop of the forward transform. */
  method ForwardBlock(memory: array<Word>, base: nat, n: nat, scratch: nat, a: Word, S: Word, j1: Word, t: Word,
                      q: Word, ghost before: seq<int>, ghost after: seq<int>)
    requires Placed(memory, base, n, scratch) && a == 32 * base && S == 32 * scratch
    requires q > 0 && t > 0 && j1 + 2 * t <= n
    requires Progress(Elements(memory[..], base, n), before, after, j1, j1, t, q)
    requires forall j :: j1 <= j < j1 + t ==>
               IsButterfly(before[j], before[j + t], memory[scratch], after[j], after[j + t], q)
    modifies memory
    ensures Progress(Elements(memory[..], base, n), before, after, j1 + 2 * t, j1 + 2 * t, t, q)
    ensures OnlyArrayChanged(memory[..], old(memory[..]), base, n, scratch)
  {
    hide Residue, MulMod, AddMod, AllBelow, IsButterfly, Progress, Elements, Add, Sub, Mul;
    ghost var initial := memory[..];
    var j2 := Sub(Add(j1, t), 1);
    var j: Word := j1;
    while Add(j2, 1) > j
      invariant j1 <= j <= j1 + t && memory[scratch] == initial[scratch]
      invariant Progress(Elements(memory[..], base, n), before, after, j1, j, t, q)
      invariant OnlyArrayChanged(memory[..], initial, base, n, scratch)
      decreases j1 + t - j
    {
      ElementAddressExact(memory, base, n, scratch, a, j);
      OffsetAddressExact(memory, base, n, scratch, a, j, t);
      ghost var was := memory[..];
      ghost var s := Elements(was, base, n);
      var address := ElementAddress(a, j);
      var U := Mload(memory, address);
      address := Add(address, Mul(t, 32));
      assert S / 32 == scratch;
      var V := MulMod(Mload(memory, address), Mload(memory, S), q);
      Mstore(memory, address, AddMod(U, Sub(q, V), q));
      address := Sub(address, Mul(t, 32));
      Mstore(memory, address, AddMod(U, V, q));
      ElementsAt(was, base, n, j);
      ElementsAt(was, base, n, j + t);
      assert U == s[j] && V == MulMod(s[j + t], initial[scratch], q);
      ForwardPair(s, before, after, j1, j, t, initial[scratch], q);
      PairInMemory(was, memory[..], base, n, j, t, AddMod(U, V, q), AddMod(U, q - V, q));
      j := Add(j, 1);
    }
    NextBlock(Elements(memory[..], base, n), before, after, j1, t, q);
  }

  lemma ElementsAt(memory: seq<Word>, base: nat, n: nat, j: nat)
    requires base + 1 + n <= |memory| && j < n
    ensures Elements(memory, base, n)[j] == memory[base + 1 + j]
  {
  }

  /** Reading table entry k into the scratch word. */
  method LoadRoot(memory: array<Word>, base: nat, n: nat, scratch: nat, code: seq<Word>, S: Word, k: Word)
    requires Placed(memory, base, n, scratch) && S == 32 * scratch && k < |code| && 32 * k < TWO_TO_256
    modifies memory
    ensures memory[scratch] == code[k]
    ensures Elements(memory[..], base, n) == old(Elements(memory[..], base, n))
    ensures OnlyArrayChanged(memory[..], old(memory[..]), base, n, scratch)
  {
    hide Mul;
    assert S / 32 == scratch && Mul(k, 32) / 32 == k;
    ExtCodeCopyWord(memory, code, S, Mul(k, 32));
  }

  /** The shifts of the assembly find the start of block i. */
  lemma BlockAddress(i: Word, t: Word, lo: nat)
    requires Starts(i, 2 * t, lo) && lo < TWO_TO_256
    ensures ShlOne(Mul(i, t)) == lo
  {
    BlockStart(i, t, lo);
  }

  /** One forward stage. */
  method ForwardStageLoop(memory: array<Word>, base: nat, n: nat, scratch: nat, code: seq<Word>,
                          a: Word, S: Word, m: Word, t: Word, q: Word, ghost f: seq<int>)
    requires Placed(memory, base, n, scratch) && a == 32 * base && S == 32 * scratch
    requires q > 0 && |f| == n && SquareRoots(code, n, q) && Layout(n, m, 2 * t) && Layout(n, 2 * m, t)
    requires StageHeld(Elements(memory[..], base, n), ForwardStage(code, f, m, 2 * t), q)
    modifies memory
    ensures StageHeld(Elements(memory[..], base, n), ForwardStage(code, f, 2 * m, t), q)
    ensures AllBelow(Elements(memory[..], base, n), q)
    ensures OnlyArrayChanged(memory[..], old(memory[..]), base, n, scratch)
  {
    assert |f| <= |code|;
    hide Residue, Progress, StageHeld, AllBelow, ForwardStage, SquareRoots, Layout, Starts, IsButterfly;
    hide Elements, Add, Mul, ShlOne;
    ghost var initial := memory[..];
    assert OnlyArrayChanged(memory[..], initial, base, n, scratch);
    hide OnlyArrayChanged;
    ghost var before, after := ForwardStage(code, f, m, 2 * t), ForwardStage(code, f, 2 * m, t);
    StageStart(Elements(memory[..], base, n), before, after, t, q);
    var i: Word := 0;
    ghost var lo: nat := 0;
    FirstBlock(2 * t);
    while m > i
      invariant i <= m && Starts(i, 2 * t, lo) && Progress(Elements(memory[..], base, n), before, after, lo, lo, t, q)
      invariant OnlyArrayChanged(memory[..], initial, base, n, scratch)
      decreases m - i
    {
      BlockFits(n, m, t, i, lo);
      BlockAddress(i, t, lo);
      var j1 := ShlOne(Mul(i, t));
      ghost var m0 := memory[..];
      LoadRoot(memory, base, n, scratch, code, S, Add(i, m));
      ghost var m1 := memory[..];
      ForwardStageStep(code, f, m, t, i, lo, q);
      ForwardBlock(memory, base, n, scratch, a, S, j1, t, q, before, after);
      StillOnlyArray(memory[..], m1, m0, base, n, scratch);
      StillOnlyArray(memory[..], m0, initial, base, n, scratch);
      i := Add(i, 1);
      lo := lo + 2 * t;
    }
    AllBlocks(n, m, 2 * t, lo);
    StageEnd(Elements(memory[..], base, n), before, after, t, q);
  }

  /** Forward transform of the array at address a, with the table in code. */
  method Forward(memory: array<Word>, base: nat, n: nat, scratch: nat, code: seq<Word>, a: Word, S: Word, q: Word)
    requires Placed(memory, base, n, scratch) && a == 32 * base && S == 32 * scratch && memory[base] == n
    requires q > 0 && PowerOfTwo(n) && SquareRoots(code, n, q)
    modifies memory
    ensures Elements(memory[..], base, n) == ForwardResult(code, old(Elements(memory[..], base, n)), q)
    ensures OnlyArrayChanged(memory[..], old(memory[..]), base, n, scratch)
  {
    assert n <= |code|;
    hide StageHeld, AllBelow, ForwardStage, SquareRoots, ForwardResult, Layout, PowerOfTwo, Elements;
    hide ShlOne, ShrOne;
    ghost var initial := memory[..];
    ghost var f := Elements(initial, base, n);
    assert a / 32 == base;
    var length := Mload(memory, a);
    var t: Word, m: Word := length, 1;
    ForwardStart(code, Elements(memory[..], base, n), q);
    while length > m
      invariant Layout(n, m, t) && StageHeld(Elements(memory[..], base, n), ForwardStage(code, f, m, t), q)
      invariant if m == 1 then Elements(memory[..], base, n) == f else AllBelow(Elements(memory[..], base, n), q)
      invariant OnlyArrayChanged(memory[..], initial, base, n, scratch)
      decreases n - m
    {
      LayoutBounds(n, m, t);
      HalveBlocks(n, m, t);
      t := ShrOne(t);
      ForwardStageLoop(memory, base, n, scratch, code, a, S, m, t, q, f);
      m := ShlOne(m);
    }
    LayoutBounds(n, m, t);
    ForwardEnd(code, f, Elements(memory[..], base, n), m, t, q);
  }

  // ----- differences that wrap -----
  // Words have w values; what follows holds for every w, and the assembly has w == 2^256.

  /** What wrapping adds to q - V. */
  function Excess(V: nat, q: nat, w: nat): nat {
    if V > q then w else 0
  }

  /** The difference of a pair modulo q, as it comes out when q - V wraps. */
  function WrappedDifference(U: nat, V: nat, q: nat, w: nat): nat
    requires q > 0
  {
    Residue(U + q - V + Excess(V, q, w), q)
  }

  lemma AssemblyDifference(U: Word, V: Word, q: Word)
    requires q > 0
    ensures AddMod(U, Sub(q, V), q) == WrappedDifference(U, V, q, TWO_TO_256)
  {
    hide Residue;
    assert U + Sub(q, V) == U + q - V + Excess(V, q, TWO_TO_256);
  }

  /**
   The array on which exact differences come out as the wrapped ones do on b: each excess is halved
   modulo q and spread over its pair.
   */
  function Effective(b: seq<nat>, q: nat, w: nat): (e: seq<int>)
    ensures |e| == |b|
  {
    seq(|b|, p requires 0 <= p < |b| =>
      if p % 2 == 1 then b[p] - (q + 1) / 2 * Excess(b[p], q, w)
      else if p + 1 < |b| then b[p] + (q + 1) / 2 * Excess(b[p + 1], q, w)
      else b[p])
  }

  lemma EffectiveAtPair(b: seq<nat>, j: nat, q: nat, w: nat)
    requires j % 2 == 0 && j + 1 < |b|
    ensures Effective(b, q, w)[j] == b[j] + (q + 1) / 2 * Excess(b[j + 1], q, w)
    ensures Effective(b, q, w)[j + 1] == b[j + 1] - (q + 1) / 2 * Excess(b[j + 1], q, w)
  {
  }

  lemma EffectiveUnpaired(b: seq<nat>, j: nat, q: nat, w: nat)
    requires j % 2 == 0 && j + 1 == |b|
    ensures Effective(b, q, w)[j] == b[j]
  {
  }

  lemma EffectiveBelow(b: seq<nat>, j: nat, q: nat, w: nat)
    requires j % 2 == 0 && j + 1 < |b| && b[j + 1] <= q
    ensures Effective(b, q, w)[j] == b[j] && Effective(b, q, w)[j + 1] == b[j + 1]
  {
    EffectiveAtPair(b, j, q, w);
    hide Effective;
  }

  lemma EffectiveAbove(b: seq<nat>, j: nat, q: nat, w: nat) returns (half: nat)
    requires (q % 2 == 1 || CanSubtract(b, q)) && j % 2 == 0 && j + 1 < |b| && b[j + 1] > q
    ensures 2 * half == q + 1
    ensures Effective(b, q, w)[j] == b[j] + half * w && Effective(b, q, w)[j + 1] == b[j + 1] - half * w
  {
    EffectiveAtPair(b, j, q, w);
    hide Effective;
    half := (q + 1) / 2;
  }

  /** Nothing wraps on an array the checked version does not fail on. */
  lemma EffectiveOfSubtractable(b: seq<nat>, q: nat, w: nat)
    requires CanSubtract(b, q)
    ensures Effective(b, q, w) == b
  {
    hide Effective;
    forall p | 0 <= p < |b| ensures Effective(b, q, w)[p] == b[p] {
      var j := p - p % 2;
      if j + 1 < |b| {
        assert b[j + 1] <= q;
        EffectiveBelow(b, j, q, w);
      } else {
        EffectiveUnpaired(b, p, q, w);
      }
    }
  }

  /** What one inverse butterfly stores for the pair U, V represents u' and v'. */
  ghost predicate StoresPair(U: nat, V: nat, S: nat, u': int, v': int, q: nat, w: nat)
    requires q > 0
  {
    Cong(U + V, u', q) && Cong(WrappedDifference(U, V, q, w) * S, v', q)
  }

  lemma ExactPair(U: nat, V: nat, S: nat, oldU: int, oldV: int, u': int, v': int, q: nat, w: nat)
    requires q > 0 && V <= q && Cong(U, oldU, q) && Cong(V, oldV, q) && IsInverseButterfly(oldU, oldV, S, u', v', q)
    ensures StoresPair(U, V, S, u', v', q, w)
  {
    hide Residue;
    CongAdd(U, oldU, V, oldV, q);
    CongSub(U, oldU, V, oldV, q);
    CongFromMultiple(U + q - V, U - V, 1, q);
    CongMod(U + q - V, q);
    CongMul(WrappedDifference(U, V, q, w), oldU - oldV, S, S, q);
    Distribute(oldU, oldV, S);
  }

  /** Spreading an excess e over a pair, half of it modulo q to each side, gives the difference that has it. */
  lemma SpreadDifference(u: int, v: int, d: int, s: int, half: nat, e: nat, q: nat)
    requires 2 * half == q + 1 && q > 0 && d == u - v + q + e
    ensures (u + half * e) + (v - half * e) == u + v
    ensures Cong(Residue(d, q) * s, s * (u + half * e) + (-s) * (v - half * e), q)
  {
    hide Residue;
    var eU, eV := u + half * e, v - half * e;
    DoubleHalf(half, e, q);
    CongFromMultiple(d, eU - eV, 1 - e, q);
    CongMod(d, q);
    CongMul(Residue(d, q), eU - eV, s, s, q);
    Distribute(eU, eV, s);
  }

  lemma DoubleHalf(half: nat, e: nat, q: nat)
    requires 2 * half == q + 1
    ensures half * e + half * e == e + e * q
  {
    assert half * e + half * e == (2 * half) * e;
  }

  lemma Distribute(u: int, v: int, s: int)
    ensures (u - v) * s == s * u + (-s) * v
  {
  }

  /** What is stored for the pair at j in the first stage, where entries can exceed q. */
  lemma FirstStagePair(b: seq<nat>, j: nat, S: nat, u': int, v': int, q: nat, w: nat)
    requires q > 0 && (q % 2 == 1 || CanSubtract(b, q)) && j % 2 == 0 && j + 1 < |b|
    requires IsInverseButterfly(Effective(b, q, w)[j], Effective(b, q, w)[j + 1], S, u', v', q)
    ensures StoresPair(b[j], b[j + 1], S, u', v', q, w)
  {
    hide Effective, IsInverseButterfly, StoresPair;
    if b[j + 1] <= q {
      EffectiveBelow(b, j, q, w);
      ExactPair(b[j], b[j + 1], S, b[j], b[j + 1], u', v', q, w);
    } else {
      var half := EffectiveAbove(b, j, q, w);
      WrappedPair(b[j], b[j + 1], S, half, u', v', q, w);
    }
  }

  lemma WrappedPair(U: nat, V: nat, S: nat, half: nat, u': int, v': int, q: nat, w: nat)
    requires V > q > 0 && 2 * half == q + 1 && IsInverseButterfly(U + half * w, V - half * w, S, u', v', q)
    ensures StoresPair(U, V, S, u', v', q, w)
  {
    hide Residue;
    SpreadDifference(U, V, U + q - V + w, S, half, w, q);
  }

  /** From block j1 on the first stage has touched nothing; later stages only meet entries below q. */
  predicate Untouched(now: seq<nat>, was: seq<nat>, j1: nat, t: nat, q: nat) {
    && |now| == |was|
    && (t != 1 ==> AllBelow(now, q))
    && (t == 1 ==> j1 % 2 == 0 && forall p :: j1 <= p < |was| ==> now[p] == was[p])
  }

  lemma UntouchedStart(s: seq<nat>, t: nat, q: nat)
    requires t == 1 || AllBelow(s, q)
    ensures Untouched(s, s, 0, t, q)
  {
  }

  lemma UntouchedNext(now: seq<nat>, next: seq<nat>, was: seq<nat>, j1: nat, t: nat, q: nat)
    requires Untouched(now, was, j1, t, q) && |next| == |now|
    requires AllBelow(now, q) ==> AllBelow(next, q)
    requires forall p :: j1 + 2 * t <= p < |now| ==> next[p] == now[p]
    ensures Untouched(next, was, j1 + 2 * t, t, q)
  {
  }

  /** The innermost loop of the inverse transform. */
  method InverseBlock(memory: array<Word>, base: nat, n: nat, scratch: nat, a: Word, S: Word, j1: Word, t: Word,
                      q: Word, ghost before: seq<int>, ghost after: seq<int>)
    requires Placed(memory, base, n, scratch) && a == 32 * base && S == 32 * scratch
    requires q > 0 && t > 0 && j1 + 2 * t <= n
    requires Progress(Elements(memory[..], base, n), before, after, j1, j1, t, q)
    requires forall j :: j1 <= j < j1 + t ==>
               StoresPair(Elements(memory[..], base, n)[j], Elements(memory[..], base, n)[j + t], memory[scratch],
                          after[j], after[j + t], q, TWO_TO_256)
    modifies memory
    ensures Progress(Elements(memory[..], base, n), before, after, j1 + 2 * t, j1 + 2 * t, t, q)
    ensures old(AllBelow(Elements(memory[..], base, n), q)) ==> AllBelow(Elements(memory[..], base, n), q)
    ensures forall p :: j1 + 2 * t <= p < n ==>
              Elements(memory[..], base, n)[p] == old(Elements(memory[..], base, n))[p]
    ensures OnlyArrayChanged(memory[..], old(memory[..]), base, n, scratch)
  {
    hide Residue, MulMod, AddMod, AllBelow, StoresPair, Progress, Elements, Add, Sub, Mul, WrappedDifference;
    ghost var initial := memory[..];
    ghost var was := Elements(initial, base, n);
    var j2 := Sub(Add(j1, t), 1);
    var j: Word := j1;
    while Add(j2, 1) > j
      invariant j1 <= j <= j1 + t && memory[scratch] == initial[scratch]
      invariant Progress(Elements(memory[..], base, n), before, after, j1, j, t, q)
      invariant AllBelow(was, q) ==> AllBelow(Elements(memory[..], base, n), q)
      invariant forall p :: j <= p < j1 + t || j + t <= p < n ==> Elements(memory[..], base, n)[p] == was[p]
      invariant OnlyArrayChanged(memory[..], initial, base, n, scratch)
      decreases j1 + t - j
    {
      ElementAddressExact(memory, base, n, scratch, a, j);
      OffsetAddressExact(memory, base, n, scratch, a, j, t);
      ghost var m0 := memory[..];
      ghost var s := Elements(m0, base, n);
      var address := ElementAddress(a, j);
      var U := Mload(memory, address);
      address := Add(address, Mul(t, 32));
      var V := Mload(memory, address);
      ElementsAt(m0, base, n, j);
      ElementsAt(m0, base, n, j + t);
      assert U == s[j] == was[j] && V == s[j + t] == was[j + t];
      assert S / 32 == scratch;
      Mstore(memory, address, MulMod(AddMod(U, Sub(q, V), q), Mload(memory, S), q));
      address := Sub(address, Mul(t, 32));
      Mstore(memory, address, AddMod(U, V, q));
      AssemblyDifference(U, V, q);
      StoredInStage(s, before, after, j1, j, t, U, V, initial[scratch], q, TWO_TO_256);
      PairInMemory(m0, memory[..], base, n, j, t, AddMod(U, V, q),
                   MulMod(AddMod(U, Sub(q, V), q), initial[scratch], q));
      j := Add(j, 1);
    }
    NextBlock(Elements(memory[..], base, n), before, after, j1, t, q);
  }

  lemma StoredInStage(s: seq<nat>, before: seq<int>, after: seq<int>, j1: nat, j: nat, t: nat, U: nat, V: nat,
                      S: nat, q: nat, w: nat)
    requires q > 0 && Progress(s, before, after, j1, j, t, q) && j < j1 + t && j + t < |s|
    requires StoresPair(U, V, S, after[j], after[j + t], q, w)
    ensures var r := StorePair(s, j, t, AddMod(U, V, q), MulMod(WrappedDifference(U, V, q, w), S, q));
            Progress(r, before, after, j1, j + 1, t, q) && (AllBelow(s, q) ==> AllBelow(r, q))
  {
    hide Residue, Progress, AllBelow;
    var d := WrappedDifference(U, V, q, w);
    CongMod(U + V, q);
    CongMod(d * S, q);
    PairStored(s, before, after, j1, j, t, AddMod(U, V, q), MulMod(d, S, q), q);
  }

  /** What is stored for the pairs of one block; the first stage can wrap, later ones cannot. */
  lemma BlockStores(code: seq<nat>, b: seq<int>, h: nat, t: nat, i: nat, j1: nat, now: seq<nat>, was: seq<nat>,
                    before: seq<int>, q: nat, w: nat)
    requires q > 0 && SquareRoots(code, |b|, q) && Layout(|b|, h, 2 * t) && Layout(|b|, 2 * h, t)
    requires i < h && h + i < |b| && Starts(i, 2 * t, j1) && t > 0 && j1 + 2 * t <= |b| == |was|
    requires Untouched(now, was, j1, t, q)
    requires Progress(now, before, InverseStage(code, b, h, 2 * t), j1, j1, t, q)
    requires if t == 1 then b == Effective(was, q, w) && (q % 2 == 1 || CanSubtract(was, q))
             else before == InverseStage(code, b, 2 * h, t)
    ensures |b| <= |code|
    ensures forall j :: j1 <= j < j1 + t ==>
              StoresPair(now[j], now[j + t], code[h + i], InverseStage(code, b, h, 2 * t)[j],
                         InverseStage(code, b, h, 2 * t)[j + t], q, w)
  {
    assert |b| <= |code|;
    hide Residue, InverseStage, SquareRoots, Layout, Starts, IsInverseButterfly, StoresPair, CanSubtract, Effective;
    InverseStageStep(code, b, h, t, i, j1, q);
    var after := InverseStage(code, b, h, 2 * t);
    forall j | j1 <= j < j1 + t ensures StoresPair(now[j], now[j + t], code[h + i], after[j], after[j + t], q, w) {
      if t == 1 {
        StageOfLeaves(code, b, 2 * h, j);
        StageOfLeaves(code, b, 2 * h, j + 1);
        FirstStagePair(was, j, code[h + i], after[j], after[j + 1], q, w);
      } else {
        assert InStage(now[j], before[j], after[j], Done(j, j1, j1, t), q);
        assert InStage(now[j + t], before[j + t], after[j + t], Done(j + t, j1, j1, t), q);
        ExactPair(now[j], now[j + t], code[h + i], before[j], before[j + t], after[j], after[j + t], q, w);
      }
    }
  }

  /** Before the first stage the blocks are single entries. */
  lemma StageOfLeaves(code: seq<nat>, b: seq<int>, m: nat, p: nat)
    requires Layout(|b|, m, 1) && |b| <= |code| && p < |b|
    ensures InverseStage(code, b, m, 1)[p] == b[p]
  {
    BlockAndOffset(p, p, 0, 1);
    NttSpec.SingleLeaf(code, b, p);
  }

  /** What the array must hold before a stage, for the effective input b. */
  ghost predicate StageReady(s: seq<nat>, code: seq<Word>, b: seq<int>, h: nat, t: nat, q: Word)
    requires q > 0 && Layout(|b|, 2 * h, t) && |b| <= |code|
  {
    if t == 1 then b == Effective(s, q, TWO_TO_256) && (q % 2 == 1 || CanSubtract(s, q))
    else StageHeld(s, InverseStage(code, b, 2 * h, t), q) && AllBelow(s, q)
  }

  /** One inverse stage. */
  method InverseStageLoop(memory: array<Word>, base: nat, n: nat, scratch: nat, code: seq<Word>,
                          a: Word, S: Word, h: Word, t: Word, q: Word, ghost b: seq<int>)
    requires Placed(memory, base, n, scratch) && a == 32 * base && S == 32 * scratch
    requires q > 0 && |b| == n && SquareRoots(code, n, q) && Layout(n, 2 * h, t) && Layout(n, h, 2 * t)
    requires StageReady(Elements(memory[..], base, n), code, b, h, t, q)
    modifies memory
    ensures StageHeld(Elements(memory[..], base, n), InverseStage(code, b, h, 2 * t), q)
    ensures AllBelow(Elements(memory[..], base, n), q)
    ensures OnlyArrayChanged(memory[..], old(memory[..]), base, n, scratch)
  {
    assert |b| <= |code|;
    hide Residue, Progress, StageHeld, AllBelow, InverseStage, SquareRoots, Layout, Starts, StoresPair;
    hide Elements, Add, Mul, ShlOne, Untouched, CanSubtract, Effective;
    ghost var initial := memory[..];
    assert OnlyArrayChanged(memory[..], initial, base, n, scratch);
    hide OnlyArrayChanged;
    ghost var was: seq<nat> := Elements(initial, base, n);
    ghost var before: seq<int> := if t == 1 then was else InverseStage(code, b, 2 * h, t);
    ghost var after := InverseStage(code, b, h, 2 * t);
    HoldsItself(was, q);
    StageStart(was, before, after, t, q);
    UntouchedStart(was, t, q);
    var j1: Word := 0;
    var i: Word := 0;
    FirstBlock(2 * t);
    while h > i
      invariant i <= h && j1 <= n && Starts(i, 2 * t, j1)
      invariant Progress(Elements(memory[..], base, n), before, after, j1, j1, t, q)
      invariant Untouched(Elements(memory[..], base, n), was, j1, t, q)
      invariant OnlyArrayChanged(memory[..], initial, base, n, scratch)
      decreases h - i
    {
      BlockFits(n, h, t, i, j1);
      ghost var m0 := memory[..];
      LoadRoot(memory, base, n, scratch, code, S, Add(i, h));
      ghost var m1 := memory[..];
      ghost var now := Elements(memory[..], base, n);
      BlockStores(code, b, h, t, i, j1, now, was, before, q, TWO_TO_256);
      InverseBlock(memory, base, n, scratch, a, S, j1, t, q, before, after);
      StillOnlyArray(memory[..], m1, m0, base, n, scratch);
      StillOnlyArray(memory[..], m0, initial, base, n, scratch);
      UntouchedNext(now, Elements(memory[..], base, n), was, j1, t, q);
      j1 := Add(j1, ShlOne(t));
      i := Add(i, 1);
    }
    AllBlocks(n, h, 2 * t, j1);
    StageEnd(Elements(memory[..], base, n), before, after, t, q);
  }

  lemma HoldsItself(s: seq<nat>, q: nat)
    requires q > 0
    ensures StageHeld(s, s, q)
  {
  }

  /** The last loop of the inverse transform. */
  method Scale(memory: array<Word>, base: nat, n: nat, scratch: nat, code: seq<Word>, a: Word,
               nm1modq: Word, q: Word, ghost b: seq<int>)
    requires Placed(memory, base, n, scratch) && a == 32 * base && memory[base] == n
    requires q > 0 && |b| == n <= |code|
    requires forall p :: 0 <= p < n ==>
               Cong(Elements(memory[..], base, n)[p], NttSpec.LeafSum(code, b, p, 0, |b|), q)
    modifies memory
    ensures Elements(memory[..], base, n) == NttSpec.Intt(code, b, nm1modq, q)
    ensures OnlyArrayChanged(memory[..], old(memory[..]), base, n, scratch)
  {
    hide MulMod, NttSpec.LeafSum, Residue, Add, Mul, Elements;
    ghost var initial := memory[..];
    ghost var s := Elements(initial, base, n);
    var j: Word := 0;
    assert a / 32 == base;
    while Mload(memory, a) > j
      invariant j <= n && memory[base] == n && OnlyArrayChanged(memory[..], initial, base, n, scratch)
      invariant forall p :: 0 <= p < j ==>
                  Elements(memory[..], base, n)[p] == MulMod(NttSpec.LeafSum(code, b, p, 0, |b|), nm1modq, q)
      invariant forall p :: j <= p < n ==> Elements(memory[..], base, n)[p] == s[p]
      decreases n - j
    {
      ElementAddressExact(memory, base, n, scratch, a, j);
      ghost var was := memory[..];
      var address := ElementAddress(a, j);
      ElementsAt(was, base, n, j);
      ScaledSum(s[j], NttSpec.LeafSum(code, b, j, 0, |b|), nm1modq, q);
      Mstore(memory, address, MulMod(Mload(memory, address), nm1modq, q));
      ElementInMemory(was, memory[..], base, n, j);
      j := Add(j, 1);
    }
  }

  lemma ElementInMemory(was: seq<Word>, now: seq<Word>, base: nat, n: nat, j: nat)
    requires base + 1 + n <= |was| == |now| && j < n && now == was[base + 1 + j := now[base + 1 + j]]
    ensures Elements(now, base, n) == Elements(was, base, n)[j := now[base + 1 + j]]
  {
  }

  /**
   Inverse transform of the array at address a. It is the exact inverse transform of the effective
   array, which is the array itself where the checked version does not fail. An even q cannot go
   with an inverse of an even length, and is stated only where nothing wraps.
   */
  method Inverse(memory: array<Word>, base: nat, n: nat, scratch: nat, code: seq<Word>, a: Word, S: Word,
                 nm1modq: Word, q: Word)
    requires Placed(memory, base, n, scratch) && a == 32 * base && S == 32 * scratch && memory[base] == n
    requires q > 0 && PowerOfTwo(n) && SquareRoots(code, n, q)
    requires q % 2 == 1 || CanSubtract(Elements(memory[..], base, n), q)
    modifies memory
    ensures Elements(memory[..], base, n)
         == NttSpec.Intt(code, Effective(old(Elements(memory[..], base, n)), q, TWO_TO_256), nm1modq, q)
    ensures old(CanSubtract(Elements(memory[..], base, n), q)) ==>
              Elements(memory[..], base, n) == NttSpec.Intt(code, old(Elements(memory[..], base, n)), nm1modq, q)
    ensures OnlyArrayChanged(memory[..], old(memory[..]), base, n, scratch)
  {
    assert n <= |code|;
    hide StageHeld, AllBelow, InverseStage, SquareRoots, Layout, PowerOfTwo, Residue, MulMod, NttSpec.LeafSum;
    hide Elements, ShlOne, ShrOne, CanSubtract, Effective, NttSpec.Intt;
    ghost var initial := memory[..];
    ghost var s: seq<nat> := Elements(initial, base, n);
    ghost var b := Effective(s, q, TWO_TO_256);
    if CanSubtract(s, q) { EffectiveOfSubtractable(s, q, TWO_TO_256); }
    assert a / 32 == base;
    var t: Word := 1;
    var m := Mload(memory, a);
    WholeArray(n);
    while m > 1
      invariant Layout(n, m, t)
      invariant if t == 1 then Elements(memory[..], base, n) == s
                else StageHeld(Elements(memory[..], base, n), InverseStage(code, b, m, t), q)
                     && AllBelow(Elements(memory[..], base, n), q)
      invariant OnlyArrayChanged(memory[..], initial, base, n, scratch)
      decreases m
    {
      LayoutBounds(n, m, t);
      DoubleBlocks(n, m, t);
      var h := ShrOne(m);
      InverseStageLoop(memory, base, n, scratch, code, a, S, h, t, q, b);
      t := ShlOne(t);
      m := ShrOne(m);
    }
    LayoutBounds(n, m, t);
    if t == 1 { SingleEntry(code, s, q, TWO_TO_256); }
    InverseEnd(code, b, Elements(memory[..], base, n), m, t, q);
    Scale(memory, base, n, scratch, code, a, nm1modq, q, b);
  }

  /** An array of one entry has no pair. */
  lemma SingleEntry(code: seq<nat>, s: seq<nat>, q: nat, w: nat)
    requires q > 0 && |s| == 1 <= |code|
    ensures Effective(s, q, w) == s && Layout(1, 1, 1) && StageHeld(s, InverseStage(code, s, 1, 1), q)
  {
    InverseStart(code, s, q);
    assert Effective(s, q, w)[0] == s[0];
  }

  // ----- when the wrapping version is right -----

  /** A modulus with an inverse of an even length is odd. */
  lemma ModulusIsOdd(n: nat, nInv: int, q: nat)
    requires q > 0 && n % 2 == 0 && Cong(n * nInv, 1, q)
    ensures q % 2 == 1
  {
    hide Residue;
    var k := MultipleFromCong(n * nInv, 1, q);
    EvenProduct(n, nInv);
    EvenProduct(q, k);
  }

  lemma EvenProduct(x: int, y: int)
    ensures x % 2 == 0 ==> (x * y) % 2 == 0
  {
    if x % 2 == 0 { assert x * y == 2 * ((x / 2) * y); }
  }

  /** An excess that vanishes modulo q changes no residue. */
  lemma VanishingExcess(x: int, half: nat, e: nat, q: nat)
    requires q > 0 && Cong(e, 0, q)
    ensures Cong(x + half * e, x, q) && Cong(x - half * e, x, q)
  {
    hide Residue;
    CongMul(half, half, e, 0, q);
    CongAdd(x, x, half * e, 0, q);
    CongSub(x, x, half * e, 0, q);
  }

  lemma EntryVanishes(b: seq<nat>, p: nat, q: nat, w: nat)
    requires q > 0 && p < |b| && Cong(w, 0, q)
    ensures Cong(Effective(b, q, w)[p], b[p], q)
  {
    hide Residue;
    if p % 2 == 1 {
      VanishingExcess(b[p], (q + 1) / 2, Excess(b[p], q, w), q);
    } else if p + 1 < |b| {
      VanishingExcess(b[p], (q + 1) / 2, Excess(b[p + 1], q, w), q);
    }
  }

  /** The effective array has the residues of the array exactly when nothing wraps or q divides w. */
  lemma EffectiveResidues(b: seq<nat>, q: nat, w: nat)
    requires q % 2 == 1
    ensures (forall p :: 0 <= p < |b| ==> Cong(Effective(b, q, w)[p], b[p], q)) <==> CanSubtract(b, q) || Cong(w, 0, q)
  {
    hide Residue, Effective;
    if CanSubtract(b, q) {
      EffectiveOfSubtractable(b, q, w);
    } else if Cong(w, 0, q) {
      forall p | 0 <= p < |b| ensures Cong(Effective(b, q, w)[p], b[p], q) {
        EntryVanishes(b, p, q, w);
      }
    } else {
      var p :| 0 <= p < |b| && p % 2 == 1 && b[p] > q;
      EffectiveAtPair(b, p - 1, q, w);
      if Cong(Effective(b, q, w)[p], b[p], q) { NoExcess(b[p], (q + 1) / 2, w, q); }
    }
  }

  lemma NoExcess(x: int, half: nat, e: nat, q: nat)
    requires q > 0 && 2 * half == q + 1 && Cong(x - half * e, x, q)
    ensures Cong(e, 0, q)
  {
    hide Residue;
    var k := MultipleFromCong(x - half * e, x, q);
    DoubleHalf(half, e, q);
    assert e == (-2 * k - e) * q;
    CongFromMultiple(e, 0, -2 * k - e, q);
  }

  /** The inverse transform determines the residues of its input. */
  lemma InverseDetermines(psi: seq<int>, code: seq<nat>, b: seq<int>, c: seq<int>, nInv: int, q: nat)
    requires q > 0 && PowerOfTwo(|b|) && |b| == |c| && IsRootTable(psi, code, |b|, q) && Cong(|b| * nInv, 1, q)
    ensures NttSpec.Intt(code, b, nInv, q) == NttSpec.Intt(code, c, nInv, q)
       <==> forall p :: 0 <= p < |b| ==> Cong(b[p], c[p], q)
  {
    hide NttSpec.Intt, NttSpec.Ntt, PowerOfTwo, SquareRoots, IsInverse;
    if NttSpec.Intt(code, b, nInv, q) == NttSpec.Intt(code, c, nInv, q) {
      NttSpec.ForwardOfInverse(psi, code, b, nInv, q);
      NttSpec.ForwardOfInverse(psi, code, c, nInv, q);
      forall p | 0 <= p < |b| ensures Cong(b[p], c[p], q) {
        assert NttSpec.Reduce(b, q)[p] == NttSpec.Reduce(c, q)[p];
      }
    }
    if forall p :: 0 <= p < |b| ==> Cong(b[p], c[p], q) {
      NttSpec.InttCong(code, b, c, nInv, q);
    }
  }

  /**
   With valid tables and factor, the result with wrapping is the inverse transform of the input
   exactly when the checked version does not fail on it, or q divides the number w of word values.
   */
  lemma AssemblyInverseIsExact(psi: seq<int>, code: seq<nat>, b: seq<nat>, nInv: int, q: nat, w: nat)
    requires q > 0 && PowerOfTwo(|b|) && IsRootTable(psi, code, |b|, q) && Cong(|b| * nInv, 1, q)
    ensures NttSpec.Intt(code, Effective(b, q, w), nInv, q) == NttSpec.Intt(code, b, nInv, q)
       <==> CanSubtract(b, q) || Cong(w, 0, q)
  {
    if |b| == 1 {
      SingleEntry(code, b, q, w);
    } else {
      assert |b| % 2 == 0;
      hide Effective, NttSpec.Intt, CanSubtract, PowerOfTwo, IsRootTable, Residue;
      ModulusIsOdd(|b|, nInv, q);
      EffectiveResidues(b, q, w);
      InverseDetermines(psi, code, Effective(b, q, w), b, nInv, q);
    }
  }

  /** The base of the first array Solidity allocates: addresses below 0x80 are reserved. */
  const FIRST_FREE: nat := 4

  /** An array argument copied into fresh memory, as for a call across contracts, with a scratch word after it. */
  method LoadArray(s: seq<Word>) returns (memory: array<Word>)
    requires |s| < 0x1_0000_0000
    ensures fresh(memory) && Placed(memory, FIRST_FREE, |s|, FIRST_FREE + 1 + |s|)
    ensures memory[FIRST_FREE] == |s| && Elements(memory[..], FIRST_FREE, |s|) == s
  {
    var n := |s|;
    memory := new Word[FIRST_FREE + n + 2];
    memory[FIRST_FREE] := n;
    forall k | 0 <= k < n {
      memory[FIRST_FREE + 1 + k] := s[k];
    }
  }

  /** Forward transform of an array that has memory of its own. */
  method ForwardCopy(s: seq<Word>, code: seq<Word>, q: Word) returns (r: seq<Word>)
    requires |s| < 0x1_0000_0000 && q > 0 && PowerOfTwo(|s|) && SquareRoots(code, |s|, q)
    ensures |s| <= |code| && r == ForwardResult(code, s, q)
  {
    assert |s| <= |code|;
    hide SquareRoots, PowerOfTwo, ForwardResult, Elements;
    var memory := LoadArray(s);
    var scratch := FIRST_FREE + 1 + |s|;
    Forward(memory, FIRST_FREE, |s|, scratch, code, 32 * FIRST_FREE, 32 * scratch, q);
    r := memory[FIRST_FREE + 1..FIRST_FREE + 1 + |s|];
    IsElements(memory[..], FIRST_FREE, |s|);
  }

  /** Inverse transform of an array that has memory of its own. */
  method InverseCopy(s: seq<Word>, code: seq<Word>, nm1modq: Word, q: Word) returns (r: seq<Word>)
    requires |s| < 0x1_0000_0000 && q > 0 && PowerOfTwo(|s|) && SquareRoots(code, |s|, q)
    requires q % 2 == 1 || CanSubtract(s, q)
    ensures |s| <= |code| && r == NttSpec.Intt(code, Effective(s, q, TWO_TO_256), nm1modq, q)
    ensures CanSubtract(s, q) ==> r == NttSpec.Intt(code, s, nm1modq, q)
  {
    assert |s| <= |code|;
    hide SquareRoots, PowerOfTwo, CanSubtract, Effective, Elements, NttSpec.Intt;
    var memory := LoadArray(s);
    var scratch := FIRST_FREE + 1 + |s|;
    Inverse(memory, FIRST_FREE, |s|, scratch, code, 32 * FIRST_FREE, 32 * scratch, nm1modq, q);
    r := memory[FIRST_FREE + 1..FIRST_FREE + 1 + |s|];
    IsElements(memory[..], FIRST_FREE, |s|);
  }

  lemma IsElements(memory: seq<Word>, base: nat, n: nat)
    requires base + 1 + n <= |memory|
    ensures Elements(memory, base, n) == memory[base + 1..base + 1 + n]
  {
  }
}
