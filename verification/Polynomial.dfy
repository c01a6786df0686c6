/**
 Polynomials with integer coefficients, lowest degree first, and the schoolbook
 product modulo X^n + 1 that the number-theoretic transform speeds up.
 */
module Polynomial {
  import opened ModArith

  /**
   Value at r of the polynomial made of the coefficients j, j + t, j + 2t, ... of f.
   It is coefficient j of the remainder of f modulo X^t - r.
   */
  function StrideEval(f: seq<int>, j: nat, t: nat, r: int): int
    requires t > 0
    decreases if j < |f| then |f| - j else 0
  {
    if j >= |f| then 0 else f[j] + r * StrideEval(f, j + t, t, r)
  }

  /** Value of f at x. */
  function Eval(f: seq<int>, x: int): int {
    StrideEval(f, 0, 1, x)
  }

  /** Splitting the coefficients at stride t into those at stride 2t and their odd companions. */
  lemma {:induction false} StrideSplit(f: seq<int>, j: nat, t: nat, r: int)
    requires t > 0
    ensures StrideEval(f, j, t, r)
         == StrideEval(f, j, 2 * t, r * r) + r * StrideEval(f, j + t, 2 * t, r * r)
    decreases if j < |f| then |f| - j else 0
  {
    if j < |f| {
      StrideSplit(f, j + t, t, r);
      var odd := StrideEval(f, j + t, 2 * t, r * r);
      var rest := StrideEval(f, j + t + t, 2 * t, r * r);
      assert j + t + t == j + 2 * t;
      assert StrideEval(f, j, 2 * t, r * r) == f[j] + (r * r) * rest;
      assert r * (odd + r * rest) == r * odd + (r * r) * rest;
    }
  }

  lemma {:induction false} StrideCong(f: seq<int>, j: nat, t: nat, r: int, s: int, q: int)
    requires t > 0 && q > 0 && Cong(r, s, q)
    ensures Cong(StrideEval(f, j, t, r), StrideEval(f, j, t, s), q)
    decreases if j < |f| then |f| - j else 0
  {
    if j < |f| {
      StrideCong(f, j + t, t, r, s, q);
      var x, y := StrideEval(f, j + t, t, r), StrideEval(f, j + t, t, s);
      CongMul(r, s, x, y, q);
      CongAdd(f[j], f[j], r * x, s * y, q);
    }
  }

  /** c + s * d, coefficient by coefficient. */
  function AddScaled(c: seq<int>, s: int, d: seq<int>): (r: seq<int>)
    requires |c| == |d|
    ensures |r| == |c| && forall k :: 0 <= k < |c| ==> r[k] == c[k] + s * d[k]
  {
    seq(|c|, k requires 0 <= k < |c| => c[k] + s * d[k])
  }

  lemma {:induction false} StrideAddScaled(c: seq<int>, s: int, d: seq<int>, j: nat, r: int)
    requires |c| == |d|
    ensures StrideEval(AddScaled(c, s, d), j, 1, r) == StrideEval(c, j, 1, r) + s * StrideEval(d, j, 1, r)
    decreases if j < |c| then |c| - j else 0
  {
    if j < |c| {
      StrideAddScaled(c, s, d, j + 1, r);
      var x, y := StrideEval(c, j + 1, 1, r), StrideEval(d, j + 1, 1, r);
      calc {
        StrideEval(AddScaled(c, s, d), j, 1, r);
        (c[j] + s * d[j]) + r * (x + s * y);
        { assert r * (x + s * y) == r * x + s * (r * y); }
        (c[j] + r * x) + (s * d[j] + s * (r * y));
        { assert s * d[j] + s * (r * y) == s * (d[j] + r * y); }
        StrideEval(c, j, 1, r) + s * StrideEval(d, j, 1, r);
      }
    }
  }

  /** Evaluating a concatenation. */
  lemma {:induction false} EvalConcat(f: seq<int>, g: seq<int>, x: int)
    ensures Eval(f + g, x) == Eval(f, x) + Pow(x, |f|) * Eval(g, x)
  {
    if f == [] {
      assert f + g == g;
    } else {
      EvalConcat(f[1..], g, x);
      assert (f + g)[1..] == f[1..] + g;
      EvalCons(f, x);
      EvalCons(f + g, x);
      var p, e := Pow(x, |f| - 1), Eval(g, x);
      assert x * (Eval(f[1..], x) + p * e) == x * Eval(f[1..], x) + (x * p) * e;
    }
  }

  lemma {:induction false} EvalCons(f: seq<int>, x: int)
    requires f != []
    ensures Eval(f, x) == f[0] + x * Eval(f[1..], x)
  {
    StrideTail(f, 0, x);
  }

  lemma {:induction false} StrideTail(f: seq<int>, j: nat, x: int)
    requires f != []
    ensures StrideEval(f, j + 1, 1, x) == StrideEval(f[1..], j, 1, x)
    decreases if j < |f| then |f| - j else 0
  {
    if j + 1 < |f| { StrideTail(f, j + 1, x); }
  }

  // ----- the schoolbook product modulo X^n + 1 -----

  /** What the product a[i] * b[l] adds to coefficient k: positive when i + l == k, negative when i + l == k + n. */
  function Term(a: seq<int>, b: seq<int>, i: nat, k: nat): int
    requires |a| == |b| && i < |a| && k < |a|
  {
    if i <= k then a[i] * b[k - i] else -(a[i] * b[|a| + k - i])
  }

  /** Sum of the first m terms of coefficient k. */
  function TermSum(a: seq<int>, b: seq<int>, k: nat, m: nat): int
    requires |a| == |b| && k < |a| && m <= |a|
  {
    if m == 0 then 0 else TermSum(a, b, k, m - 1) + Term(a, b, m - 1, k)
  }

  /** The product of a and b modulo X^n + 1, by the definition. */
  function NegacyclicProduct(a: seq<int>, b: seq<int>): (c: seq<int>)
    requires |a| == |b|
    ensures |c| == |a|
  {
    seq(|a|, k requires 0 <= k < |a| => TermSum(a, b, k, |a|))
  }

  /** X^i * b modulo X^n + 1. */
  function Rotate(b: seq<int>, i: nat): (r: seq<int>)
    requires i <= |b|
    ensures |r| == |b|
  {
    seq(|b|, k requires 0 <= k < |b| => if i <= k then b[k - i] else -b[|b| + k - i])
  }

  function Zeros(n: nat): (z: seq<nat>)
    ensures |z| == n && forall k :: 0 <= k < n ==> z[k] == 0
  {
    seq(n, _ => 0)
  }

  /** The sum of the first m rows a[i] * X^i * b. */
  function RowSum(a: seq<int>, b: seq<int>, m: nat): (r: seq<int>)
    requires |a| == |b| && m <= |a|
    ensures |r| == |a|
  {
    if m == 0 then Zeros(|a|) else AddScaled(RowSum(a, b, m - 1), a[m - 1], Rotate(b, m - 1))
  }

  lemma {:induction false} RowSumTerms(a: seq<int>, b: seq<int>, m: nat, k: nat)
    requires |a| == |b| && m <= |a| && k < |a|
    ensures RowSum(a, b, m)[k] == TermSum(a, b, k, m)
  {
    if m > 0 { RowSumTerms(a, b, m - 1, k); }
  }

  /** At a point with x^n == -1, rotating is multiplying by a power of x. */
  lemma {:induction false} EvalRotate(b: seq<int>, i: nat, x: int, q: int)
    requires q > 0 && i <= |b| && Cong(Pow(x, |b|), -1, q)
    ensures Cong(Eval(Rotate(b, i), x), Pow(x, i) * Eval(b, x), q)
  {
    var n := |b|;
    var lo, hi := b[..n - i], b[n - i..];
    var negHi := AddScaled(Zeros(i), -1, hi);
    assert Rotate(b, i) == negHi + lo;
    assert b == lo + hi;
    EvalConcat(negHi, lo, x);
    EvalConcat(lo, hi, x);
    StrideAddScaled(Zeros(i), -1, hi, 0, x);
    EvalZero(i, 0, x);
    PowAdd(x, i, n - i);
    WrapAround(Pow(x, i), Pow(x, n - i), Eval(lo, x), Eval(hi, x), q);
  }

  /** p * (l + w * h) with p * w == -1: the high part h comes back negated. */
  lemma WrapAround(p: int, w: int, l: int, h: int, q: int)
    requires q > 0 && Cong(p * w, -1, q)
    ensures Cong(-h + p * l, p * (l + w * h), q)
  {
    assert p * (l + w * h) == (p * w) * h + p * l;
    CongMul(p * w, -1, h, h, q);
    CongAdd((p * w) * h, -1 * h, p * l, p * l, q);
  }

  lemma {:induction false} EvalZero(n: nat, j: nat, x: int)
    ensures StrideEval(Zeros(n), j, 1, x) == 0
    decreases if j < n then n - j else 0
  {
    if j < n { EvalZero(n, j + 1, x); }
  }

  lemma {:induction false} EvalRowSum(a: seq<int>, b: seq<int>, m: nat, x: int, q: int)
    requires q > 0 && |a| == |b| && m <= |a| && Cong(Pow(x, |b|), -1, q)
    ensures Cong(Eval(RowSum(a, b, m), x), Eval(a[..m], x) * Eval(b, x), q)
  {
    if m == 0 {
      EvalZero(|a|, 0, x);
    } else {
      EvalRowSum(a, b, m - 1, x, q);
      EvalRotate(b, m - 1, x, q);
      StrideAddScaled(RowSum(a, b, m - 1), a[m - 1], Rotate(b, m - 1), 0, x);
      assert a[..m] == a[..m - 1] + [a[m - 1]];
      EvalConcat(a[..m - 1], [a[m - 1]], x);
      EvalSingleton(a[m - 1], x);
      AddRow(Eval(RowSum(a, b, m - 1), x), Eval(a[..m - 1], x), Eval(b, x),
             a[m - 1], Eval(Rotate(b, m - 1), x), Pow(x, m - 1), q);
    }
  }

  lemma AddRow(sum: int, f: int, e: int, c: int, row: int, p: int, q: int)
    requires q > 0 && Cong(sum, f * e, q) && Cong(row, p * e, q)
    ensures Cong(sum + c * row, (f + p * c) * e, q)
  {
    CongMul(c, c, row, p * e, q);
    CongAdd(sum, f * e, c * row, c * (p * e), q);
    assert (f + p * c) * e == f * e + c * (p * e);
  }

  lemma EvalSingleton(c: int, x: int)
    ensures Eval([c], x) == c
  {
    assert StrideEval([c], 1, 1, x) == 0;
  }

  /** Evaluation at a root of X^n + 1 turns the negacyclic product into a product of values. */
  lemma EvalProduct(a: seq<int>, b: seq<int>, x: int, q: int)
    requires q > 0 && |a| == |b| && Cong(Pow(x, |b|), -1, q)
    ensures Cong(Eval(NegacyclicProduct(a, b), x), Eval(a, x) * Eval(b, x), q)
  {
    EvalRowSum(a, b, |a|, x, q);
    assert a[..|a|] == a;
    assert NegacyclicProduct(a, b) == RowSum(a, b, |a|) by {
      forall k | 0 <= k < |a| ensures NegacyclicProduct(a, b)[k] == RowSum(a, b, |a|)[k] {
        RowSumTerms(a, b, |a|, k);
      }
    }
  }

  // ----- remainders modulo X^t - r -----

  /** Value at x of the polynomial with the c coefficients StrideEval(f, j, t, r), StrideEval(f, j + 1, t, r), ... */
  function BlockEval(f: seq<int>, j: nat, t: nat, r: int, x: int, c: nat): int
    requires t > 0
    decreases c
  {
    if c == 0 then 0 else StrideEval(f, j, t, r) + x * BlockEval(f, j + 1, t, r, x, c - 1)
  }

  lemma {:induction false} BlockEvalAppend(f: seq<int>, j: nat, t: nat, r: int, x: int, c: nat)
    requires t > 0
    ensures BlockEval(f, j, t, r, x, c + 1) == BlockEval(f, j, t, r, x, c) + Pow(x, c) * StrideEval(f, j + c, t, r)
    decreases c
  {
    hide StrideEval;
    if c > 0 {
      BlockEvalAppend(f, j + 1, t, r, x, c - 1);
      MultiplyThrough(x, BlockEval(f, j + 1, t, r, x, c - 1), Pow(x, c - 1), StrideEval(f, j + c, t, r));
    }
  }

  lemma MultiplyThrough(x: int, b: int, p: int, s: int)
    ensures x * (b + p * s) == x * b + (x * p) * s
  {
  }

  /** The quotient of f, from coefficient j on, by X^t - r, at x. */
  function QuotientEval(f: seq<int>, j: nat, t: nat, r: int, x: int): int
    requires t > 0
    decreases if j < |f| then |f| - j else 0
  {
    if j >= |f| then 0 else StrideEval(f, j + t, t, r) + x * QuotientEval(f, j + 1, t, r, x)
  }

  /** Division with remainder by X^t - r, from coefficient j on. */
  lemma {:induction false} DivideFrom(f: seq<int>, j: nat, t: nat, r: int, x: int)
    requires t > 0
    ensures StrideEval(f, j, 1, x) == BlockEval(f, j, t, r, x, t) + (Pow(x, t) - r) * QuotientEval(f, j, t, r, x)
    decreases if j < |f| then |f| - j else 0
  {
    if j >= |f| {
      NothingLeft(f, j, t, r, x, t);
    } else {
      DivideFrom(f, j + 1, t, r, x);
      BlockEvalAppend(f, j, t, r, x, t);
      DivisionStep(f[j], x, Pow(x, t), r, StrideEval(f, j + t, t, r), BlockEval(f, j, t, r, x, t),
                   BlockEval(f, j + 1, t, r, x, t), QuotientEval(f, j + 1, t, r, x));
    }
  }

  lemma {:induction false} NothingLeft(f: seq<int>, j: nat, t: nat, r: int, x: int, c: nat)
    requires t > 0 && j >= |f|
    ensures BlockEval(f, j, t, r, x, c) == 0
    decreases c
  {
    if c > 0 { NothingLeft(f, j + 1, t, r, x, c - 1); }
  }

  lemma DivisionStep(c: int, x: int, p: int, r: int, s: int, block: int, next: int, quotient: int)
    requires c + r * s + x * next == block + p * s
    ensures c + x * (next + (p - r) * quotient) == block + (p - r) * (s + x * quotient)
  {
    assert (p - r) * (s + x * quotient) == p * s - r * s + (p - r) * (x * quotient);
    assert x * ((p - r) * quotient) == (p - r) * (x * quotient);
    assert x * (next + (p - r) * quotient) == x * next + x * ((p - r) * quotient);
  }

  lemma {:induction false} EvalOfBlock(f: seq<int>, block: seq<int>, j: nat, t: nat, r: int, x: int)
    requires t > 0 && |block| == t && j <= t
    requires forall c :: 0 <= c < t ==> block[c] == StrideEval(f, c, t, r)
    ensures StrideEval(block, j, 1, x) == BlockEval(f, j, t, r, x, t - j)
    decreases t - j
  {
    if j < t { EvalOfBlock(f, block, j + 1, t, r, x); }
  }

  /** The values StrideEval(f, c, t, r) for c < t are the coefficients of the remainder of f by X^t - r. */
  lemma StridesAreRemainder(f: seq<int>, block: seq<int>, t: nat, r: int, x: int)
    requires t > 0 && |block| == t
    requires forall c :: 0 <= c < t ==> block[c] == StrideEval(f, c, t, r)
    ensures Eval(f, x) == Eval(block, x) + (Pow(x, t) - r) * QuotientEval(f, 0, t, r, x)
  {
    DivideFrom(f, 0, t, r, x);
    EvalOfBlock(f, block, 0, t, r, x);
  }
}
