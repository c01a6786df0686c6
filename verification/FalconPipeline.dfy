/** From signature bytes to the verdict: the decoder feeds the verifier. */
module FalconPipeline {
  import opened Evm
  import opened ModArith
  import opened Polynomial
  import opened FalconParameters
  import opened BitStream
  import opened SignatureCodec
  import opened DecodeFinal
  import opened ZknoxFalcon
  import HashToPoint
  import NttSpec

  /** Each coefficient of a product depends on the residues of the factors only. */
  lemma {:induction false} TermSumCong(a: seq<int>, a': seq<int>, b: seq<int>, k: nat, m: nat, q: int)
    requires q > 0 && |a| == |a'| == |b| && k < |a| && m <= |a|
    requires forall i :: 0 <= i < |a| ==> Cong(a[i], a'[i], q)
    ensures Cong(TermSum(a, b, k, m), TermSum(a', b, k, m), q)
  {
    if m > 0 {
      hide Residue;
      TermSumCong(a, a', b, k, m - 1, q);
      var c := if m - 1 <= k then b[k - (m - 1)] else -b[|a| + k - (m - 1)];
      TermAsProduct(a, b, m - 1, k);
      TermAsProduct(a', b, m - 1, k);
      CongMul(a[m - 1], a'[m - 1], c, c, q);
      CongAdd(TermSum(a, b, k, m - 1), TermSum(a', b, k, m - 1), a[m - 1] * c, a'[m - 1] * c, q);
    }
  }

  lemma TermAsProduct(a: seq<int>, b: seq<int>, i: nat, k: nat)
    requires |a| == |b| && i < |a| && k < |a|
    ensures Term(a, b, i, k) == a[i] * if i <= k then b[k - i] else -b[|a| + k - i]
  {
  }

  lemma ProductCong(a: seq<int>, a': seq<int>, b: seq<int>)
    requires |a| == |a'| == |b| && forall i :: 0 <= i < |a| ==> Cong(a[i], a'[i], Q)
    ensures NttSpec.Reduce(NegacyclicProduct(a, b), Q) == NttSpec.Reduce(NegacyclicProduct(a', b), Q)
  {
    hide TermSum, Residue;
    forall k | 0 <= k < |a| ensures Cong(TermSum(a, b, k, |a|), TermSum(a', b, k, |a|), Q) {
      TermSumCong(a, a', b, k, |a|, Q);
    }
  }

  /** A decoded coefficient is its own centered representative. */
  lemma CenteredOfSigned(x: int)
    requires Legal(x)
    ensures Centered(x) == x
  {
    if x < 0 { DivModUnique(x, -1, x + Q, Q); } else { DivModUnique(x, 0, x, Q); }
  }

  lemma EqualSquares(a: nat, b: nat)
    requires a * a == b * b
    ensures a == b
  {
    SquaresGrow(a, b);
    SquaresGrow(b, a);
  }

  lemma SquaresGrow(a: nat, b: nat)
    ensures a < b ==> a * a < b * b
  {
    if a < b { assert a * a <= a * b < b * b; }
  }

  /** Folding decoded coefficients at q/2 recovers the absolute values that were encoded. */
  lemma FoldRecoversAbsoluteValues(xs: seq<int>, residues: seq<nat>, folded: seq<nat>)
    requires (forall i :: 0 <= i < |xs| ==> Legal(xs[i])) && residues == ToModQ(xs) && FoldOf(folded, residues)
    ensures |folded| == |xs| && forall i :: 0 <= i < |xs| ==> folded[i] == Abs(xs[i])
  {
    hide Centered;
    forall i | 0 <= i < |xs| ensures folded[i] == Abs(xs[i]) {
      CenteredOfCong(residues[i], xs[i]);
      CenteredOfSigned(xs[i]);
      assert Abs(xs[i]) * Abs(xs[i]) == xs[i] * xs[i];
      EqualSquares(folded[i], Abs(xs[i]));
    }
  }

  /** Decoded coefficients taken modulo q never make the verifier revert. */
  lemma DecodedFits(xs: seq<int>)
    requires forall i :: 0 <= i < |xs| ==> Legal(xs[i])
    ensures forall i :: 0 <= i < |xs| ==> 0 <= ToModQ(xs)[i] <= Q
  {
    hide Cong;
  }

  /** The squared norm of signed coefficients. */
  function SumOfSquares(xs: seq<int>, n: nat): nat
    requires n <= |xs|
  {
    if n == 0 then 0 else SquareNonNegative(xs[n - 1]); SumOfSquares(xs, n - 1) + xs[n - 1] * xs[n - 1]
  }

  lemma SquareNonNegative(x: int)
    ensures x * x >= 0
  {
  }

  lemma {:induction false} NormOfSigned(xs: seq<int>, n: nat)
    requires n <= |xs| && forall i :: 0 <= i < |xs| ==> Legal(xs[i])
    ensures SquaredNorm(xs, n) == SumOfSquares(xs, n)
  {
    if n > 0 {
      hide Centered;
      NormOfSigned(xs, n - 1);
      CenteredOfSigned(xs[n - 1]);
    }
  }

  /**
   Main result: verifying a decoded signature decides, in terms of the signed coefficients
   that were encoded, whether the pair (c - x * h, x) is short; the coefficients never make it revert.
   */
  lemma VerifyDecoded(keccak: Hash, msgs: seq<Byte>, salt: seq<Byte>, xs: seq<int>, s2: seq<Word>, h: seq<Word>,
                      gas: nat)
    requires |xs| == N == |h| && |salt| == SALT_LENGTH && (forall i :: 0 <= i < N ==> Legal(xs[i])) && s2 == ToModQ(xs)
    ensures var hashed := HashToPoint.Hashed(keccak, salt, msgs, Q, N, gas);
            VerifyOutcome(keccak, msgs, Signature(salt, s2), h, gas) ==
              if hashed.Reverted? then Reverted
              else Returned(SquaredNorm(Difference(hashed.value, NegacyclicProduct(xs, h)),
                      N) + SumOfSquares(xs, N) <= SIG_BOUND)
  {
    hide SquaredNorm, Centered, Residue, NegacyclicProduct, SumOfSquares, Legal;
    var hashed := HashToPoint.Hashed(keccak, salt, msgs, Q, N, gas);
    DecodedFits(xs);
    ProductCong(s2, xs, h);
    DecideCong(hashed, NegacyclicProduct(s2, h), NegacyclicProduct(xs, h), s2);
    SquaredNormCong(s2, xs, N);
    NormOfSigned(xs, N);
  }

  /** The same from the bytes of a signature whose data starts with the encoding of xs. */
  lemma VerifyEncoded(keccak: Hash, msgs: seq<Byte>, sigBytes: seq<Byte>, xs: seq<int>, suffix: seq<Byte>,
                      s2: seq<Word>, h: seq<Word>, gas: nat)
    requires |xs| == N == |h| && (forall i :: 0 <= i < N ==> Legal(xs[i])) && s2 == ToModQ(xs)
    requires |sigBytes| >= 43 && sigBytes[43..] == EncodeBytes(xs) + suffix
    ensures Coefficients(DecodeFrom(Stream(Subarray(sigBytes, 43, |sigBytes|)), 0, 0, N)) == Ok(xs)
    ensures var salt := Subarray(sigBytes, 2, 42);
            var hashed := HashToPoint.Hashed(keccak, salt, msgs, Q, N, gas);
            VerifyOutcome(keccak, msgs, Signature(salt, s2), h, gas) ==
              if hashed.Reverted? then Reverted
              else Returned(SquaredNorm(Difference(hashed.value, NegacyclicProduct(xs, h)),
                      N) + SumOfSquares(xs, N) <= SIG_BOUND)
  {
    hide EncodeBytes, DecodeFrom, Stream, VerifyOutcome, SquaredNorm, SumOfSquares, NegacyclicProduct, Legal;
    RoundTrip(xs, suffix);
    assert EncodeBytes(xs) + suffix == Subarray(sigBytes, 43, |sigBytes|);
    VerifyDecoded(keccak, msgs, Subarray(sigBytes, 2, 42), xs, s2, h, gas);
  }

  // ----- what acceptance means -----

  /** The centered representative is the smallest in absolute value. */
  lemma CenteredIsSmallest(x: int, y: int)
    requires Cong(y, x, Q)
    ensures Centered(x) * Centered(x) <= y * y
  {
    CenteredOfCong(x, y);
    var c := Centered(y);
    if -QS1 <= y <= QS1 {
      if y < 0 { DivModUnique(y, -1, y + Q, Q); } else { DivModUnique(y, 0, y, Q); }
    } else {
      SquareBound(c, QS1);
      LargeSquare(y);
    }
  }

  lemma LargeSquare(y: int)
    requires !(-QS1 <= y <= QS1)
    ensures QS1 * QS1 <= y * y
  {
    var z := if y < 0 then -y else y;
    assert z * z == y * y && QS1 * QS1 <= z * QS1 <= z * z;
  }

  /** Coefficient by coefficient the same residues. */
  predicate SameResidues(v: seq<int>, w: seq<int>) {
    |v| == |w| && forall i :: 0 <= i < |v| ==> Cong(v[i], w[i], Q)
  }

  lemma {:induction false} NormIsSmallest(v: seq<int>, w: seq<int>, n: nat)
    requires n <= |v| && SameResidues(w, v)
    ensures SquaredNorm(v, n) <= SumOfSquares(w, n)
  {
    if n > 0 {
      hide Centered;
      NormIsSmallest(v, w, n - 1);
      CenteredIsSmallest(v[n - 1], w[n - 1]);
    }
  }

  /** The centered representatives of all coefficients. */
  function CenteredAll(v: seq<int>): (w: seq<int>)
    ensures |w| == |v| && SameResidues(w, v)
  {
    seq(|v|, i requires 0 <= i < |v| => Centered(v[i]))
  }

  lemma {:induction false} NormIsAttained(v: seq<int>, n: nat)
    requires n <= |v|
    ensures SumOfSquares(CenteredAll(v), n) == SquaredNorm(v, n)
  {
    if n > 0 {
      hide Centered;
      NormIsAttained(v, n - 1);
    }
  }

  /** s1 + x * h is the hashed message modulo q, and the pair (s1, x) is short: the defining equation of a signature. */
  predicate ShortSolution(c: seq<int>, h: seq<int>, s1: seq<int>, x: seq<int>)
    requires |c| == |h| == N
  {
    && |s1| == |x| == N
    && SameResidues(s1, Difference(c, NegacyclicProduct(x, h)))
    && SumOfSquares(s1, N) + SumOfSquares(x, N) <= SIG_BOUND
  }

  ghost predicate HasShortSolution(c: seq<int>, h: seq<int>, s2: seq<int>)
    requires |c| == |h| == N
  {
    exists s1: seq<int>, x: seq<int> :: SameResidues(x, s2) && ShortSolution(c, h, s1, x)
  }

  /**
   Main result: a well-formed signature is accepted exactly when its coefficients are the residues
   of some integers x for which some integers s1 solve s1 + x * h == c modulo q and X^n + 1, with
   the squared norm of the pair within the bound.
   */
  lemma AcceptanceIsShortSolution(keccak: Hash, msgs: seq<Byte>, signature: Signature, h: seq<Word>, gas: nat)
    requires |h| == N && |signature.salt| == SALT_LENGTH && AllAtMostQ(signature.s2)
    requires HashToPoint.Hashed(keccak, signature.salt, msgs, Q, N, gas).Returned?
    ensures VerifyOutcome(keccak, msgs, signature, h, gas) == Returned(true)
       <==> HasShortSolution(HashToPoint.Hashed(keccak, signature.salt, msgs, Q, N, gas).value, h, signature.s2)
  {
    var c: seq<int> := HashToPoint.Hashed(keccak, signature.salt, msgs, Q, N, gas).value;
    hide SquaredNorm, SumOfSquares, NegacyclicProduct, HashToPoint.Hashed, CenteredAll, SameResidues;
    if Short(c, NegacyclicProduct(signature.s2, h), signature.s2) {
      ShortHasSolution(c, h, signature.s2);
    } else if HasShortSolution(c, h, signature.s2) {
      var s1: seq<int>, x: seq<int> :| SameResidues(x, signature.s2) && ShortSolution(c, h, s1, x);
      SolutionIsShort(c, h, signature.s2, s1, x);
    }
  }

  lemma ShortHasSolution(c: seq<int>, h: seq<int>, s2: seq<int>)
    requires |c| == |h| == |s2| == N && Short(c, NegacyclicProduct(s2, h), s2)
    ensures HasShortSolution(c, h, s2)
  {
    hide SquaredNorm, SumOfSquares, NegacyclicProduct, CenteredAll, Residue;
    var x := CenteredAll(s2);
    var s1 := CenteredAll(Difference(c, NegacyclicProduct(x, h)));
    SameDifference(c, h, s2, x);
    SquaredNormCong(Difference(c, NegacyclicProduct(s2, h)), Difference(c, NegacyclicProduct(x, h)), N);
    NormIsAttained(s2, N);
    NormIsAttained(Difference(c, NegacyclicProduct(x, h)), N);
    assert SameResidues(x, s2) && ShortSolution(c, h, s1, x);
  }

  lemma SolutionIsShort(c: seq<int>, h: seq<int>, s2: seq<int>, s1: seq<int>, x: seq<int>)
    requires |c| == |h| == |s2| == N && SameResidues(x, s2) && ShortSolution(c, h, s1, x)
    ensures Short(c, NegacyclicProduct(s2, h), s2)
  {
    hide SquaredNorm, SumOfSquares, NegacyclicProduct, Residue;
    SameDifference(c, h, s2, x);
    SquaredNormCong(Difference(c, NegacyclicProduct(s2, h)), Difference(c, NegacyclicProduct(x, h)), N);
    NormIsSmallest(s2, x, N);
    NormIsSmallest(Difference(c, NegacyclicProduct(x, h)), s1, N);
  }

  lemma SameDifference(c: seq<int>, h: seq<int>, s2: seq<int>, x: seq<int>)
    requires |c| == |h| == N && |s2| == |x| == N && SameResidues(x, s2)
    ensures SameResidues(Difference(c, NegacyclicProduct(s2, h)), Difference(c, NegacyclicProduct(x, h)))
  {
    hide NegacyclicProduct, Residue;
    ProductCong(x, s2, h);
    var p, p' := NegacyclicProduct(s2, h), NegacyclicProduct(x, h);
    forall i | 0 <= i < N ensures Cong(Difference(c, p)[i], Difference(c, p')[i], Q) {
      assert NttSpec.Reduce(p, Q)[i] == NttSpec.Reduce(p', Q)[i];
      CongSub(c[i], c[i], p[i], p'[i], Q);
    }
  }

  // ----- which signatures are as good as each other -----

  lemma ResiduesAtMostQ(x: nat, y: nat)
    requires x <= Q && y <= Q && Cong(x, y, Q)
    ensures x == y || (x == 0 && y == Q) || (x == Q && y == 0)
  {
    if x < Q { DivModUnique(x, 0, x, Q); } else { DivModUnique(Q, 1, 0, Q); }
    if y < Q { DivModUnique(y, 0, y, Q); } else { DivModUnique(Q, 1, 0, Q); }
  }

  /** Congruent entries within the range that is checked have the same outcome, and differ only as 0 and q do. */
  lemma CongruentSignatures(keccak: Hash, msgs: seq<Byte>, signature: Signature, other: Signature, h: seq<Word>,
                            gas: nat)
    requires signature.salt == other.salt && SameResidues(signature.s2, other.s2)
    requires AllAtMostQ(signature.s2) && AllAtMostQ(other.s2)
    ensures VerifyOutcome(keccak, msgs, signature, h, gas) == VerifyOutcome(keccak, msgs, other, h, gas)
    ensures forall i :: 0 <= i < N ==>
              || signature.s2[i] == other.s2[i]
              || (signature.s2[i] == 0 && other.s2[i] == Q) || (signature.s2[i] == Q && other.s2[i] == 0)
  {
    hide SquaredNorm, NegacyclicProduct, Residue, Short;
    var s, t := signature.s2, other.s2;
    forall i | 0 <= i < N ensures s[i] == t[i] || (s[i] == 0 && t[i] == Q) || (s[i] == Q && t[i] == 0) {
      ResiduesAtMostQ(s[i], t[i]);
    }
    if |h| == N {
      ProductCong(s, t, h);
      var hashed := HashToPoint.Hashed(keccak, signature.salt, msgs, Q, N, gas);
      DecideCong(hashed, NegacyclicProduct(s, h), NegacyclicProduct(t, h), s);
      SameDecision(hashed, NegacyclicProduct(t, h), s, t);
    }
  }

  lemma SameDecision(hashed: Outcome<seq<nat>>, p: seq<int>, s: seq<nat>, t: seq<nat>)
    requires (hashed.Returned? ==> |hashed.value| == N) && |p| == |s| == |t| == N
    requires SameResidues(s, t) && AllAtMostQ(s) && AllAtMostQ(t)
    ensures Decide(hashed, p, s) == Decide(hashed, p, t)
  {
    hide SquaredNorm, Residue;
    SquaredNormCong(s, t, N);
  }

  /** No other vector of the range has the same residues. */
  ghost predicate OnlyOne(s2: seq<Word>) {
    forall t: seq<Word> :: SameResidues(t, s2) && AllAtMostQ(t) ==> t == s2
  }

  /**
   The range check leaves a signature one form exactly when no entry is 0 or q: such an entry can be
   exchanged for the other of the two.
   */
  lemma OneFormExactly(s2: seq<Word>)
    requires AllAtMostQ(s2)
    ensures OnlyOne(s2) <==> forall i :: 0 <= i < |s2| ==> 0 < s2[i] < Q
  {
    hide Residue;
    if forall i :: 0 <= i < |s2| ==> 0 < s2[i] < Q {
      forall t: seq<Word> | SameResidues(t, s2) && AllAtMostQ(t) ensures t == s2 {
        forall i | 0 <= i < |s2| ensures t[i] == s2[i] { ResiduesAtMostQ(t[i], s2[i]); }
      }
    } else {
      var i :| 0 <= i < |s2| && !(0 < s2[i] < Q);
      var x: Word := if s2[i] == 0 then Q else 0;
      CongFromMultiple(x, s2[i], if s2[i] == 0 then 1 else -1, Q);
      var t := s2[i := x];
      assert SameResidues(t, s2) && AllAtMostQ(t) && t[i] != s2[i];
    }
  }
}
