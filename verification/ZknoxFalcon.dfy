/** Signature verification: recompute s1 = c - s2 * h and bound the norm of (s1, s2). */
module ZknoxFalcon {
  import opened Evm
  import opened FalconParameters
  import opened ModArith
  import opened Polynomial
  import opened RootTable
  import opened ZknoxNtt
  import HashToPoint
  import NttSpec
  import NttStages

  const SIG_BOUND: nat := 34034726
  const SALT_LENGTH: nat := 40
  /** q >> 1 */
  const QS1: int := 6144

  datatype AnySignature = Signature(salt: seq<Byte>, s2: seq<Word>)

  /** s2 is a fixed-size array of the ABI. */
  type Signature = s: AnySignature | |s.s2| == N witness Signature([], seq(N, _ => 0))

  // ----- what verification means -----

  /** The representative of x modulo q that is smallest in absolute value. */
  function Centered(x: int): (r: int)
    ensures -QS1 <= r <= QS1 && Cong(r, x, Q)
  {
    CenteredCong(x);
    if Residue(x, Q) <= QS1 then Residue(x, Q) else Residue(x, Q) - Q
  }

  lemma CenteredCong(x: int)
    ensures Cong(Residue(x, Q), x, Q) && Cong(Residue(x, Q) - Q, x, Q)
  {
    CongMod(x, Q);
    CongFromMultiple(Residue(x, Q) - Q, Residue(x, Q), -1, Q);
  }

  /** The squared norm of the centered representatives of the first n coefficients. */
  function SquaredNorm(v: seq<int>, n: nat): (r: nat)
    requires n <= |v|
    ensures r <= n * (QS1 * QS1)
  {
    if n == 0 then 0
    else
      SquareBound(Centered(v[n - 1]), QS1);
      SquaredNorm(v, n - 1) + Centered(v[n - 1]) * Centered(v[n - 1])
  }

  lemma SquareBound(x: int, b: int)
    requires -b <= x <= b
    ensures 0 <= x * x <= b * b
  {
    var y := if x < 0 then -x else x;
    assert x * x == y * y;
    assert y * y <= y * b <= b * b;
  }

  /** Coefficients of c - p. */
  function Difference(c: seq<int>, p: seq<int>): (d: seq<int>)
    requires |c| == |p|
    ensures |d| == |c| && forall i :: 0 <= i < |c| ==> d[i] == c[i] - p[i]
  {
    seq(|c|, i requires 0 <= i < |c| => c[i] - p[i])
  }

  /** The pair (c - product, s2) is short enough. */
  predicate Short(c: seq<int>, product: seq<int>, s2: seq<int>)
    requires |c| == |product| == |s2| == N
  {
    SquaredNorm(Difference(c, product), N) + SquaredNorm(s2, N) <= SIG_BOUND
  }

  predicate AllAtMostQ(s2: seq<nat>) {
    forall i :: 0 <= i < |s2| ==> s2[i] <= Q
  }

  /** The outcome for a hashed message, given the product of s2 and the key. */
  function Decide(hashed: Outcome<seq<nat>>, product: seq<int>, s2: seq<nat>): Outcome<bool>
    requires hashed.Returned? ==> |hashed.value| == N
    requires |product| == |s2| == N
  {
    if hashed.Reverted? || !AllAtMostQ(s2) then Reverted else Returned(Short(hashed.value, product, s2))
  }

  /** The outcome of verifying against the public key h. */
  function VerifyOutcome(keccak: Hash, msgs: seq<Byte>, signature: Signature, h: seq<Word>, gas: nat): Outcome<bool> {
    if |h| != N || |signature.salt| != SALT_LENGTH then Returned(false)
    else Decide(HashToPoint.Hashed(keccak, signature.salt, msgs, Q, N, gas), NegacyclicProduct(signature.s2,
            h), signature.s2)
  }

  /** The outcome of verifying against a key given by its transform. */
  function VerifyOptOutcome(psi: seq<int>, inv: seq<int>, nInv: int, keccak: Hash, msgs: seq<Byte>,
                            signature: Signature, ntth: seq<Word>, gas: nat): Outcome<bool>
    requires N <= |psi| && N <= |inv|
  {
    if |ntth| != N || |signature.salt| != SALT_LENGTH then Returned(false)
    else
      var products := NttSpec.Pointwise(NttSpec.Ntt(psi, signature.s2, Q), ntth, Q);
      Decide(HashToPoint.Hashed(keccak, signature.salt, msgs, Q, N, gas), NttSpec.Intt(inv, products, nInv, Q),
              signature.s2)
  }

  // ----- only the residues of the product matter -----

  lemma CenteredOfCong(x: int, y: int)
    requires Cong(x, y, Q)
    ensures Centered(x) == Centered(y)
  {
  }

  lemma {:induction false} SquaredNormCong(v: seq<int>, w: seq<int>, n: nat)
    requires n <= |v| == |w| && forall i :: 0 <= i < n ==> Cong(v[i], w[i], Q)
    ensures SquaredNorm(v, n) == SquaredNorm(w, n)
  {
    if n > 0 {
      SquaredNormCong(v, w, n - 1);
      CenteredOfCong(v[n - 1], w[n - 1]);
    }
  }

  lemma ShortCong(c: seq<int>, p: seq<int>, p': seq<int>, s2: seq<int>)
    requires |c| == |p| == |p'| == |s2| == N && NttSpec.Reduce(p, Q) == NttSpec.Reduce(p', Q)
    ensures Short(c, p, s2) == Short(c, p', s2)
  {
    hide SquaredNorm, Residue;
    forall i | 0 <= i < N ensures Cong(Difference(c, p)[i], Difference(c, p')[i], Q) {
      assert NttSpec.Reduce(p, Q)[i] == NttSpec.Reduce(p', Q)[i];
      CongSub(c[i], c[i], p[i], p'[i], Q);
    }
    SquaredNormCong(Difference(c, p), Difference(c, p'), N);
  }

  lemma DecideCong(hashed: Outcome<seq<nat>>, p: seq<int>, p': seq<int>, s2: seq<nat>)
    requires (hashed.Returned? ==> |hashed.value| == N) && |p| == |p'| == |s2| == N
    requires NttSpec.Reduce(p, Q) == NttSpec.Reduce(p', Q)
    ensures Decide(hashed, p, s2) == Decide(hashed, p', s2)
  {
    hide Short;
    if hashed.Returned? { ShortCong(hashed.value, p, p', s2); }
  }

  /** Reducing twice is reducing once. */
  lemma ReduceReduced(f: seq<int>, q: nat)
    requires q > 0
    ensures NttSpec.Reduce(NttSpec.Reduce(f, q), q) == NttSpec.Reduce(f, q)
  {
    forall i | 0 <= i < |f| ensures Residue(Residue(f[i], q), q) == Residue(f[i], q) {
      CongMod(f[i], q);
    }
  }

  /** Main result: giving the transform of the key to verify_opt is giving the key to verify. */
  lemma VerifyOptAgrees(psi: seq<int>, inv: seq<int>, nInv: int, keccak: Hash, msgs: seq<Byte>,
                        signature: Signature, h: seq<Word>, gas: nat)
    requires IsRootTable(psi, inv, N, Q) && Cong(N * nInv, 1, Q) && |h| == N
    ensures VerifyOptOutcome(psi, inv, nInv, keccak, msgs, signature, NttSpec.Ntt(psi, h, Q), gas)
         == VerifyOutcome(keccak, msgs, signature, h, gas)
  {
    hide Decide, NegacyclicProduct, NttSpec.Intt, NttSpec.Pointwise, NttSpec.Ntt, SquareRoots, IsInverse;
    if |signature.salt| == SALT_LENGTH {
      assert PowerOfTwo(N);
      NttSpec.ConvolutionTheorem(psi, inv, signature.s2, h, nInv, Q);
      ReduceReduced(NegacyclicProduct(signature.s2, h), Q);
      DecideCong(HashToPoint.Hashed(keccak, signature.salt, msgs, Q, N, gas),
                 NttSpec.Reduce(NegacyclicProduct(signature.s2, h), Q), NegacyclicProduct(signature.s2, h),
                 signature.s2);
    }
  }

  /** Conversely every 512-entry argument of verify_opt acts as the key it is the transform of. */
  lemma VerifyOptHasKey(psi: seq<int>, inv: seq<int>, nInv: int, keccak: Hash, msgs: seq<Byte>,
                        signature: Signature, ntth: seq<Word>, gas: nat)
    requires IsRootTable(psi, inv, N, Q) && Cong(N * nInv, 1, Q) && |ntth| == N
    ensures VerifyOptOutcome(psi, inv, nInv, keccak, msgs, signature, ntth, gas)
         == VerifyOutcome(keccak, msgs, signature, NttSpec.Intt(inv, ntth, nInv, Q), gas)
  {
    assert PowerOfTwo(N);
    NttSpec.ForwardOfInverse(psi, inv, ntth, nInv, Q);
    var h: seq<Word> := NttSpec.Intt(inv, ntth, nInv, Q);
    VerifyOptAgrees(psi, inv, nInv, keccak, msgs, signature, h, gas);
    NttStages.PointwiseOfReducedRight(NttSpec.Ntt(psi, signature.s2, Q), ntth, Q);
  }

  // ----- the contract -----

  /** Folding in place at q/2; the checked q - x fails for an entry above q. */
  method Fold(a: array<nat>) returns (ok: bool)
    modifies a
    ensures ok <==> AllAtMostQ(old(a[..]))
    ensures ok ==> FoldOf(a[..], old(a[..]))
  {
    hide Centered;
    var i := 0;
    while i < a.Length
      invariant i <= a.Length
      invariant forall j :: 0 <= j < i ==> old(a[j]) <= Q && a[j] <= QS1
      invariant forall j :: 0 <= j < i ==> a[j] * a[j] == Centered(old(a[j])) * Centered(old(a[j]))
      invariant forall j :: i <= j < a.Length ==> a[j] == old(a[j])
    {
      if a[i] > QS1 {
        if a[i] > Q {
          return false;
        }
        FoldedSquare(a[i]);
        a[i] := Q - a[i];
      } else {
        FoldedSquare(a[i]);
        a[i] := a[i];
      }
      i := i + 1;
    }
    return true;
  }

  /** Folding loses the sign only. */
  lemma FoldedSquare(x: nat)
    requires x <= Q
    ensures var y := if x > QS1 then Q - x else x;
            y <= QS1 && y * y == Centered(x) * Centered(x)
  {
    if x == Q {
      DivModUnique(Q, 1, 0, Q);
    } else {
      DivModUnique(x, 0, x, Q);
    }
    assert (Q - x) * (Q - x) == (x - Q) * (x - Q);
  }

  /** Folding both vectors and summing their squares. */
  method CheckNorm(s1: array<nat>, s2: array<nat>) returns (r: Outcome<bool>)
    requires s1 != s2 && s1.Length == s2.Length == N
    requires AllAtMostQ(s1[..])
    modifies s1, s2
    ensures r == if AllAtMostQ(old(s2[..]))
                 then Returned(SquaredNorm(old(s1[..]), N) + SquaredNorm(old(s2[..]), N) <= SIG_BOUND)
                 else Reverted
  {
    hide Centered, SquaredNorm;
    ghost var v, w := s1[..], s2[..];
    var ok := Fold(s1);
    assert FoldOf(s1[..], v);
    ok := Fold(s2);
    if !ok {
      return Reverted;
    }
    assert FoldOf(s2[..], w);
    r := SumSquares(s1, s2, v, w);
  }

  /** a holds absolute values of centered representatives of v. */
  ghost predicate FoldOf(a: seq<nat>, v: seq<nat>) {
    && |a| == |v|
    && forall i :: 0 <= i < |a| ==> a[i] <= QS1 && a[i] * a[i] == Centered(v[i]) * Centered(v[i])
  }

  /** The norm loop; no checked addition overflows. */
  method SumSquares(s1: array<nat>, s2: array<nat>, ghost v: seq<nat>, ghost w: seq<nat>) returns (r: Outcome<bool>)
    requires s1.Length == s2.Length == N && FoldOf(s1[..], v) && FoldOf(s2[..], w)
    ensures r == Returned(SquaredNorm(v, N) + SquaredNorm(w, N) <= SIG_BOUND)
  {
    assert |v| == N && |w| == N;
    hide Centered, FoldOf, SquaredNorm;
    var norm: Word := 0;
    NoSquares(v);
    NoSquares(w);
    var i := 0;
    while i < N
      invariant i <= N && norm == SquaredNorm(v, i) + SquaredNorm(w, i)
    {
      NextSquare(s1[..], v, i);
      NextSquare(s2[..], w, i);
      norm := norm + s1[i] * s1[i];
      norm := norm + s2[i] * s2[i];
      i := i + 1;
    }
    return Returned(!(norm > SIG_BOUND));
  }

  lemma NoSquares(v: seq<nat>)
    ensures SquaredNorm(v, 0) == 0
  {
  }

  lemma NextSquare(a: seq<nat>, v: seq<nat>, i: nat)
    requires FoldOf(a, v) && i < |v| && |v| == N
    ensures |a| == |v| && SquaredNorm(v, i + 1) == SquaredNorm(v, i) + a[i] * a[i]
    ensures 0 <= a[i] * a[i] <= QS1 * QS1 && SquaredNorm(v, i) <= N * (QS1 * QS1)
  {
    hide Centered;
    SquareBound(a[i], QS1);
  }

  method Verify(ntt: Ntt, keccak: Hash, msgs: seq<Byte>, signature: Signature, h: seq<Word>, gas: nat)
    returns (r: Outcome<bool>)
    requires ntt.storageQ == Q && ntt.Configured(N)
    ensures r == VerifyOutcome(keccak, msgs, signature, h, gas)
    ensures var c := HashToPoint.Hashed(keccak, signature.salt, msgs, Q, N, gas);
            var wellFormed := |h| == N && |signature.salt| == SALT_LENGTH;
            && (r == Reverted <==> wellFormed && (c.Reverted? || exists i :: 0 <= i < N && signature.s2[i] > Q))
            && (r == Returned(true) <==>
                  && wellFormed && c.Returned? && (forall i :: 0 <= i < N ==> signature.s2[i] <= Q)
                  && SquaredNorm(Difference(c.value, NegacyclicProduct(signature.s2, h)), N)
                     + SquaredNorm(signature.s2, N) <= 34034726)
  {
    if |h| != N {
      return Returned(false);
    }
    if |signature.salt| != SALT_LENGTH {
      return Returned(false);
    }
    var hashed := HashToPoint.HashToPoint(keccak, signature.salt, msgs, Q, N, gas);
    if hashed.Reverted? {
      return Reverted;
    }
    assert PowerOfTwo(N);
    var product := ntt.NttMul(signature.s2, h);
    r := Finish(hashed.value, product.value, signature.s2);
    ReduceReduced(NegacyclicProduct(signature.s2, h), Q);
    DecideCong(hashed, product.value, NegacyclicProduct(signature.s2, h), signature.s2);
  }

  method VerifyOpt(ntt: Ntt, keccak: Hash, msgs: seq<Byte>, signature: Signature, ntth: seq<Word>, gas: nat)
    returns (r: Outcome<bool>)
    requires ntt.storageQ == Q && ntt.Configured(N)
    ensures r == VerifyOptOutcome(ntt.psiCode, ntt.psiInvCode, ntt.storageNm1modq, keccak, msgs, signature, ntth, gas)
    ensures var c := HashToPoint.Hashed(keccak, signature.salt, msgs, Q, N, gas);
            var wellFormed := |ntth| == N && |signature.salt| == SALT_LENGTH;
            && (r == Reverted <==> wellFormed && (c.Reverted? || exists i :: 0 <= i < N && signature.s2[i] > Q))
            && (r == Returned(true) <==>
                  && wellFormed && c.Returned? && (forall i :: 0 <= i < N ==> signature.s2[i] <= Q)
                  && var h := NttSpec.Intt(ntt.psiInvCode, ntth, ntt.storageNm1modq, Q);
                     SquaredNorm(Difference(c.value, NegacyclicProduct(signature.s2, h)), N)
                     + SquaredNorm(signature.s2, N) <= 34034726)
  {
    if |ntth| == N {
      VerifyOptHasKey(ntt.psiCode, ntt.psiInvCode, ntt.storageNm1modq, keccak, msgs, signature, ntth, gas);
    }
    if |ntth| != N {
      return Returned(false);
    }
    if |signature.salt| != SALT_LENGTH {
      return Returned(false);
    }
    var hashed := HashToPoint.HashToPoint(keccak, signature.salt, msgs, Q, N, gas);
    if hashed.Reverted? {
      return Reverted;
    }
    assert PowerOfTwo(N);
    var product := ntt.NttHalfMul(signature.s2, ntth);
    r := Finish(hashed.value, product.value, signature.s2);
  }

  /** The common end of both functions: subtract, fold, sum. */
  method Finish(hashed: seq<nat>, product: seq<nat>, s2: seq<nat>) returns (r: Outcome<bool>)
    requires |hashed| == |product| == |s2| == N
    requires AllAtMostQ(product)
    ensures r == Decide(Returned(hashed), product, s2)
  {
    hide SquaredNorm;
    var c := new nat[N](i requires 0 <= i < N => hashed[i]);
    var p := new nat[N](i requires 0 <= i < N => product[i]);
    var t := new nat[N](i requires 0 <= i < N => s2[i]);
    assert c[..] == hashed && p[..] == product && t[..] == s2;
    var s1 := Ntt.VecSubMod(c, p, Q);
    forall i | 0 <= i < N ensures Cong(s1.value[i], Difference(hashed, product)[i], Q) {
      CongMod(hashed[i] as int - product[i], Q);
    }
    SquaredNormCong(s1.value[..], Difference(hashed, product), N);
    r := CheckNorm(s1.value, t);
  }
}
