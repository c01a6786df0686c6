/** Hashing to a polynomial: 16-bit samples of the generator's stream, rejected when they would bias a residue. */
module HashToPoint {
  import opened Evm
  import opened ModArith
  import opened KeccakPrng
  import opened Polynomial
  import BigEndian

  /** The array the contract returns always has this length. */
  const OUTPUT_LENGTH: nat := 512

  const SAMPLE_RANGE: nat := 0x1_0000

  /** Sample d of the stream: two bytes, big-endian. */
  function Sample(keccak: Hash, seed: Bytes32, d: nat): (t: nat)
    ensures t < SAMPLE_RANGE
  {
    256 * StreamByte(keccak, seed, 2 * d) + StreamByte(keccak, seed, 2 * d + 1)
  }

  /** The largest multiple of q that 16-bit samples cover. */
  function Bound(q: nat): nat
    requires q > 0
  {
    (SAMPLE_RANGE / q) * q
  }

  /** The accepted samples among the first draws ones, reduced, in order. */
  function Accepted(keccak: Hash, seed: Bytes32, q: nat, draws: nat): (r: seq<nat>)
    requires q > 0
    ensures |r| <= draws && forall i :: 0 <= i < |r| ==> r[i] < q
  {
    if draws == 0 then []
    else
      var t := Sample(keccak, seed, draws - 1);
      Accepted(keccak, seed, q, draws - 1) + if t < Bound(q) then [Residue(t, q)] else []
  }

  lemma {:induction false} AcceptedPrefix(keccak: Hash, seed: Bytes32, q: nat, d: nat, e: nat)
    requires q > 0 && d <= e
    ensures Accepted(keccak, seed, q, d) <= Accepted(keccak, seed, q, e)
    decreases e
  {
    if d < e { AcceptedPrefix(keccak, seed, q, d, e - 1); }
  }

  /** Draws that both the gas and the generator's counter allow. */
  function Affordable(gas: nat): nat {
    if 2 * gas <= STREAM_LENGTH then gas else STREAM_LENGTH / 2
  }

  /** The result of a call that can pay for gas draws, from the seed on. */
  function Rejection(keccak: Hash, seed: Bytes32, q: nat, n: nat, gas: nat): (r: Outcome<seq<nat>>) {
    if q == 0 || n > OUTPUT_LENGTH then Reverted
    else
      var found := Accepted(keccak, seed, q, Affordable(gas));
      if |found| < n then Reverted else Returned(found[..n] + Zeros(OUTPUT_LENGTH - n))
  }

  function Hashed(keccak: Hash, salt: seq<Byte>, msgHash: seq<Byte>, q: nat, n: nat, gas: nat): Outcome<seq<nat>> {
    Rejection(keccak, keccak(salt + msgHash), q, n, gas)
  }

  /** Creating the generator, absorbing salt and message, and flipping it. */
  method Seed(keccak: Hash, salt: seq<Byte>, msgHash: seq<Byte>) returns (prng: Prng)
    ensures fresh(prng) && prng.Valid() && prng.keccak == keccak
    ensures prng.Abstract() == Squeezing(keccak(salt + msgHash), 0)
  {
    prng := new Prng(keccak);
    var injected := prng.Inject(salt + msgHash);
    assert [] + (salt + msgHash) == salt + msgHash;
    var flipped := prng.Flip();
  }

  /** Drawing sample d. */
  method Draw(prng: Prng, ghost seed: Bytes32, ghost d: nat) returns (t: Outcome<nat>)
    requires prng.Valid() && prng.Abstract() == Squeezing(seed, 2 * d) && 2 * d <= STREAM_LENGTH
    modifies prng
    ensures prng.Valid()
    ensures t == if d < STREAM_LENGTH / 2 then Returned(Sample(prng.keccak, seed, d)) else Reverted
    ensures t.Returned? ==> prng.Abstract() == Squeezing(seed, 2 * (d + 1))
  {
    hide StreamByte;
    var bytes := prng.Extract(2);
    if bytes.Reverted? {
      return Reverted;
    }
    assert bytes.value == Slice(prng.keccak, seed, 2 * d, 2);
    var high: nat, low: nat := bytes.value[0], bytes.value[1];
    return Returned(256 * high + low);
  }

  method HashToPoint(keccak: Hash, salt: seq<Byte>, msgHash: seq<Byte>, q: nat, n: nat, gas: nat)
    returns (r: Outcome<seq<nat>>)
    ensures r == Hashed(keccak, salt, msgHash, q, n, gas)
  {
    if q == 0 {
      return Reverted;
    }
    var k := SAMPLE_RANGE / q;
    var prng := Seed(keccak, salt, msgHash);
    r := SampleLoop(prng, keccak(salt + msgHash), q, n, k * q, gas);
  }

  /** The rejection-sampling loop; gas bounds the number of draws. */
  method SampleLoop(prng: Prng, ghost seed: Bytes32, q: nat, n: nat, kq: nat, gas: nat) returns (r: Outcome<seq<nat>>)
    requires q > 0 && kq == Bound(q)
    requires prng.Valid() && prng.Abstract() == Squeezing(seed, 0)
    modifies prng
    ensures r == Rejection(prng.keccak, seed, q, n, gas)
  {
    hide Sample, Residue, Bound, Rejection;
    var c := new nat[OUTPUT_LENGTH](_ => 0);
    var i, draws := 0, 0;
    while i < n
      invariant prng.Valid() && prng.Abstract() == Squeezing(seed, 2 * draws)
      invariant i <= n && i <= OUTPUT_LENGTH && draws <= Affordable(gas)
      invariant c[..i] == Accepted(prng.keccak, seed, q, draws)
      invariant forall j :: i <= j < OUTPUT_LENGTH ==> c[j] == 0
      decreases gas - draws
    {
      if draws == gas {
        FailsBelow(prng.keccak, seed, q, n, gas, draws);
        return Reverted;
      }
      var t := Draw(prng, seed, draws);
      if t.Reverted? {
        FailsBelow(prng.keccak, seed, q, n, gas, draws);
        return Reverted;
      }
      draws := draws + 1;
      if t.value < kq {
        if i == OUTPUT_LENGTH {
          FailsBeyond(prng.keccak, seed, q, n, gas);
          return Reverted;
        }
        c[i] := Residue(t.value, q);
        i := i + 1;
      }
    }
    Succeeds(prng.keccak, seed, q, n, gas, draws, c[..]);
    return Returned(c[..]);
  }

  /** When no further draw is affordable and fewer than n samples were accepted, the call fails. */
  lemma FailsBelow(keccak: Hash, seed: Bytes32, q: nat, n: nat, gas: nat, draws: nat)
    requires q > 0 && draws == Affordable(gas) && |Accepted(keccak, seed, q, draws)| < n
    ensures Rejection(keccak, seed, q, n, gas) == Reverted
  {
  }

  lemma FailsBeyond(keccak: Hash, seed: Bytes32, q: nat, n: nat, gas: nat)
    requires q > 0 && n > OUTPUT_LENGTH
    ensures Rejection(keccak, seed, q, n, gas) == Reverted
  {
  }

  /** As soon as n samples are accepted the result is decided. */
  lemma Succeeds(keccak: Hash, seed: Bytes32, q: nat, n: nat, gas: nat, draws: nat, c: seq<nat>)
    requires q > 0 && n <= OUTPUT_LENGTH == |c| && draws <= Affordable(gas)
    requires c[..n] == Accepted(keccak, seed, q, draws)
    requires forall j :: n <= j < OUTPUT_LENGTH ==> c[j] == 0
    ensures Rejection(keccak, seed, q, n, gas) == Returned(c)
  {
    hide Accepted, Affordable;
    AcceptedPrefix(keccak, seed, q, draws, Affordable(gas));
    var some, found := Accepted(keccak, seed, q, draws), Accepted(keccak, seed, q, Affordable(gas));
    assert |some| == n && found[..n] == some;
    assert c == c[..n] + Zeros(OUTPUT_LENGTH - n);
  }

  /** Main result: if the first samples hold n accepted ones, a call that can pay for them returns those, in order. */
  lemma EnoughSamplesSuffice(keccak: Hash, salt: seq<Byte>, msgHash: seq<Byte>, q: nat, n: nat, draws: nat, gas: nat)
    requires q > 0 && n <= OUTPUT_LENGTH && draws <= Affordable(gas)
    requires n <= |Accepted(keccak, keccak(salt + msgHash), q, draws)|
    ensures var r := Hashed(keccak, salt, msgHash, q, n, gas);
            r.Returned? && r.value[..n] == Accepted(keccak, keccak(salt + msgHash), q, draws)[..n]
  {
    AcceptedPrefix(keccak, keccak(salt + msgHash), q, draws, Affordable(gas));
  }

  // ----- the samples are big-endian pairs of bytes -----

  /** Pair d of the stream's bytes, as a big-endian number. */
  function PairValue(keccak: Hash, seed: Bytes32, d: nat): nat {
    BigEndian.ValueOf(Slice(keccak, seed, 2 * d, 2))
  }

  lemma PairIsSample(keccak: Hash, seed: Bytes32, d: nat)
    ensures PairValue(keccak, seed, d) == Sample(keccak, seed, d)
  {
    var pair := Slice(keccak, seed, 2 * d, 2);
    assert pair[..1] == [pair[0]] && pair[..1][..0] == [];
    assert BigEndian.ValueOf(pair[..1]) == pair[0];
  }

  /** The draws in ds, in increasing order, are accepted. */
  ghost predicate AcceptedDraws(keccak: Hash, seed: Bytes32, q: nat, ds: seq<nat>)
    requires q > 0
  {
    && (forall i, j :: 0 <= i < j < |ds| ==> ds[i] < ds[j])
    && (forall i :: 0 <= i < |ds| ==> PairValue(keccak, seed, ds[i]) < (65536 / q) * q)
  }

  /** Every draw below limit that is not in ds is too large. */
  ghost predicate OthersRejected(keccak: Hash, seed: Bytes32, q: nat, ds: seq<nat>, limit: nat)
    requires q > 0
  {
    forall d: nat :: d < limit && d !in ds ==> PairValue(keccak, seed, d) >= (65536 / q) * q
  }

  lemma {:induction false} DrawsOfAccepted(keccak: Hash, seed: Bytes32, q: nat, draws: nat) returns (ds: seq<nat>)
    requires q > 0
    ensures AcceptedDraws(keccak, seed, q, ds) && OthersRejected(keccak, seed, q, ds, draws)
    ensures |ds| == |Accepted(keccak, seed, q, draws)| && forall i :: 0 <= i < |ds| ==> ds[i] < draws
    ensures forall i :: 0 <= i < |ds| ==>
                          Accepted(keccak, seed, q, draws)[i] == Residue(PairValue(keccak, seed, ds[i]), q)
  {
    hide Sample, PairValue, Residue;
    ds := [];
    if draws > 0 {
      var before := DrawsOfAccepted(keccak, seed, q, draws - 1);
      PairIsSample(keccak, seed, draws - 1);
      ds := before + if Sample(keccak, seed, draws - 1) < Bound(q) then [draws - 1] else [];
      assert Sample(keccak, seed, draws - 1) < Bound(q) ==> draws - 1 in ds;
      forall d: nat | d < draws && d !in ds ensures PairValue(keccak, seed, d) >= Bound(q) {
        assert d !in before;
      }
    }
  }

  lemma {:induction false} NoMoreDraws(keccak: Hash, seed: Bytes32, q: nat, ds: seq<nat>, draws: nat)
    requires q > 0 && AcceptedDraws(keccak, seed, q, ds) && AllBelow(ds, draws)
    ensures |ds| <= |Accepted(keccak, seed, q, draws)|
    decreases draws
  {
    hide Sample, PairValue, Residue;
    assert ds != [] ==> 0 <= ds[0] < draws;
    if ds != [] {
      var last := |ds| - 1;
      PairIsSample(keccak, seed, draws - 1);
      assert AllBelow(ds[..last], ds[last]);
      if ds[last] == draws - 1 {
        NoMoreDraws(keccak, seed, q, ds[..last], draws - 1);
      } else {
        NoMoreDraws(keccak, seed, q, ds, draws - 1);
      }
    }
  }

  /**
   Main result: what is returned are the residues of the first n pairs of bytes of the stream that,
   as big-endian numbers, are below the greatest multiple of q, padded with zeros. The call fails
   exactly when it cannot pay for n such draws, or for q = 0 or n > 512.
   */
  lemma HashedIsFirstPairs(keccak: Hash, salt: seq<Byte>, msgHash: seq<Byte>, q: nat, n: nat, gas: nat)
    returns (ds: seq<nat>)
    ensures var r, seed := Hashed(keccak, salt, msgHash, q, n, gas), keccak(salt + msgHash);
            && (r.Returned? <==> q > 0 && n <= 512 && exists ds': seq<nat> ::
                  |ds'| == n && AcceptedDraws(keccak, seed, q, ds') && AllBelow(ds', Affordable(gas)))
            && (r.Returned? ==>
                  && |ds| == n && AcceptedDraws(keccak, seed, q, ds)
                  && OthersRejected(keccak, seed, q, ds, if n == 0 then 0 else ds[n - 1])
                  && |r.value| == 512
                  && (forall i :: 0 <= i < n ==> r.value[i] == Residue(PairValue(keccak, seed, ds[i]), q))
                  && (forall i :: n <= i < 512 ==> r.value[i] == 0))
  {
    hide Sample, PairValue, Residue, Accepted;
    var r, seed := Hashed(keccak, salt, msgHash, q, n, gas), keccak(salt + msgHash);
    ds := [];
    if q > 0 && n <= 512 {
      var all := DrawsOfAccepted(keccak, seed, q, Affordable(gas));
      if r.Returned? {
        ds := all[..n];
        FirstDraws(keccak, seed, q, all, n, Affordable(gas));
        assert AllBelow(ds, Affordable(gas));
      } else {
        forall ds': seq<nat> | AcceptedDraws(keccak, seed, q, ds') && AllBelow(ds', Affordable(gas))
          ensures |ds'| != n
        {
          NoMoreDraws(keccak, seed, q, ds', Affordable(gas));
        }
      }
    }
  }

  predicate AllBelow(ds: seq<nat>, limit: nat) {
    forall i :: 0 <= i < |ds| ==> ds[i] < limit
  }

  lemma FirstDraws(keccak: Hash, seed: Bytes32, q: nat, all: seq<nat>, n: nat, limit: nat)
    requires q > 0 && n <= |all| && AcceptedDraws(keccak, seed, q, all) && OthersRejected(keccak, seed, q, all, limit)
    requires AllBelow(all, limit)
    ensures AcceptedDraws(keccak, seed, q, all[..n])
    ensures OthersRejected(keccak, seed, q, all[..n], if n == 0 then 0 else all[n - 1])
  {
    hide PairValue;
    var ds := all[..n];
    if n > 0 {
      forall d: nat | d < all[n - 1] && d in all ensures d in ds {
        var k :| 0 <= k < |all| && all[k] == d;
        assert ds[k] == d;
      }
    }
  }

  // ----- no residue is favoured -----

  /** The samples below k * q that reduce to r. */
  ghost function Preimages(q: nat, r: nat, k: nat): (s: set<nat>)
    requires q > 0
  {
    set t: nat | t < k * q && Residue(t, q) == r
  }

  lemma {:induction false} CountPreimages(q: nat, r: nat, k: nat)
    requires r < q
    ensures |Preimages(q, r, k)| == k
  {
    if k == 0 {
      assert Preimages(q, r, 0) == {};
    } else {
      var last := (k - 1) * q + r;
      assert k * q == (k - 1) * q + q;
      CountPreimages(q, r, k - 1);
      forall t: nat | t < k * q
        ensures t in Preimages(q, r, k) <==> t in Preimages(q, r, k - 1) || t == last
      {
        if (k - 1) * q <= t { DivModUnique(t, k - 1, t - (k - 1) * q, q); }
      }
      DivModUnique(last, k - 1, r, q);
      assert Preimages(q, r, k) == Preimages(q, r, k - 1) + {last};
    }
  }

  /** Every residue modulo q has the same number of accepted 16-bit samples. */
  lemma AcceptedSamplesAreUniform(q: nat, r: nat)
    requires r < q
    ensures Bound(q) <= SAMPLE_RANGE
    ensures |set t: nat | t < Bound(q) && Residue(t, q) == r| == SAMPLE_RANGE / q
  {
    CountPreimages(q, r, SAMPLE_RANGE / q);
    assert (set t: nat | t < Bound(q) && Residue(t, q) == r) == Preimages(q, r, SAMPLE_RANGE / q);
  }
}
