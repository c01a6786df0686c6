/** The literal tables' root, q = 12289 and factor 12265 satisfy everything the transforms need. */
module FalconRoots {
  import opened Evm
  import opened FalconParameters
  import opened ModArith
  import opened RootTable
  import opened ZknoxNtt

  /** Entry 512 of the table psi_rev, whose powers the table lists. */
  const PSI: nat := 1826

  /** Entry 512 of the table psi_inv_rev. */
  const PSI_INV: nat := 5808

  const TABLE_BITS: nat := 10

  /** The inverse of 512 modulo 12289. */
  const N_INVERSE: Word := 12265

  /** A table as the contract stores it: 1024 residues. */
  function Table(g: nat): (t: seq<Word>)
    ensures |t| == Pow2(TABLE_BITS)
    ensures forall k :: 0 <= k < |t| ==> t[k] == Residue(Pow(g, BitReverse(TABLE_BITS, k)), Q)
  {
    seq(Pow2(TABLE_BITS), k requires 0 <= k < Pow2(TABLE_BITS) => Residue(Pow(g, BitReverse(TABLE_BITS, k)), Q) as Word)
  }

  lemma TableSize()
    ensures Pow2(TABLE_BITS) == 1024
  {
    Pow2Eight();
    Pow2Add(8, 2);
  }

  /** From the residue of a power to the residue of its square. */
  lemma Squared(g: int, e: nat, r: int, k: int, s: int)
    requires Cong(Pow(g, e), r, Q) && r * r == k * Q + s
    ensures Cong(Pow(g, 2 * e), s, Q)
  {
    hide Residue, Pow;
    assert 2 * e == e + e;
    PowAdd(g, e, e);
    CongMul(Pow(g, e), r, Pow(g, e), r, Q);
    CongFromMultiple(r * r, s, k, Q);
    CongChain(Pow(g, 2 * e), r * r, s, s, Q);
  }

  /** The powers of the root with exponents 1, 2, 4, ...: entries 512, 256, ..., 1 of the table, and -1 in the end. */
  lemma PowersOfPsi()
    ensures Cong(Pow(PSI, 1), 1826, Q) && Cong(Pow(PSI, 2), 3957, Q) && Cong(Pow(PSI, 4), 1663, Q)
    ensures Cong(Pow(PSI, 8), 544, Q) && Cong(Pow(PSI, 16), 1000, Q) && Cong(Pow(PSI, 32), 4591, Q)
    ensures Cong(Pow(PSI, 64), 1646, Q) && Cong(Pow(PSI, 128), 5736, Q) && Cong(Pow(PSI, 256), 4043, Q)
    ensures Cong(Pow(PSI, 512), 1479, Q) && Cong(Pow(PSI, 1024), -1, Q)
  {
    hide Residue, Pow;
    PowOneExponent(PSI);
    CongFromMultiple(PSI, 1826, 0, Q);
    Squared(PSI, 1, 1826, 271, 3957);
    Squared(PSI, 2, 3957, 1274, 1663);
    Squared(PSI, 4, 1663, 225, 544);
    Squared(PSI, 8, 544, 24, 1000);
    Squared(PSI, 16, 1000, 81, 4591);
    Squared(PSI, 32, 4591, 1715, 1646);
    Squared(PSI, 64, 1646, 220, 5736);
    Squared(PSI, 128, 5736, 2677, 4043);
    Squared(PSI, 256, 4043, 1330, 1479);
    Squared(PSI, 512, 1479, 178, -1);
  }

  /** The powers of 1826 and 5808 modulo 12289, in bit-reversed order, are tables for all lengths up to 1024. */
  lemma FalconTables(n: nat)
    requires n <= 1024
    ensures IsRootTable(Table(PSI), Table(PSI_INV), n, Q)
  {
    hide Residue, Pow, IsRootTable, BitReverse;
    TableSize();
    PowersOfPsi();
    CongFromMultiple(PSI * PSI_INV, 1, 863, Q);
    BitReversedPowersAreRootTable(PSI, PSI_INV, TABLE_BITS, Q);
    TableResidues(PSI);
    TableResidues(PSI_INV);
    RootTableOfResidues(BitReversedPowers(PSI, TABLE_BITS), BitReversedPowers(PSI_INV, TABLE_BITS),
                        Table(PSI), Table(PSI_INV), n, 1024, Q);
  }

  lemma TableResidues(g: nat)
    ensures forall k :: 0 <= k < Pow2(TABLE_BITS) ==> Cong(Table(g)[k], BitReversedPowers(g, TABLE_BITS)[k], Q)
  {
    hide Residue, Pow, BitReverse;
    forall k | 0 <= k < Pow2(TABLE_BITS) ensures Cong(Table(g)[k], BitReversedPowers(g, TABLE_BITS)[k], Q) {
      CongMod(Pow(g, BitReverse(TABLE_BITS, k)), Q);
    }
  }

  lemma SmallPowers()
    ensures Pow2(0) == 1 && Pow2(1) == 2 && Pow2(2) == 4 && Pow2(3) == 8 && Pow2(4) == 16
    ensures Pow2(5) == 32 && Pow2(6) == 64 && Pow2(7) == 128 && Pow2(8) == 256 && Pow2(9) == 512
  {
    Pow2Eight();
  }

  /** A single bit out of ten, read backwards. */
  lemma ReversedBits()
    ensures BitReverse(10, 1) == 512 && BitReverse(10, 2) == 256 && BitReverse(10, 4) == 128
    ensures BitReverse(10, 8) == 64 && BitReverse(10, 16) == 32 && BitReverse(10, 32) == 16
    ensures BitReverse(10, 64) == 8 && BitReverse(10, 128) == 4 && BitReverse(10, 256) == 2 && BitReverse(10, 512) == 1
  {
    hide BitReverse, Pow2;
    SmallPowers();
    BitReverseOfPower(10, 0);
    BitReverseOfPower(10, 1);
    BitReverseOfPower(10, 2);
    BitReverseOfPower(10, 3);
    BitReverseOfPower(10, 4);
    BitReverseOfPower(10, 5);
    BitReverseOfPower(10, 6);
    BitReverseOfPower(10, 7);
    BitReverseOfPower(10, 8);
    BitReverseOfPower(10, 9);
  }

  lemma ResidueIs(x: int, r: nat)
    requires Cong(x, r, Q) && r < Q
    ensures Residue(x, Q) == r
  {
  }

  /** These entries are the ones the contract lists. */
  lemma ListedEntries()
    ensures |Table(PSI)| == 1024
    ensures Table(PSI)[1] == 1479 && Table(PSI)[2] == 4043 && Table(PSI)[4] == 5736 && Table(PSI)[8] == 1646
    ensures Table(PSI)[16] == 4591 && Table(PSI)[32] == 1000 && Table(PSI)[64] == 544
    ensures Table(PSI)[128] == 1663 && Table(PSI)[256] == 3957 && Table(PSI)[512] == 1826
  {
    hide Residue, Pow, BitReverse, Pow2;
    TableSize();
    ReversedBits();
    PowersOfPsi();
    ResidueIs(Pow(PSI, 512), 1479);
    ResidueIs(Pow(PSI, 256), 4043);
    ResidueIs(Pow(PSI, 128), 5736);
    ResidueIs(Pow(PSI, 64), 1646);
    ResidueIs(Pow(PSI, 32), 4591);
    ResidueIs(Pow(PSI, 16), 1000);
    ResidueIs(Pow(PSI, 8), 544);
    ResidueIs(Pow(PSI, 4), 1663);
    ResidueIs(Pow(PSI, 2), 3957);
    ResidueIs(Pow(PSI, 1), 1826);
  }

  /** A contract with these tables, modulus 12289 and factor 12265 is ready for arrays of length 512. */
  method Deploy() returns (ntt: Ntt)
    ensures fresh(ntt) && ntt.storageQ == Q && ntt.Configured(N)
  {
    FalconTables(N);
    CongFromMultiple(N * N_INVERSE, 1, 511, Q);
    ntt := new Ntt(Table(PSI), Table(PSI_INV), Table(PSI), Table(PSI_INV), Q, N_INVERSE);
  }

  /** Code that holds no table does not do: words of zeros, as a read past the end of the code gives, satisfy no law. */
  lemma ZerosAreNoTable(code: seq<Word>, n: nat)
    requires 2 <= n <= |code| && forall k :: 0 <= k < |code| ==> code[k] == 0
    ensures !SquareRoots(code, n, Q)
  {
    assert !IsSquareRoot(code, 1, Q);
  }
}
