/** Bitwise or of natural numbers. */
module BitwiseOr {
  import opened ModArith

  function Or(x: nat, y: nat): nat
    decreases x + y
  {
    if x == 0 && y == 0 then 0
    else 2 * Or(x / 2, y / 2) + (if x % 2 == 1 || y % 2 == 1 then 1 else 0)
  }

  /** An or stays below a power of two exactly when both operands do. */
  lemma {:induction false} OrFits(x: nat, y: nat, k: nat)
    ensures Or(x, y) < Pow2(k) <==> x < Pow2(k) && y < Pow2(k)
  {
    if k > 0 && (x != 0 || y != 0) {
      OrFits(x / 2, y / 2, k - 1);
      assert Pow2(k) == 2 * Pow2(k - 1);
    } else if k == 0 {
      OrIsZero(x, y);
    }
  }

  lemma {:induction false} OrIsZero(x: nat, y: nat)
    ensures Or(x, y) == 0 <==> x == 0 && y == 0
  {
    if x != 0 || y != 0 { OrIsZero(x / 2, y / 2); }
  }

  /** When the low bits of one operand are clear and the other has only low bits, or is addition. */
  lemma {:induction false} OrIsSum(x: nat, y: nat, k: nat)
    requires x < Pow2(k)
    ensures Or(x, y * Pow2(k)) == x + y * Pow2(k)
  {
    if k == 0 {
      OrWithZero(y);
    } else {
      var p := Pow2(k - 1);
      DoubleProduct(y, p);
      OrIsSum(x / 2, y, k - 1);
    }
  }

  lemma DoubleProduct(y: nat, p: nat)
    ensures y * (2 * p) == 2 * (y * p)
  {
  }

  lemma {:induction false} OrWithZero(y: nat)
    ensures Or(0, y) == y
  {
    if y != 0 { OrWithZero(y / 2); }
  }
}
