/** C's `|` and `&` on unsigned integers, bit by bit. */
module Bits {
  import opened Arith

  function BitOr(a: nat, b: nat): nat {
    if a == 0 then b
    else if b == 0 then a
    else (if a % 2 == 1 || b % 2 == 1 then 1 else 0) + 2 * BitOr(a / 2, b / 2)
  }

  function BitAnd(a: nat, b: nat): nat {
    if a == 0 || b == 0 then 0
    else (if a % 2 == 1 && b % 2 == 1 then 1 else 0) + 2 * BitAnd(a / 2, b / 2)
  }

  /** Or-ing below the lowest set bit is adding. */
  lemma {:induction false} OrDisjoint(a: nat, k: nat, b: nat)
    requires b < Pow(2, k)
    ensures BitOr(a * Pow(2, k), b) == a * Pow(2, k) + b
  {
    if a == 0 {
    } else if k == 0 || b == 0 {
    } else {
      var p := Pow(2, k - 1);
      MulAssociative(2, a, p);
      MulAssociative(a, 2, p);
      assert a * Pow(2, k) == 2 * (a * p);
      ProductPositive(a, p);
      OrDisjoint(a, k - 1, b / 2);
    }
  }

  lemma AndOdd(a: nat, x: nat)
    ensures BitAnd(a, 2 * x + 1) == a % 2 + 2 * BitAnd(a / 2, x)
  {
  }

  /** Masking with 2^k - 1 is the remainder modulo 2^k. */
  lemma {:induction false} AndLowMask(a: nat, k: nat)
    ensures BitAnd(a, Pow(2, k) - 1) == a % Pow(2, k)
  {
    if k > 0 {
      hide BitAnd;
      AndLowMask(a / 2, k - 1);
      AndOdd(a, Pow(2, k - 1) - 1);
      ModSplit(a, 2, Pow(2, k - 1));
    }
  }

  lemma Pow2Table()
    ensures Pow(2, 0) == 1 && Pow(2, 1) == 2 && Pow(2, 2) == 4 && Pow(2, 3) == 8 && Pow(2, 4) == 16
    ensures Pow(2, 5) == 32 && Pow(2, 6) == 64 && Pow(2, 7) == 128 && Pow(2, 8) == 256
  {
  }
}
