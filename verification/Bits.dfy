/** Shifts, masks and the bitwise AND and OR of natural numbers, defined digit by digit
    in base two, with the arithmetic meaning of the masks that block headers and cache
    addresses use. */
module Bits {

  function Pow2(k: nat): (p: nat)
    ensures p > 0
  {
    if k == 0 then 1 else 2 * Pow2(k - 1)
  }

  function And(a: nat, b: nat): nat
  {
    if a == 0 || b == 0 then 0
    else (if a % 2 == 1 && b % 2 == 1 then 1 else 0) + 2 * And(a / 2, b / 2)
  }

  function Or(a: nat, b: nat): nat
    decreases a + b
  {
    if a == 0 then b
    else if b == 0 then a
    else (if a % 2 == 1 || b % 2 == 1 then 1 else 0) + 2 * Or(a / 2, b / 2)
  }

  /** Shift right by k digits. */
  function Shr(x: nat, k: nat): nat
  {
    if k == 0 then x else Shr(x / 2, k - 1)
  }

  /** The k lowest digits. */
  function Low(x: nat, k: nat): nat
  {
    if k == 0 then 0 else x % 2 + 2 * Low(x / 2, k - 1)
  }

  /** A number is its high digits, shifted back, plus its low digits. */
  lemma {:induction false} SplitAt(x: nat, k: nat)
    ensures x == Pow2(k) * Shr(x, k) + Low(x, k)
    ensures Low(x, k) < Pow2(k)
  {
    if k > 0 {
      SplitAt(x / 2, k - 1);
      assert Pow2(k) * Shr(x, k) == 2 * (Pow2(k - 1) * Shr(x / 2, k - 1));
    }
  }

  /** Shifting twice is shifting once by the sum. */
  lemma {:induction false} ShrShr(x: nat, j: nat, k: nat)
    ensures Shr(Shr(x, j), k) == Shr(x, j + k)
  {
    if j > 0 {
      ShrShr(x / 2, j - 1, k);
    }
  }

  lemma LowDouble(x: nat, k: nat)
    ensures Low(2 * x, k + 1) == 2 * Low(x, k) && Pow2(k + 1) == 2 * Pow2(k)
  {
  }

  /** The low digits of a multiple of 8 stop at least 8 short of the next power of two. */
  lemma LowAligned(x: nat, k: nat)
    requires x % 8 == 0 && k >= 3
    ensures Low(x, k) % 8 == 0 && Low(x, k) + 8 <= Pow2(k)
  {
    LowOfEights(x / 8, k);
  }

  lemma LowOfEights(y: nat, k: nat)
    requires k >= 3
    ensures Low(8 * y, k) == 8 * Low(y, k - 3) && Low(y, k - 3) < Pow2(k - 3) && Pow2(k) == 8 * Pow2(k - 3)
  {
    LowDouble(y, k - 3);
    LowDouble(2 * y, k - 2);
    LowDouble(2 * (2 * y), k - 1);
    assert 8 * y == 2 * (2 * (2 * y));
    SplitAt(y, k - 3);
  }

  lemma {:induction false} LowOfSmall(x: nat, k: nat)
    requires x < Pow2(k)
    ensures Low(x, k) == x
  {
    if k > 0 {
      LowOfSmall(x / 2, k - 1);
    }
  }

  /** Masking with k ones keeps the k lowest digits. */
  lemma {:induction false} AndOnes(x: nat, k: nat)
    ensures And(x, Pow2(k) - 1) == Low(x, k)
  {
    if k > 0 {
      AndOnes(x / 2, k - 1);
      assert (Pow2(k) - 1) / 2 == Pow2(k - 1) - 1;
      LowOfZero(k);
    }
  }

  lemma {:induction false} LowOfZero(k: nat)
    ensures Low(0, k) == 0
  {
    if k > 0 {
      LowOfZero(k - 1);
    }
  }

  /** In w-digit arithmetic, masking with the complement of k ones clears the k lowest digits. */
  lemma {:induction false} AndNotOnes(x: nat, k: nat, w: nat)
    requires k <= w && x < Pow2(w)
    ensures Pow2(k) <= Pow2(w)
    ensures And(x, Pow2(w) - Pow2(k)) == x - Low(x, k)
  {
    if k == 0 {
      AndOnes(x, w);
      LowOfSmall(x, w);
    } else {
      AndNotOnes(x / 2, k - 1, w - 1);
      var half := Pow2(w - 1) - Pow2(k - 1);
      assert (Pow2(w) - Pow2(k)) / 2 == half;
      LowOfZero(k);
    }
  }

  /** Setting the lowest bit of an even number adds it. */
  lemma OrLowBit(a: nat, b: nat)
    requires a % 2 == 0 && b <= 1
    ensures Or(a, b) == a + b
  {
    if a > 0 && b > 0 {
      assert Or(a / 2, 0) == a / 2;
    }
  }

  lemma {:induction false} Pow2Sum(j: nat, k: nat)
    ensures Pow2(j + k) == Pow2(j) * Pow2(k)
  {
    if j > 0 {
      Pow2Sum(j - 1, k);
      assert Pow2(j) * Pow2(k) == 2 * (Pow2(j - 1) * Pow2(k));
    }
  }

  lemma Pow2Of32()
    ensures Pow2(32) == 0x1_0000_0000
  {
    assert Pow2(8) == 0x100;
    Pow2Sum(8, 8);
    Pow2Sum(16, 16);
  }

  lemma {:induction false} Pow2Monotone(j: nat, k: nat)
    requires j <= k
    ensures Pow2(j) <= Pow2(k)
  {
    if j > 0 {
      Pow2Monotone(j - 1, k - 1);
    }
  }

  /** Quotient and remainder of a division by 2, 4 or 8. */
  lemma Remainder(x: int, d: int, q: int, r: int)
    requires d in {2, 4, 8} && x == d * q + r && 0 <= r < d
    ensures x % d == r && x / d == q
  {
    if d == 2 {
      assert x == 2 * q + r;
    } else if d == 4 {
      assert x == 4 * q + r;
    } else {
      assert x == 8 * q + r;
    }
  }

  /** Division that drops the remainder, for any signs. */
  function Quotient(b: int, a: int): int
    requires a != 0
  {
    if b >= 0 then b / a else -(-b / a)
  }

  /** What the division of C leaves: a remainder smaller than the divisor, with the sign of the dividend. */
  lemma QuotientTruncates(b: int, a: int)
    requires a != 0
    ensures var r := b - a * Quotient(b, a);
            && (if a > 0 then -a < r < a else a < r < -a)
            && (b >= 0 ==> r >= 0) && (b <= 0 ==> r <= 0)
  {
    var c := if b >= 0 then b else -b;
    assert c == a * (c / a) + c % a;
    assert a * -(c / a) == -(a * (c / a));
  }
}
