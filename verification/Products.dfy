/** Facts about products and quotients that the solver does not find by itself. */
module Products {

  lemma MulMonotone(p: nat, x: nat, y: nat)
    requires x <= y
    ensures p * x <= p * y
  {
  }

  lemma TimesWithin(w: nat, lo: int, v: int, hi: int)
    requires lo <= v <= hi
    ensures w * lo <= w * v <= w * hi
  {
  }

  lemma Distributes(w: nat, x: int)
    ensures w * (x + 1) == w * x + w
  {
  }

  lemma Negates(w: nat, x: int)
    ensures w * -x == -(w * x)
  {
  }

  lemma Cancels(w: nat, x: int, y: int)
    requires w * x < w * y
    ensures x < y
  {
    if x >= y {
      TimesWithin(w, y, x, x);
    }
  }

  lemma MulInjective(p: nat, x: int, y: int)
    requires p > 0 && p * x == p * y
    ensures x == y
  {
    assert p * (x - y) == 0;
  }

  lemma SameQuotient(q: nat, t: int, i: nat, t': int, i': nat)
    requires i < q && i' < q && q * t + i == q * t' + i'
    ensures t == t' && i == i'
  {
    var d := t - t';
    assert q * d == i' - i by { assert q * d == q * t - q * t'; }
    if d >= 1 {
      MulAtLeast(q, d);
      assert false;
    } else if d <= -1 {
      MulAtLeast(q, -d);
      assert false;
    }
  }

  lemma MulAtLeast(q: nat, d: int)
    requires d >= 1
    ensures q * d >= q
  {
  }

  lemma Remains(s: nat, w: nat) returns (q: int, d: int)
    requires w > 0
    ensures q == s / w && d == s % w && 0 <= d < w && w * q == s - d
  {
    q, d := s / w, s % w;
  }

  /** Adding the same number keeps two numbers equal modulo n, or different. */
  lemma ShiftedRemainders(n: nat, x: nat, y: nat, c: nat)
    requires n > 0
    ensures (x + c) % n == (y + c) % n <==> x % n == y % n
  {
    var qx, dx := Remains(x, n);
    var qy, dy := Remains(y, n);
    var px, sx := Remains(x + c, n);
    var py, sy := Remains(y + c, n);
    DifferenceOf(n, qx, qy);
    DifferenceOf(n, px, py);
    if dx == dy { SumOf(n, py, qx - qy); SameQuotient(n, px, sx, py + (qx - qy), sy); }
    if sx == sy { SumOf(n, qy, px - py); SameQuotient(n, qx, dx, qy + (px - py), dy); }
  }

  lemma DifferenceOf(n: nat, x: int, y: int)
    ensures n * (x - y) == n * x - n * y
  {
  }

  lemma SumOf(n: nat, x: int, y: int)
    ensures n * (x + y) == n * x + n * y
  {
  }

  lemma SquareOfSum(m: nat, d: nat, n: nat)
    requires n == m + d + 1
    ensures m * m + d * d + 2 * (m + d) + 1 <= n * n
  {
    SumOf(n, m, d + 1);
    SumOf(m, m, d + 1);
    SumOf(d + 1, m, d + 1);
    SumOf(d + 1, d, 1);
    SumOf(d, d, 1);
    MulMonotone(m, 0, d + 1);
    SumOf(m, d, 1);
    Commutes(n, m);
    Commutes(n, d + 1);
    Commutes(d + 1, m);
    Commutes(d + 1, d);
  }

  lemma Commutes(x: int, y: int)
    ensures x * y == y * x
  {
  }
}
