/** Powers of two and the division facts the index arithmetic of the kernels rests on. */
module Powers {

  function Pow2(n: nat): (r: nat)
    ensures r >= 1
  {
    if n == 0 then 1 else 2 * Pow2(n - 1)
  }

  lemma {:induction false} Pow2Add(a: nat, b: nat)
    ensures Pow2(a + b) == Pow2(a) * Pow2(b)
  {
    if a == 0 {
    } else {
      Pow2Add(a - 1, b);
      assert Pow2(a + b) == 2 * Pow2(a - 1 + b);
      assert 2 * (Pow2(a - 1) * Pow2(b)) == (2 * Pow2(a - 1)) * Pow2(b);
    }
  }

  lemma {:induction false} Pow2Monotone(a: nat, b: nat)
    requires a <= b
    ensures Pow2(a) <= Pow2(b)
    ensures a < b ==> Pow2(a) < Pow2(b)
  {
    if a < b {
      Pow2Monotone(a, b - 1);
    }
  }

  lemma MulMonotone(a: int, b: int, c: int)
    requires a <= b && 0 <= c
    ensures a * c <= b * c
  {
  }

  /** Quotient and remainder are determined by the division equation. */
  lemma DivModUnique(x: int, q: int, r: int, d: int)
    requires 0 <= r < d && x == q * d + r
    ensures x / d == q && x % d == r
  {
    var q', r' := x / d, x % d;
    assert x == q' * d + r';
    assert (q - q') * d == r' - r;
    if q < q' {
      MulMonotone(q - q', -1, d);
    } else if q > q' {
      MulMonotone(1, q - q', d);
    }
  }

  lemma RowColumn(i: nat, n: nat, j: nat)
    requires j < n
    ensures (i * n + j) / n == i && (i * n + j) % n == j
  {
    var x := i * n + j;
    DivModUnique(x, i, j, n);
  }

  lemma DivisionEquation(x: int, d: int)
    requires d > 0
    ensures x == (x / d) * d + x % d && 0 <= x % d < d
  {
  }

  lemma CellInside(i: nat, j: nat, m: nat, n: nat)
    requires i < m && j < n
    ensures i * n + j < m * n && (i + 1) * n == i * n + n
  {
    MulMonotone(i + 1, m, n);
  }

  lemma QuotientBelow(c: nat, m: nat, n: nat)
    requires n > 0 && c < m * n
    ensures c / n < m
  {
    DivisionEquation(c, n);
    if c / n >= m {
      MulMonotone(m, c / n, n);
    }
  }

  lemma DivDiv(x: nat, a: nat, b: nat)
    requires a > 0 && b > 0
    ensures a * b > 0 && (x / a) / b == x / (a * b)
  {
    var q, r := x / a, x % a;
    var q2, r2 := q / b, q % b;
    DivisionEquation(x, a);
    DivisionEquation(q, b);
    assert r2 * a + r < a * b by {
      MulMonotone(r2, b - 1, a);
      assert (b - 1) * a == a * b - a;
    }
    assert x == q2 * (a * b) + (r2 * a + r) by {
      assert (q2 * b + r2) * a == q2 * (a * b) + r2 * a;
    }
    assert 0 <= r2 * a;
    DivModUnique(x, q2, r2 * a + r, a * b);
  }

  lemma DivMonotone(x: int, y: int, d: int)
    requires d > 0 && x <= y
    ensures x / d <= y / d
  {
    DivisionEquation(x, d);
    DivisionEquation(y, d);
    if x / d > y / d {
      MulMonotone(1, x / d - y / d, d);
    }
  }

  /** x >> k */
  function Shr(x: nat, k: nat): nat {
    if k == 0 then x else Shr(x / 2, k - 1)
  }

  /** x & ((1 << k) - 1) */
  function LowBits(x: nat, k: nat): nat {
    if k == 0 then 0 else x % 2 + 2 * LowBits(x / 2, k - 1)
  }

  /** Shifting out k bits and keeping them: a division by 2^k with remainder. */
  lemma {:induction false} ShiftSplits(x: nat, k: nat)
    ensures x == Shr(x, k) * Pow2(k) + LowBits(x, k) && LowBits(x, k) < Pow2(k)
  {
    if k > 0 {
      ShiftSplits(x / 2, k - 1);
      MulDouble(Shr(x, k), Pow2(k - 1));
    }
  }

  lemma MulDouble(q: int, p: int)
    ensures q * (2 * p) == 2 * (q * p)
  {
  }

  lemma ShiftBelow(x: nat, k: nat, bound: nat)
    requires x < bound * Pow2(k)
    ensures Shr(x, k) < bound
  {
    ShiftSplits(x, k);
    if Shr(x, k) >= bound {
      MulMonotone(bound, Shr(x, k), Pow2(k));
    }
  }
}
