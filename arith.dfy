/** Small facts about Euclidean division by a positive divisor that the
    solver does not find unaided when the divisor is not a constant. */
module Arith {

  lemma DivMod(m: nat, n: nat)
    requires n > 0
    ensures m == n * (m / n) + m % n && 0 <= m % n < n
    ensures 0 <= m / n <= m
  {
    var q := m / n;
    MulBounds(n, q);
    if q > m {
      MulDistSub(q, n, 1);
      MulBounds(q, n - 1);
    }
  }

  lemma MulDistSub(n: int, a: int, b: int)
    ensures n * (a - b) == n * a - n * b
  {
  }

  lemma MulBounds(n: int, d: int)
    requires n > 0
    ensures d >= 1 ==> n * d >= n
    ensures d <= -1 ==> n * d <= -n
    ensures d == 0 ==> n * d == 0
  {
  }

  /** Adding a multiple of `n` leaves the remainder modulo `n` unchanged. */
  lemma ModShift(m: nat, n: nat, k: int)
    requires n > 0 && m + n * k >= 0
    ensures (m + n * k) % n == m % n
  {
    var m' := m + n * k;
    DivMod(m, n);
    DivMod(m', n);
    var d := m / n + k - m' / n;
    MulDistSub(n, m / n + k, m' / n);
    assert n * (m / n + k) == n * (m / n) + n * k;
    assert n * d == m' % n - m % n;
    MulBounds(n, d);
  }

  /** A positive multiple of `n` is at least `n`, and stays a multiple once
      `n` is taken away. */
  lemma ModStep(m: nat, n: nat)
    requires n > 0 && m > 0 && m % n == 0
    ensures m >= n && (m - n) % n == 0
  {
    DivMod(m, n);
    MulBounds(n, m / n);
    ModShift(m, n, -1);
  }

  lemma ModOfMultiple(k: nat, n: nat)
    requires n > 0
    ensures (n * k) % n == 0
  {
    ModShift(0, n, k);
  }

  /** Quotient and remainder are the only ones: any `q`, `r` with
      `m == n * q + r` and `0 <= r < n` are `m / n` and `m % n`. */
  lemma DivModUnique(m: nat, n: nat, q: int, r: int)
    requires n > 0 && 0 <= r < n && m == n * q + r
    ensures q == m / n && r == m % n
  {
    DivMod(m, n);
    var d := q - m / n;
    MulDistSub(n, q, m / n);
    assert n * d == m % n - r;
    MulBounds(n, d);
  }

  lemma MulLeftSwap(a: int, b: int, c: int)
    ensures a * (b * c) == b * (a * c)
  {
  }

  lemma MulMonotone(a: nat, b: nat, c: nat)
    requires b <= c
    ensures a * b <= a * c
  {
  }

  /** Dividing by `b` and then by `m` is dividing by `b * m`; the remainder
      modulo `b * m` is made of the two smaller remainders. */
  lemma DivModNested(v: nat, b: nat, m: nat)
    requires b > 0 && m > 0
    ensures (v / b) / m == v / (b * m)
    ensures ((v / b) % m) * b + v % b == v % (b * m)
  {
    var q, r := v / b, v % b;
    DivMod(v, b);
    DivMod(q, m);
    var q2, r2 := q / m, q % m;
    assert v == b * (m * q2 + r2) + r;
    assert b * (m * q2 + r2) == (b * m) * q2 + b * r2;
    MulMonotone(b, r2, m - 1);
    assert b * (m - 1) == b * m - b;
    DivModUnique(v, b * m, q2, b * r2 + r);
    assert r2 * b == b * r2;
  }
}
