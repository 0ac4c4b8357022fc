/**
 Facts about products and quotients of variables that the solver does not find by
 itself, shared by the modules with counters that wrap.
 */
module Arithmetic {
  lemma Scale(k: nat, a: int, b: int)
    requires a <= b
    ensures k * a <= k * b
  {
  }

  lemma Cancel(k: nat, a: int, b: int)
    requires k > 0 && k * a <= k * b
    ensures a <= b
  {
    if a > b { Scale(k, b + 1, a); }
  }

  lemma CancelStrictly(k: nat, a: int, b: int)
    requires k > 0 && k * a < k * b
    ensures a < b
  {
  }

  lemma FewMultiples(q: int, n: int)
    requires n > 0 && -n < q * n < 2 * n
    ensures q == 0 || q == 1
  {
  }

  /** Quotient and remainder are determined by what they are for. */
  lemma QuotientIs(x: int, n: nat, q: int, r: int)
    requires n > 0 && x == q * n + r && 0 <= r < n
    ensures x / n == q && x % n == r
  {
    assert (x / n - q) * n == r - x % n;
    FewMultiples(x / n - q, n);
  }

  lemma Division(x: nat, d: nat)
    requires d > 0
    ensures d * (x / d) == x - x % d && (x / d) * d == x - x % d
  {
  }

  lemma QuotientBelow(x: nat, d: nat, q: int)
    requires d > 0 && x < d * q
    ensures x / d < q
  {
    Division(x, d);
    CancelStrictly(d, x / d, q);
  }

  lemma QuotientAbove(x: nat, d: nat, q: int)
    requires d > 0 && d * q < x
    ensures q <= x / d
  {
    Division(x, d);
    assert d * (x / d + 1) == d * (x / d) + d;
    CancelStrictly(d, q, x / d + 1);
  }

  lemma QuotientMonotone(x: nat, y: nat, d: nat)
    requires x <= y && d > 0
    ensures x / d <= y / d
  {
    Division(x, d);
    if x / d > y / d {
      Scale(d, y / d + 1, x / d);
    }
  }

  lemma QuotientAtMost(x: nat, d: nat)
    requires d > 0
    ensures x / d <= x
  {
    Division(x, d);
    Scale(x / d, 1, d);
  }

  /** Over at most one lap of n a position moves by the distance, less one lap if the
      end was passed. */
  lemma PositionMoves(n: nat, from: nat, to: nat)
    requires n > 0 && from <= to <= from + n
    ensures to / n == from / n ==> to % n - from % n == to - from
    ensures to / n != from / n ==> to / n == from / n + 1 && to % n - from % n == to - from - n
  {
    var q := to / n - from / n;
    assert q * n == (to - from) - (to % n - from % n);
    FewMultiples(q, n);
  }

  /** Whole laps do not show in the position. */
  lemma LapsAdd(x: nat, m: nat, n: nat)
    requires n > 0
    ensures (x + m * n) / n == x / n + m && (x + m * n) % n == x % n
  {
    assert x + m * n == (x / n + m) * n + x % n;
    QuotientIs(x + m * n, n, x / n + m, x % n);
  }
}
