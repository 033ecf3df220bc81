/** Division facts for a divisor that is not a constant. */
module Arithmetic {

  lemma {:induction false} Spread(c: int, x: int, y: int)
    ensures c * (x + y) == c * x + c * y
  {
  }

  lemma {:induction false} AtLeast(c: int, d: int)
    requires c > 0 && d >= 1
    ensures c * d >= c
    decreases d
  {
    if d > 1 {
      AtLeast(c, d - 1);
      Spread(c, d - 1, 1);
    }
  }

  lemma {:induction false} Scaled(a: int, b: int, p: nat)
    requires a <= b
    ensures a * p <= b * p
    decreases p
  {
    if p > 0 {
      Scaled(a, b, p - 1);
      Spread(a, p - 1, 1);
      Spread(b, p - 1, 1);
    }
  }

  /** Quotient and remainder are unique. */
  lemma {:induction false} Unique(c: int, q: int, r: int, k: int, w: int)
    requires c * q + r == c * k + w && 0 <= r < c && 0 <= w < c
    ensures q == k && r == w
  {
    if q > k {
      Spread(c, k, q - k);
      AtLeast(c, q - k);
    } else if q < k {
      Spread(c, q, k - q);
      AtLeast(c, k - q);
    }
  }

  /** Counting on from a start around n places. */
  lemma {:induction false} AroundFrom(i: int, start: int, n: int)
    requires 0 <= i < n && 0 <= start
    ensures var k := start % n; (i + start) % n == if i + k < n then i + k else i + k - n
  {
    var q, k := start / n, start % n;
    assert start == n * q + k;
    var s := i + start;
    if i + k < n {
      Unique(n, s / n, s % n, q, i + k);
    } else {
      Spread(n, q, 1);
      Unique(n, s / n, s % n, q + 1, i + k - n);
    }
  }
}
