/** Quotients and remainders by a number that is not a constant. */
module Arithmetic {

  lemma Modulo(n: int, q: int, r: int)
    requires 0 <= r < n
    ensures (n * q + r) % n == r && (n * q + r) / n == q
  {
    var x := n * q + r;
    var q', r' := x / n, x % n;
    assert x == n * q' + r' && 0 <= r' < n;
    Difference(n, q, q');
    SameQuotient(n, q - q', r' - r);
  }

  lemma Difference(n: int, a: int, b: int)
    ensures n * (a - b) == n * a - n * b
  {
  }

  lemma OneMoreTime(n: int, q: int)
    ensures n * (q + 1) == n * q + n
  {
  }

  lemma SameQuotient(n: int, a: int, b: int)
    requires 0 < n && n * a == b && -n < b < n
    ensures a == 0 && b == 0
  {
    if a >= 1 {
      AtLeastOnce(n, a);
    } else if a <= -1 {
      AtLeastOnce(n, -a);
    }
  }

  lemma AtLeastOnce(n: int, a: int)
    requires 0 < n && 1 <= a
    ensures n <= n * a && n * -a == -(n * a)
  {
  }

  /** Numbers less than `n` apart that leave the same remainder are equal. */
  lemma SameRemainder(n: int, x: int, y: int)
    requires 0 < n && -n < y - x < n && x % n == y % n
    ensures x == y
  {
    var q, p := x / n, y / n;
    assert x == n * q + x % n && y == n * p + y % n;
    Difference(n, p, q);
    SameQuotient(n, p - q, y - x);
  }

  /** Adding a multiple of `n` does not change the remainder. */
  lemma MultipleAdded(n: int, x: int, k: int)
    requires 0 < n
    ensures (x + n * k) % n == x % n
  {
    var q, r := x / n, x % n;
    assert x == n * q + r;
    Difference(n, q, -k);
    assert x + n * k == n * (q + k) + r;
    Modulo(n, q + k, r);
  }
}
