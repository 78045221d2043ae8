/** Products and quotients by a symbolic divisor, one small step each. */
module Arithmetic {

  lemma LessByFactor(a: int, b: int, k: int)
    requires k > 0 && a * k < b * k
    ensures a < b
  {}

  lemma Distribute(a: int, x: int, y: int)
    ensures a * (x + y) == a * x + a * y
  {}

  /** Quotient and remainder are the only pair that divides. */
  lemma Divides(k: int, q: int, r: int, n: int)
    requires 0 <= r < n && k == q * n + r
    ensures k / n == q && k % n == r
  {
    var q' := k / n;
    assert k == q' * n + k % n;
    assert (q + 1) * n == q * n + n;
    assert (q' + 1) * n == q' * n + n;
    LessByFactor(q', q + 1, n);
    LessByFactor(q, q' + 1, n);
  }

  lemma QuotientBound(a: int, k: int, n: int)
    requires k > 0 && a * k <= n
    ensures a <= n / k
  {
    var q := n / k;
    assert n == q * k + n % k;
    assert (q + 1) * k == q * k + k;
    LessByFactor(a, q + 1, k);
  }

  /** Where `k + d` falls modulo `n`, for `d` up to `n`. */
  lemma ModAdd(k: int, d: int, n: int)
    requires n > 0 && 0 <= d <= n
    ensures (k + d) % n == if k % n + d < n then k % n + d else k % n + d - n
  {
    var q, r := k / n, k % n;
    assert k == q * n + r;
    assert (q + 1) * n == q * n + n;
    if r + d < n {
      Divides(k + d, q, r + d, n);
    } else if r + d < 2 * n {
      Divides(k + d, q + 1, r + d - n, n);
    }
  }

  /** Counters less than `n` apart fall on different slots. */
  lemma ModApart(a: int, b: int, n: int)
    requires a < b < a + n
    ensures a % n != b % n
  {
    ModAdd(a, b - a, n);
  }

  /** Reducing first by a multiple of `n` changes nothing modulo `n`. */
  lemma ModMod(x: int, w: int, n: int)
    requires 0 <= x && 0 < n && 0 < w && w % n == 0
    ensures (x % w) % n == x % n
  {
    var q, m := x / w, w / n;
    var r := x % w;
    assert w == m * n;
    assert x == q * w + r;
    assert q * (m * n) == (q * m) * n;
    assert r == (r / n) * n + r % n;
    assert (q * m + r / n) * n == (q * m) * n + (r / n) * n;
    Divides(x, q * m + r / n, r % n, n);
  }
}
