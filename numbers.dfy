/** Optional values, and the "float that may be NaN" of the calculator.
    The source marks every missing or incomputable number with NaN (or None);
    here that marker is the None case of an Option. */
module Numbers {

  datatype Option<+T> = None | Some(value: T)

  /** A measurement, statistic or spec limit: a real number, or None where the
      source holds NaN or None. */
  type Num = Option<real>

  // ---------------------------------------------------------------------
  // Facts about real arithmetic used by the statistics and the index
  // ---------------------------------------------------------------------

  /** |d|, the distance of d from zero. */
  function Magnitude(d: real): (m: real)
    ensures 0.0 <= m
    ensures m == 0.0 <==> d == 0.0
  {
    if d < 0.0 then -d else d
  }

  function PositiveProduct(a: real, b: real): (p: real)
    requires 0.0 < a && 0.0 < b
    ensures 0.0 < p
  {
    a * b
  }

  /** d squared: never negative, and zero only at zero. */
  function Square(d: real): (r: real)
    ensures 0.0 <= r
    ensures r == 0.0 <==> d == 0.0
  {
    if d == 0.0 then 0.0 else PositiveProduct(Magnitude(d), Magnitude(d))
  }

  lemma SquareIsProduct(d: real)
    ensures Square(d) == d * d
  {
  }

  lemma DivideBounds(total: real, n: real, lo: real, hi: real)
    requires 0.0 < n
    requires n * lo <= total <= n * hi
    ensures lo <= total / n <= hi
  {
    var q := total / n;
    assert n * q == total;
    if q < lo { ScaleStrict(n, q, lo); }
    if hi < q { ScaleStrict(n, hi, q); }
  }

  lemma ScaleStrict(n: real, a: real, b: real)
    requires 0.0 < n && a < b
    ensures n * a < n * b
  {
    assert n * b - n * a == n * (b - a);
  }

  /** A quotient by a positive number keeps the sign of the dividend. */
  lemma Quotient(x: real, n: real)
    requires 0.0 < n && 0.0 <= x
    ensures 0.0 <= x / n
    ensures x / n == 0.0 <==> x == 0.0
  {
    assert (x / n) * n == x;
  }

  /** Dividing by a positive number keeps order. */
  lemma DivideMonotone(a: real, b: real, k: real)
    requires 0.0 < k && a <= b
    ensures a / k <= b / k
  {
    var p, q := a / k, b / k;
    assert p * k == a && q * k == b;
    if q < p { ScaleStrict(k, q, p); }
  }

  /** A quotient by a positive k is at least c exactly when the dividend is
      at least c * k. */
  lemma DivideAtLeast(a: real, k: real, c: real)
    requires 0.0 < k
    ensures c <= a / k <==> c * k <= a
  {
    var q := a / k;
    assert q * k == a;
    if q < c { ScaleStrict(k, q, c); }
    if c <= q && c * k > a {
      if c < q { ScaleStrict(k, c, q); }
    }
  }
}
