/** Real arithmetic that the geometry and the interpolation share. */
module Reals {

  function Min(a: real, b: real): real { if a <= b then a else b }

  function Max(a: real, b: real): real { if a <= b then b else a }

  lemma Quotient(n: real, d: real, q: real)
    requires d != 0.0
    ensures q == n / d <==> q * d == n
  {
    assert (n / d) * d == n;
    if q * d == n { assert (q - n / d) * d == 0.0; }
  }

  lemma ScaledQuotient(k: real, n: real, d: real)
    requires d != 0.0
    ensures (n / d) * k == k * n / d
  {
    var f := n / d;
    Quotient(n, d, f);
    assert (f * k) * d == k * (f * d);
    Quotient(k * n, d, f * k);
  }

  lemma Product(u: real, v: real)
    requires 0.0 <= u && 0.0 <= v
    ensures 0.0 <= u * v
  {
  }

  lemma FractionOf(f: real, d: real, n: real)
    requires f * d == n && 0.0 < d && 0.0 <= n <= d
    ensures 0.0 <= f <= 1.0
  {
  }

  lemma ScaleDown(u: real, size: real)
    requires size > 0.0
    ensures u * size <= 0.0 ==> u <= 0.0
    ensures u * size < 0.0 ==> u < 0.0
  {
  }

  lemma QuotientMonotone(a: real, b: real, size: real)
    requires size > 0.0 && a <= b
    ensures a / size <= b / size
  {
    var p, q := a / size, b / size;
    Quotient(a, size, p);
    Quotient(b, size, q);
    assert (p - q) * size == a - b;
    ScaleDown(p - q, size);
  }

  lemma FractionsOrdered(f: real, g: real, span: real, a: real, b: real)
    requires span > 0.0 && f * span == a && g * span == b && a <= b
    ensures f <= g
  {
    assert (f - g) * span == a - b;
    ScaleDown(f - g, span);
  }
}
