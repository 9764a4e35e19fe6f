/** Facts about products and quotients that the size computations need. */
module Arithmetic {
  lemma MulMono(a: int, b: int, d: int)
    requires a <= b && 0 <= d
    ensures a * d <= b * d
  {
    assert 0 <= (b - a) * d;
  }

  lemma DivUnique(x: int, d: int, q: int)
    requires 0 < d && q * d <= x < (q + 1) * d
    ensures x / d == q
  {
    var p := x / d;
    assert p * d <= x < (p + 1) * d;
    if p < q {
      MulMono(p + 1, q, d);
    } else if q < p {
      MulMono(q + 1, p, d);
    }
  }

  lemma DivShift(a: int, d: int)
    requires 0 < d
    ensures (a + d) / d == a / d + 1
  {
    var q := a / d;
    assert (q + 1) * d == q * d + d && (q + 2) * d == q * d + 2 * d && (q + 1 + 1) * d == (q + 2) * d;
    assert q * d <= a < q * d + d;
    DivUnique(a + d, d, q + 1);
  }

  lemma Multiples4(a: int, b: int)
    requires a % 4 == 0 && b % 4 == 0
    ensures (a + b) % 4 == 0
  {
  }
}
