/** The few facts about multiplication that the proofs quote by name. */
module NonLinear {

  lemma MulLe(a: int, b: int, c: int)
    ensures 0 <= c && a <= b ==> a * c <= b * c
  {
  }

  lemma MulDistrib(a: int, b: int, c: int)
    ensures (a + b) * c == a * c + b * c
    ensures (a - b) * c == a * c - b * c
    ensures c * (a + b) == c * a + c * b
    ensures c * (a - b) == c * a - c * b
  {
  }

  lemma MulAssoc(a: int, b: int, c: int)
    ensures (a * b) * c == a * (b * c)
  {
  }

  lemma MulComm(a: int, b: int)
    ensures a * b == b * a
  {
  }

  lemma DivBounds(n: int, d: int)
    requires d > 0
    ensures (n / d) * d <= n < (n / d) * d + d
  {
  }

  lemma QuotientUnique(n: int, d: int, q: int)
    requires d > 0 && q * d <= n < q * d + d
    ensures n / d == q
  {
    var p := n / d;
    DivBounds(n, d);
    MulDistrib(p, 1, d);
    MulDistrib(q, 1, d);
    MulLe(p + 1, q, d);
    MulLe(q + 1, p, d);
  }

  /** A quotient of at least b. */
  lemma QuotientAtLeast(n: int, d: int, b: int)
    requires d > 0 && b * d <= n
    ensures b <= n / d
  {
    DivBounds(n, d);
    MulDistrib(n / d, 1, d);
    MulLe(n / d + 1, b, d);
  }

  /** A quotient below b. */
  lemma QuotientBelow(n: int, d: int, b: int)
    requires d > 0 && n < b * d
    ensures n / d < b
  {
    DivBounds(n, d);
    MulLe(b, n / d, d);
  }

  /** Nested flooring divisions collapse into one. */
  lemma DivDiv(n: int, a: int, b: int)
    requires a > 0 && b > 0
    ensures a * b > 0 && n / a / b == n / (a * b)
  {
    var m := n / a;
    var q := m / b;
    DivBounds(n, a);
    DivBounds(m, b);
    MulLe(q * b, m, a);
    MulDistrib(m, 1, a);
    MulDistrib(q * b, b, a);
    MulLe(m + 1, q * b + b, a);
    MulAssoc(q, b, a);
    MulComm(a, b);
    MulLe(1, a, b);
    QuotientUnique(n, a * b, q);
  }
}
