/** Products and quotients of reals, kept apart from what is computed with them. */
module RealAlgebra {

  function Product(a: real, b: real): real
  {
    a * b
  }

  function Over(a: real, b: real): (q: real)
    requires b != 0.0
    ensures q * b == a
  {
    a / b
  }

  lemma SignOf(q: real, b: real)
    requires b > 0.0
    ensures q > 0.0 <==> q * b > 0.0
  {
  }

  lemma NotNegative(a: real, d: real)
    requires d > 0.0 && a * d >= 0.0
    ensures a >= 0.0
  {
  }

  lemma ProductNotNegative(a: real, b: real)
    requires a >= 0.0 && b >= 0.0
    ensures a * b >= 0.0
  {
  }

  lemma Assoc(a: real, b: real, c: real)
    ensures a * (b * c) == (a * b) * c
  {
  }

  lemma Spread(a: real, b: real, c: real)
    ensures a * (b + c) == a * b + a * c && (b + c) * a == b * a + c * a
    ensures a * (b - c) == a * b - a * c && (b - c) * a == b * a - c * a
  {
  }

  lemma NoFactor(p: real, d: real)
    requires p > 0.0 && p * d == 0.0
    ensures d == 0.0
  {
  }

  lemma IsQuotient(a: real, p: real, q: real)
    requires p > 0.0 && q * p == a
    ensures q == Over(a, p)
  {
    var r := Over(a, p);
    var d := q - r;
    assert d * p == q * p - r * p;
    NoFactor(p, d);
  }
}
