/** Products and quotients of reals under names a proof can hide, with the few laws the proofs use. */
module Reals {

  type Positive = x: real | x > 0.0 witness 1.0

  function Product(a: real, b: real): real {
    a * b
  }

  function Ratio(a: real, b: real): real
    requires b > 0.0
  {
    a / b
  }

  function Min(a: real, b: real): real {
    if a <= b then a else b
  }

  lemma Zero(a: real)
    ensures Product(a, 0.0) == Product(0.0, a) == 0.0
  {
  }

  lemma One(a: real)
    ensures Product(a, 1.0) == a
  {
  }

  lemma Distribute(a: real, b: real, c: real)
    ensures Product(a, b + c) == Product(a, b) + Product(a, c)
  {
  }

  lemma PositiveProduct(a: real, b: real)
    requires a > 0.0 && b > 0.0
    ensures Product(a, b) > 0.0
  {
  }

  lemma DivideSelf(x: real)
    requires x > 0.0
    ensures Ratio(x, x) == 1.0
  {
  }

  lemma ZeroRatio(d: real)
    requires d > 0.0
    ensures Ratio(0.0, d) == 0.0
  {
  }

  lemma AddFractions(a: real, b: real, d: real)
    requires d > 0.0
    ensures Ratio(a, d) + Ratio(b, d) == Ratio(a + b, d)
  {
  }

  lemma Chain(a: real, b: real, c: real)
    requires a > 0.0 && b > 0.0
    ensures Product(Ratio(b, a), Ratio(c, b)) == Ratio(c, a)
  {
  }

  lemma Cancel(c: real, a: real, b: real)
    requires c > 0.0 && b > 0.0
    ensures Product(c, b) > 0.0 && Ratio(Product(c, a), Product(c, b)) == Ratio(a, b)
  {
    var q := a / b;
    assert c * b > 0.0;
    assert c * a == c * (q * b) == q * (c * b);
  }

  /** Comparing fractions by cross multiplication. */
  lemma CrossMultiply(a: real, b: real, c: real, d: real)
    requires b > 0.0 && d > 0.0
    ensures Ratio(a, b) <= Ratio(c, d) <==> Product(a, d) <= Product(c, b)
  {
    var x, y := a / b, c / d;
    var k := b * d;
    assert a * d == x * k && c * b == y * k;
    if x <= y {
      assert (y - x) * k >= 0.0;
    } else {
      assert (x - y) * k > 0.0;
    }
  }

  lemma RatioMonotone(a: real, b: real, d: real)
    requires d > 0.0 && a <= b
    ensures Ratio(a, d) <= Ratio(b, d)
  {
  }

  lemma RatioPositive(a: real, d: real)
    requires d > 0.0
    ensures Ratio(a, d) > 0.0 <==> a > 0.0
    ensures Ratio(a, d) >= 0.0 <==> a >= 0.0
  {
  }

  lemma RatioBelow(a: real, d: real, x: real)
    requires d > 0.0
    ensures Ratio(a, d) <= x <==> a <= Product(x, d)
  {
    var q := a / d;
    assert a == q * d;
    if q <= x {
      assert (x - q) * d >= 0.0;
    } else {
      assert (q - x) * d > 0.0;
    }
  }
}
