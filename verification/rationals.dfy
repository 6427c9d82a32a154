/** Exact rational numbers as the source's `RationalNumber` class keeps them:
    a numerator and a denominator, normalised on every construction. */
module Rationals {
  import opened Results
  import opened Integers

  datatype Rational = Rational(num: int, den: int)

  /** The invariant every constructed rational keeps: a positive denominator
      and a numerator coprime to it. */
  predicate IsNormal(r: Rational) {
    r.den > 0 && Gcd(Abs(r.num), r.den) == 1
  }

  /** The number a rational denotes. */
  ghost function Value(r: Rational): real
    requires r.den != 0
  {
    r.num as real / r.den as real
  }

  /** The constructor with `normalize`: reject a zero denominator, move the
      sign onto the numerator, divide out the gcd. */
  function Normalize(n: int, d: int): (r: Result<Rational>)
    ensures r.Failure? <==> d == 0
    ensures r.Failure? ==> r.error == DivisionByZero
    ensures r.Success? ==> IsNormal(r.value)
    ensures r.Success? ==> r.value.num * d == n * r.value.den
    ensures r.Success? ==> Value(r.value) == n as real / d as real
  {
    if d == 0 then Failure(DivisionByZero)
    else
      var n1 := if d < 0 then -n else n;
      var d1 := if d < 0 then -d else d;
      var g := Gcd(Abs(n1), d1);
      ReduceByGcd(n1, d1);
      SignFlip(n, d, n1, d1, g, n1 / g, d1 / g);
      Success(Rational(n1 / g, d1 / g))
  }

  /** `add`: cross-multiplication reduced early by the gcd of the denominators. */
  function Add(p: Rational, q: Rational): (r: Rational)
    requires p.den > 0 && q.den > 0
    ensures IsNormal(r)
    ensures Value(r) == Value(p) + Value(q)
  {
    var g := Gcd(p.den, q.den);
    CommonFactor(p.den, q.den);
    var common := (p.den / g) * q.den;
    var combined := p.num * (q.den / g) + q.num * (p.den / g);
    AddMeaning(p.num, p.den, q.num, q.den, g, p.den / g, q.den / g);
    Normalize(combined, common).value
  }

  /** `multiply`: numerators and denominators multiplied, then normalised. */
  function Multiply(p: Rational, q: Rational): (r: Rational)
    requires p.den > 0 && q.den > 0
    ensures IsNormal(r)
    ensures Value(r) == Value(p) * Value(q)
  {
    MulMeaning(p.num, p.den, q.num, q.den);
    Normalize(p.num * q.num, p.den * q.den).value
  }

  // ---------------------------------------------------------------------
  // Identities the source relies on.

  /** Normalisation leaves an already normal rational unchanged. */
  lemma NormalizeKeepsNormal(r: Rational)
    requires IsNormal(r)
    ensures Normalize(r.num, r.den) == Success(r)
  {
  }

  /** A zero numerator normalises to 0/1 whatever the non-zero denominator. */
  lemma NormalizeZero(d: int)
    requires d != 0
    ensures Normalize(0, d) == Success(Rational(0, 1))
  {
    var d1 := if d < 0 then -d else d;
    GcdZeroLeft(d1);
  }

  /** Adding 0/1 on either side returns a normal rational unchanged. */
  lemma AddZero(r: Rational)
    requires IsNormal(r)
    ensures Add(r, Rational(0, 1)) == r
    ensures Add(Rational(0, 1), r) == r
  {
    GcdOne(r.den);
    assert Gcd(1, r.den) == 1 by { assert r.den % 1 == 0; }
    NormalizeKeepsNormal(r);
  }

  /** Multiplying by 1/1 on either side returns a normal rational unchanged. */
  lemma MultiplyOne(r: Rational)
    requires IsNormal(r)
    ensures Multiply(r, Rational(1, 1)) == r
    ensures Multiply(Rational(1, 1), r) == r
  {
    NormalizeKeepsNormal(r);
  }

  // ---------------------------------------------------------------------
  // Proof helpers.

  /** Dividing by the gcd is exact and leaves a normal pair. */
  lemma ReduceByGcd(n: int, d: int)
    requires d > 0
    ensures Gcd(Abs(n), d) > 0
    ensures n == Gcd(Abs(n), d) * (n / Gcd(Abs(n), d))
    ensures d == Gcd(Abs(n), d) * (d / Gcd(Abs(n), d))
    ensures IsNormal(Rational(n / Gcd(Abs(n), d), d / Gcd(Abs(n), d)))
  {
    var g := Gcd(Abs(n), d);
    GcdCharacterisation(Abs(n), d);
    GcdZero(Abs(n), d);
    DividesAbs(g, n);
    DividesWitness(g, n);
    DividesWitness(g, d);
    PositiveFactor(g, d / g);
    ReducedCoprime(n, d, g, n / g, d / g);
  }

  /** After dividing out the gcd `g`, no common factor above 1 is left. */
  lemma ReducedCoprime(n: int, d: int, g: int, a: int, b: int)
    requires g > 0 && b > 0 && n == g * a && d == g * b
    requires IsGcd(g, Abs(n), d)
    ensures Gcd(Abs(a), b) == 1
  {
    var h := Gcd(Abs(a), b);
    GcdCharacterisation(Abs(a), b);
    GcdZero(Abs(a), b);
    DividesAbs(h, a);
    DividesWitness(h, a);
    DividesWitness(h, b);
    ScaledWitness(n, g, a, h, a / h);
    ScaledWitness(d, g, b, h, b / h);
    var hg := h * g;
    DividesIntro(hg, n, a / h);
    DividesIntro(hg, d, b / h);
    DividesAbs(hg, n);
    assert Divides(hg, g);
    DividesBound(hg, g);
    AtMostOne(h, g);
  }

  lemma ScaledWitness(n: int, g: int, a: int, h: int, k: int)
    requires n == g * a && a == h * k
    ensures n == (h * g) * k
  {
    assert g * (h * k) == (h * g) * k;
  }

  lemma PositiveFactor(g: int, x: int)
    requires g > 0 && g * x > 0
    ensures x > 0
  {
  }

  lemma AtMostOne(h: int, g: int)
    requires h > 0 && g > 0 && h * g <= g
    ensures h == 1
  {
    assert h * g == g + (h - 1) * g;
  }

  /** Moving the sign onto the numerator keeps the fraction. */
  lemma SignFlip(n: int, d: int, n1: int, d1: int, g: int, a: int, b: int)
    requires d != 0
    requires n1 == (if d < 0 then -n else n) && d1 == (if d < 0 then -d else d)
    requires b != 0 && g != 0 && n1 == g * a && d1 == g * b
    ensures a * d == n * b
    ensures a as real / b as real == n as real / d as real
  {
    assert a * d1 == n1 * b by {
      assert a * (g * b) == (g * a) * b;
    }
    if d < 0 {
      assert a * d == -(a * d1);
    }
    assert (g as real * a as real) / (g as real * b as real) == a as real / b as real by {
      RealCancel(a as real, b as real, g as real);
    }
  }

  lemma RealCancel(a: real, b: real, g: real)
    requires b != 0.0 && g != 0.0
    ensures (g * a) / (g * b) == a / b
  {
  }

  /** The gcd of two positive denominators splits each of them exactly. */
  lemma CommonFactor(a: int, b: int)
    requires a > 0 && b > 0
    ensures Gcd(a, b) > 0
    ensures a == Gcd(a, b) * (a / Gcd(a, b)) && a / Gcd(a, b) > 0
    ensures b == Gcd(a, b) * (b / Gcd(a, b)) && b / Gcd(a, b) > 0
    ensures (a / Gcd(a, b)) * b > 0
  {
    var g := Gcd(a, b);
    GcdCharacterisation(a, b);
    GcdZero(a, b);
    DividesWitness(g, a);
    DividesWitness(g, b);
    PositiveFactor(g, a / g);
    PositiveFactor(g, b / g);
  }

  /** The early-reduced cross-multiplication of `add` denotes the sum. */
  lemma AddMeaning(pn: int, pd: int, qn: int, qd: int, g: int, a: int, b: int)
    requires g > 0 && a > 0 && b > 0 && pd == g * a && qd == g * b
    ensures ((pn * b + qn * a) as real) / ((a * qd) as real)
         == pn as real / pd as real + qn as real / qd as real
  {
    CastProduct(g, a);
    CastProduct(g, b);
    CastProduct(a, qd);
    CastProduct(pn, b);
    CastProduct(qn, a);
    AddValue(pn as real, qn as real, g as real, a as real, b as real,
             pd as real, qd as real, (a * qd) as real, (pn * b) as real, (qn * a) as real);
  }

  // Every product arrives as its own variable so that the solver sees only
  // linear facts about them; stated over the casts, this is far costlier.
  lemma AddValue(pn: real, qn: real, g: real, a: real, b: real,
                 pd: real, qd: real, common: real, pnb: real, qna: real)
    requires g != 0.0 && a != 0.0 && b != 0.0
    requires pd == g * a && qd == g * b && common == a * qd
    requires pnb == pn * b && qna == qn * a
    ensures (pnb + qna) / common == pn / pd + qn / qd
  {
  }

  /** The cross product of `multiply` denotes the product. */
  lemma MulMeaning(pn: int, pd: int, qn: int, qd: int)
    requires pd > 0 && qd > 0
    ensures pd * qd > 0
    ensures (pn * qn) as real / (pd * qd) as real == (pn as real / pd as real) * (qn as real / qd as real)
  {
    CastProduct(pn, qn);
    CastProduct(pd, qd);
    MulValue(pn as real, pd as real, qn as real, qd as real, (pn * qn) as real, (pd * qd) as real);
  }

  lemma MulValue(pn: real, pd: real, qn: real, qd: real, n: real, d: real)
    requires pd != 0.0 && qd != 0.0 && n == pn * qn && d == pd * qd
    ensures n / d == (pn / pd) * (qn / qd)
  {
  }
}
