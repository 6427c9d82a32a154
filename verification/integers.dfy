/** Integer utilities: absolute value, divisibility and Euclid's greatest
    common divisor, on unbounded integers (the source uses BigInt). */
module Integers {

  /** Absolute value of a BigInt. */
  function Abs(n: int): (r: nat)
    ensures r == n || r == -n
  {
    if n < 0 then -n else n
  }

  /** `d` divides `n`; zero divides only zero. */
  predicate Divides(d: int, n: int) {
    if d == 0 then n == 0 else n % d == 0
  }

  /** `g` is a greatest common divisor of `a` and `b`: a common divisor that
      every common divisor divides. */
  ghost predicate IsGcd(g: int, a: int, b: int) {
    && g >= 0
    && Divides(g, a)
    && Divides(g, b)
    && forall d :: Divides(d, a) && Divides(d, b) ==> Divides(d, g)
  }

  /** Euclid's algorithm on non-negative arguments, as a recursive function. */
  function Gcd(a: nat, b: nat): nat
    decreases b
  {
    if b == 0 then a else Gcd(b, a % b)
  }

  /** The loop of the source: Euclid's algorithm on the absolute values. */
  method GreatestCommonDivisor(first: int, second: int) returns (g: nat)
    ensures g == Gcd(Abs(first), Abs(second))
    ensures IsGcd(g, first, second)
    ensures g == 0 <==> first == 0 && second == 0
  {
    var a: nat := Abs(first);
    var b: nat := Abs(second);
    while b != 0
      invariant Gcd(a, b) == Gcd(Abs(first), Abs(second))
      decreases b
    {
      var temporary := b;
      b := a % b;
      a := temporary;
    }
    g := a;
    GcdCharacterisation(Abs(first), Abs(second));
    GcdOfAbs(g, first, second);
    GcdZero(Abs(first), Abs(second));
  }

  // ---------------------------------------------------------------------
  // Divisibility bridges between `%` and explicit multiples.

  /** A product is divisible by each factor. */
  lemma DividesMultiple(d: int, k: int)
    ensures Divides(d, d * k)
  {
    if d != 0 {
      var n := d * k;
      EuclideanDivision(n, d);
      RemainderOfMultiple(d, k, n / d, n % d);
    }
  }

  lemma EuclideanDivision(n: int, d: int)
    requires d != 0
    ensures n == d * (n / d) + n % d && 0 <= n % d < Abs(d)
  {
  }

  /** A multiple of `d` leaves no remainder on division by `d`. */
  lemma RemainderOfMultiple(d: int, k: int, q: int, r: int)
    requires d != 0 && d * k == d * q + r && 0 <= r < Abs(d)
    ensures r == 0
  {
    Distribute(d, k, q);
    if k - q >= 1 {
      MulAtLeastFactor(d, k - q);
      assert false;
    } else if k - q <= -1 {
      Distribute(d, q, k);
      MulAtLeastFactor(d, q - k);
      assert false;
    }
  }

  /** Converting a product to a real multiplies the converted factors. */
  lemma CastProduct(x: int, y: int)
    ensures (x * y) as real == x as real * y as real
  {
  }

  lemma Distribute(d: int, a: int, b: int)
    ensures d * (a - b) == d * a - d * b
  {
  }

  /** |d * m| >= |d| whenever m >= 1. */
  lemma MulAtLeastFactor(d: int, m: int)
    requires m >= 1
    ensures Abs(d * m) >= Abs(d)
  {
    if d >= 0 {
      assert d * m == d + d * (m - 1);
      assert d * (m - 1) >= 0;
    } else {
      assert -(d * m) == -d + (-d) * (m - 1);
      assert (-d) * (m - 1) >= 0;
    }
  }

  /** A divisible number is the divisor times the quotient. */
  lemma DividesWitness(d: int, n: int)
    requires Divides(d, n)
    ensures n == d * (if d == 0 then 0 else n / d)
  {
  }

  /** Introduce divisibility from an explicit multiple. */
  lemma DividesIntro(d: int, n: int, k: int)
    requires n == d * k
    ensures Divides(d, n)
  {
    DividesMultiple(d, k);
  }

  lemma DividesRefl(d: int)
    ensures Divides(d, d) && Divides(d, 0)
  {
    DividesIntro(d, d, 1);
    DividesIntro(d, 0, 0);
  }

  lemma DividesNeg(d: int, n: int)
    ensures Divides(d, n) <==> Divides(d, -n)
  {
    if Divides(d, n) {
      DividesWitness(d, n);
      var k := if d == 0 then 0 else n / d;
      DividesIntro(d, -n, -k);
    }
    if Divides(d, -n) {
      DividesWitness(d, -n);
      var k := if d == 0 then 0 else (-n) / d;
      DividesIntro(d, n, -k);
    }
  }

  lemma DividesAbs(d: int, n: int)
    ensures Divides(d, n) <==> Divides(d, Abs(n))
  {
    DividesNeg(d, n);
  }

  /** A common divisor of `a` and `b` divides every combination `x*a + y*b`. */
  lemma DividesCombination(d: int, a: int, b: int, x: int, y: int)
    requires Divides(d, a) && Divides(d, b)
    ensures Divides(d, x * a + y * b)
  {
    DividesWitness(d, a);
    DividesWitness(d, b);
    var ka := if d == 0 then 0 else a / d;
    var kb := if d == 0 then 0 else b / d;
    assert x * a + y * b == d * (x * ka + y * kb) by {
      assert x * a == d * (x * ka);
      assert y * b == d * (y * kb);
    }
    DividesIntro(d, x * a + y * b, x * ka + y * kb);
  }

  /** Divisibility is transitive. */
  lemma DividesTrans(a: int, b: int, c: int)
    requires Divides(a, b) && Divides(b, c)
    ensures Divides(a, c)
  {
    DividesWitness(a, b);
    DividesWitness(b, c);
    var kb := if a == 0 then 0 else b / a;
    var kc := if b == 0 then 0 else c / b;
    assert c == a * (kb * kc) by {
      assert c == (a * kb) * kc;
    }
    DividesIntro(a, c, kb * kc);
  }

  /** A positive number divisible by `d` is at least `|d|`. */
  lemma DividesBound(d: int, n: int)
    requires Divides(d, n) && n > 0
    ensures Abs(d) <= n
  {
    DividesWitness(d, n);
    var k := n / d;
    if k >= 1 {
      MulAtLeastFactor(d, k);
    } else {
      assert k <= -1;
      MulAtLeastFactor(d, -k);
      assert d * (-k) == -(d * k);
    }
  }

  // ---------------------------------------------------------------------
  // Euclid's algorithm computes a greatest common divisor.

  /** One Euclid step keeps the set of common divisors. */
  lemma CommonDivisorsOfStep(d: int, a: int, b: int)
    requires b != 0
    ensures Divides(d, a) && Divides(d, b) <==> Divides(d, b) && Divides(d, a % b)
  {
    assert a % b == 1 * a + (-(a / b)) * b;
    assert a == (a / b) * b + 1 * (a % b);
    if Divides(d, a) && Divides(d, b) {
      DividesCombination(d, a, b, 1, -(a / b));
    }
    if Divides(d, b) && Divides(d, a % b) {
      DividesCombination(d, b, a % b, a / b, 1);
    }
  }

  /** `Gcd(a, b)` divides `a` and `b` and is divisible by every common divisor. */
  lemma {:induction false} GcdCharacterisation(a: nat, b: nat)
    ensures IsGcd(Gcd(a, b), a, b)
    decreases b
  {
    if b == 0 {
      DividesRefl(a);
    } else {
      GcdCharacterisation(b, a % b);
      var g := Gcd(b, a % b);
      CommonDivisorsOfStep(g, a, b);
      forall d | Divides(d, a) && Divides(d, b)
        ensures Divides(d, g)
      {
        CommonDivisorsOfStep(d, a, b);
      }
    }
  }

  /** The characterisation carries over from absolute values to the signed arguments. */
  lemma GcdOfAbs(g: int, a: int, b: int)
    requires IsGcd(g, Abs(a), Abs(b))
    ensures IsGcd(g, a, b)
  {
    DividesAbs(g, a);
    DividesAbs(g, b);
    forall d | Divides(d, a) && Divides(d, b)
      ensures Divides(d, g)
    {
      DividesAbs(d, a);
      DividesAbs(d, b);
    }
  }

  /** The gcd is zero exactly when both arguments are. */
  lemma GcdZero(a: nat, b: nat)
    ensures Gcd(a, b) == 0 <==> a == 0 && b == 0
  {
    GcdCharacterisation(a, b);
    if Gcd(a, b) == 0 {
      assert Divides(0, a) && Divides(0, b);
    }
  }

  /** gcd(0, d) = d, so a zero numerator normalises to 0/1. */
  lemma GcdZeroLeft(d: nat)
    ensures Gcd(0, d) == d
  {
  }

  /** gcd(n, 1) = 1. */
  lemma GcdOne(n: nat)
    ensures Gcd(n, 1) == 1
  {
  }
}
