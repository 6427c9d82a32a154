/** Lagrange interpolation evaluated at a point `t`, as a reference
    definition over exact reals: the sum over the selected points of
    y_i * prod_{j != i}(t - x_j) / prod_{j != i}(x_i - x_j). The theorem
    `InterpolationExact` says this sum recovers p(t) for every integer
    polynomial p with fewer coefficients than there are points. */
module Lagrange {
  import opened Integers
  import opened Polynomials

  datatype Point = Point(x: int, y: int)

  predicate DistinctX(pts: seq<Point>)
  {
    forall i, j | 0 <= i < j < |pts| :: pts[i].x != pts[j].x
  }

  /** All points lie on the integer polynomial `cs`. */
  predicate OnPolynomial(pts: seq<Point>, cs: seq<int>)
  {
    forall i | 0 <= i < |pts| :: pts[i].y == IntEval(cs, pts[i].x)
  }

  /** prod_{j < m, j != i} (t - x_j), multiplied in index order. */
  function OtherProduct(pts: seq<Point>, i: nat, t: int, m: nat): int
    requires m <= |pts|
    decreases m
  {
    if m == 0 then 1
    else if m - 1 == i then OtherProduct(pts, i, t, m - 1)
    else OtherProduct(pts, i, t, m - 1) * (t - pts[m - 1].x)
  }

  /** Numerator of the basis value L_i(t). */
  function BasisNumerator(pts: seq<Point>, i: nat, t: int): int
  {
    OtherProduct(pts, i, t, |pts|)
  }

  /** Denominator of the basis value L_i(t): the numerator taken at t = x_i. */
  function BasisDenominator(pts: seq<Point>, i: nat): int
    requires i < |pts|
  {
    OtherProduct(pts, i, pts[i].x, |pts|)
  }

  /** y_i / D_i, where D_i is the i-th basis denominator; taken as 0 when
      D_i is 0, which happens only when two x-coordinates coincide. */
  ghost function Weight(pts: seq<Point>, i: nat): real
    requires i < |pts|
  {
    var d := BasisDenominator(pts, i);
    if d == 0 then 0.0 else pts[i].y as real / d as real
  }

  /** The weighted basis value y_i * L_i(t) = (y_i / D_i) * N_i(t). */
  ghost function Term(pts: seq<Point>, i: nat, t: int): real
    requires i < |pts|
  {
    Weight(pts, i) * BasisNumerator(pts, i, t) as real
  }

  /** sum_{i < m} y_i * L_i(t). */
  ghost function PartialSum(pts: seq<Point>, t: int, m: nat): real
    requires m <= |pts|
    decreases m
  {
    if m == 0 then 0.0 else PartialSum(pts, t, m - 1) + Term(pts, m - 1, t)
  }

  /** The Lagrange interpolant of `pts` evaluated at `t`. */
  ghost function Interpolant(pts: seq<Point>, t: int): real
  {
    PartialSum(pts, t, |pts|)
  }

  // ---------------------------------------------------------------------
  // Zero factors.

  /** The product vanishes exactly when some other point has x = t. */
  lemma {:induction false} OtherProductZero(pts: seq<Point>, i: nat, t: int, m: nat)
    requires m <= |pts|
    ensures OtherProduct(pts, i, t, m) == 0 <==> exists j | 0 <= j < m :: j != i && pts[j].x == t
    decreases m
  {
    if m > 0 {
      OtherProductZero(pts, i, t, m - 1);
      var prev := OtherProduct(pts, i, t, m - 1);
      if m - 1 != i {
        assert prev * (t - pts[m - 1].x) == 0 <==> prev == 0 || t - pts[m - 1].x == 0;
      }
    }
  }

  /** A basis denominator is zero exactly when another point shares x_i. */
  lemma {:induction false} DenominatorZero(pts: seq<Point>, i: nat)
    requires i < |pts|
    ensures BasisDenominator(pts, i) == 0 <==> exists j | 0 <= j < |pts| :: j != i && pts[j].x == pts[i].x
  {
    OtherProductZero(pts, i, pts[i].x, |pts|);
  }

  lemma {:induction false} DenominatorNonZero(pts: seq<Point>, i: nat)
    requires i < |pts| && DistinctX(pts)
    ensures BasisDenominator(pts, i) != 0
  {
    DenominatorZero(pts, i);
  }

  /** All basis denominators are non-zero exactly when the x-coordinates are distinct. */
  lemma {:induction false} DistinctIffDenominatorsNonZero(pts: seq<Point>)
    ensures DistinctX(pts) <==> forall i | 0 <= i < |pts| :: BasisDenominator(pts, i) != 0
  {
    if DistinctX(pts) {
      forall i | 0 <= i < |pts|
        ensures BasisDenominator(pts, i) != 0
      {
        DenominatorNonZero(pts, i);
      }
    } else {
      var i, j :| 0 <= i < j < |pts| && pts[i].x == pts[j].x;
      DenominatorZero(pts, i);
    }
  }

  // ---------------------------------------------------------------------
  // The interpolant at a node returns that node's y.

  /** L_i(x_k) is 1 when i = k and 0 otherwise. */
  lemma {:induction false} TermAtNode(pts: seq<Point>, i: nat, k: nat)
    requires i < |pts| && k < |pts| && DistinctX(pts)
    ensures Term(pts, i, pts[k].x) == if i == k then pts[i].y as real else 0.0
  {
    DenominatorNonZero(pts, i);
    if i != k {
      OtherProductZero(pts, i, pts[k].x, |pts|);
    }
  }

  lemma {:induction false} PartialSumAtNode(pts: seq<Point>, k: nat, m: nat)
    requires k < |pts| && m <= |pts| && DistinctX(pts)
    ensures PartialSum(pts, pts[k].x, m) == if k < m then pts[k].y as real else 0.0
    decreases m
  {
    if m > 0 {
      PartialSumAtNode(pts, k, m - 1);
      TermAtNode(pts, m - 1, k);
    }
  }

  // ---------------------------------------------------------------------
  // The interpolant is a polynomial with |pts| coefficients.

  lemma {:induction false} EvalProductPolyStep(pts: seq<Point>, i: nat, t: int, m: nat)
    requires 0 < m <= |pts| && m - 1 != i
    requires Eval(ProductPoly(pts, i, m - 1), t as real) == OtherProduct(pts, i, t, m - 1) as real
    ensures Eval(ProductPoly(pts, i, m), t as real) == OtherProduct(pts, i, t, m) as real
  {
    var prev := OtherProduct(pts, i, t, m - 1);
    var a := pts[m - 1].x;
    var p := ProductPoly(pts, i, m - 1);
    assert ProductPoly(pts, i, m) == MulLinear(p, a as real);
    assert OtherProduct(pts, i, t, m) == prev * (t - a);
    EvalMulLinear(p, a as real, t as real);
    CastProduct(prev, t - a);
    assert (t - a) as real == t as real - a as real;
  }

  /** Coefficients of prod_{j < m, j != i} (t - x_j). */
  function ProductPoly(pts: seq<Point>, i: nat, m: nat): (p: seq<real>)
    requires m <= |pts|
    ensures |p| == if i < m then m else m + 1
    decreases m
  {
    if m == 0 then [1.0]
    else if m - 1 == i then ProductPoly(pts, i, m - 1)
    else MulLinear(ProductPoly(pts, i, m - 1), pts[m - 1].x as real)
  }

  lemma {:induction false} EvalProductPoly(pts: seq<Point>, i: nat, t: int, m: nat)
    requires m <= |pts|
    ensures Eval(ProductPoly(pts, i, m), t as real) == OtherProduct(pts, i, t, m) as real
    decreases m
  {
    if m == 0 {
      assert [1.0][1..] == [];
    } else if m - 1 != i {
      EvalProductPoly(pts, i, t, m - 1);
      EvalProductPolyStep(pts, i, t, m);
    } else {
      assert ProductPoly(pts, i, m) == ProductPoly(pts, i, m - 1);
      assert OtherProduct(pts, i, t, m) == OtherProduct(pts, i, t, m - 1);
      EvalProductPoly(pts, i, t, m - 1);
    }
  }

  /** Coefficients of sum_{i < m} (y_i / D_i) * prod_{j != i} (t - x_j). */
  ghost function InterpolantPoly(pts: seq<Point>, m: nat): (p: seq<real>)
    requires m <= |pts|
    ensures |p| <= |pts|
    decreases m
  {
    if m == 0 then []
    else AddPoly(InterpolantPoly(pts, m - 1), Scale(Weight(pts, m - 1), ProductPoly(pts, m - 1, |pts|)))
  }

  lemma {:induction false} EvalInterpolantPoly(pts: seq<Point>, t: int, m: nat)
    requires m <= |pts| && DistinctX(pts)
    ensures Eval(InterpolantPoly(pts, m), t as real) == PartialSum(pts, t, m)
    decreases m
  {
    if m > 0 {
      EvalInterpolantPoly(pts, t, m - 1);
      EvalInterpolantStep(pts, t, m);
    }
  }

  lemma {:induction false} EvalInterpolantStep(pts: seq<Point>, t: int, m: nat)
    requires 0 < m <= |pts| && DistinctX(pts)
    requires Eval(InterpolantPoly(pts, m - 1), t as real) == PartialSum(pts, t, m - 1)
    ensures Eval(InterpolantPoly(pts, m), t as real) == PartialSum(pts, t, m)
  {
    InterpolantPolySplit(pts, t, m);
    PartialSumStep(pts, t, m);
  }

  /** Adding the i-th scaled basis polynomial adds the i-th term. */
  lemma {:induction false} InterpolantPolySplit(pts: seq<Point>, t: int, m: nat)
    requires 0 < m <= |pts| && DistinctX(pts)
    ensures Eval(InterpolantPoly(pts, m), t as real)
         == Eval(InterpolantPoly(pts, m - 1), t as real) + Term(pts, m - 1, t)
  {
    EvalInterpolantPolyUnfold(pts, t, m);
    EvalScaledBasis(pts, t, m - 1);
  }

  lemma {:induction false} EvalInterpolantPolyUnfold(pts: seq<Point>, t: int, m: nat)
    requires 0 < m <= |pts|
    ensures Eval(InterpolantPoly(pts, m), t as real)
         == Eval(InterpolantPoly(pts, m - 1), t as real)
          + Eval(Scale(Weight(pts, m - 1), ProductPoly(pts, m - 1, |pts|)), t as real)
  {
    EvalAdd(InterpolantPoly(pts, m - 1), Scale(Weight(pts, m - 1), ProductPoly(pts, m - 1, |pts|)), t as real);
  }

  /** The i-th scaled product polynomial evaluates to the i-th term. */
  lemma {:induction false} EvalScaledBasis(pts: seq<Point>, t: int, i: nat)
    requires i < |pts|
    ensures Eval(Scale(Weight(pts, i), ProductPoly(pts, i, |pts|)), t as real) == Term(pts, i, t)
  {
    EvalBasis(pts, t, i);
    TermUnfold(pts, t, i);
    EvalScaleAt(Weight(pts, i), ProductPoly(pts, i, |pts|), t as real, BasisNumerator(pts, i, t) as real, Term(pts, i, t));
  }

  /** The i-th product polynomial evaluates to the i-th basis numerator. */
  lemma {:induction false} EvalBasis(pts: seq<Point>, t: int, i: nat)
    requires i < |pts|
    ensures Eval(ProductPoly(pts, i, |pts|), t as real) == BasisNumerator(pts, i, t) as real
  {
    EvalProductPoly(pts, i, t, |pts|);
  }

  lemma {:induction false} TermUnfold(pts: seq<Point>, t: int, i: nat)
    requires i < |pts|
    ensures Term(pts, i, t) == Weight(pts, i) * BasisNumerator(pts, i, t) as real
  {
  }

  lemma {:induction false} PartialSumStep(pts: seq<Point>, t: int, m: nat)
    requires 0 < m <= |pts|
    ensures PartialSum(pts, t, m) == PartialSum(pts, t, m - 1) + Term(pts, m - 1, t)
  {
  }

  lemma {:induction false} EvalScaleAt(c: real, p: seq<real>, t: real, v: real, cv: real)
    requires Eval(p, t) == v && cv == c * v
    ensures Eval(Scale(c, p), t) == cv
  {
    EvalScale(c, p, t);
  }

  // ---------------------------------------------------------------------
  // Exactness.

  /** For distinct x-coordinates and any integer polynomial with at most
      |pts| coefficients, the Lagrange sum through its values at those
      x-coordinates evaluates to the polynomial itself, at every integer t. */
  lemma {:induction false} InterpolationExact(pts: seq<Point>, cs: seq<int>, t: int)
    requires DistinctX(pts) && |cs| <= |pts|
    requires OnPolynomial(pts, cs)
    ensures Interpolant(pts, t) == IntEval(cs, t) as real
  {
    var q := InterpolantPoly(pts, |pts|);
    var d := AddPoly(Embed(cs), Scale(-1.0, q));
    var rs := seq(|pts|, i requires 0 <= i < |pts| => pts[i].x as real);
    assert Distinct(rs);
    forall i | 0 <= i < |rs|
      ensures Eval(d, rs[i]) == 0.0
    {
      var x := pts[i].x;
      assert rs[i] == x as real;
      DifferenceAt(pts, cs, q, d, x);
      assert Eval(q, x as real) == pts[i].y as real by {
        EvalInterpolantPoly(pts, x, |pts|);
        PartialSumAtNode(pts, i, |pts|);
      }
    }
    RootsForceZero(d, rs);
    assert Eval(d, t as real) == 0.0;
    DifferenceAt(pts, cs, q, d, t);
    EvalInterpolantPoly(pts, t, |pts|);
  }

  /** The difference polynomial evaluates to p(x) minus the interpolant polynomial at x. */
  lemma {:induction false} DifferenceAt(pts: seq<Point>, cs: seq<int>, q: seq<real>, d: seq<real>, x: int)
    requires d == AddPoly(Embed(cs), Scale(-1.0, q))
    ensures Eval(d, x as real) == IntEval(cs, x) as real - Eval(q, x as real)
  {
    EvalAdd(Embed(cs), Scale(-1.0, q), x as real);
    EvalScale(-1.0, q, x as real);
    EvalEmbed(cs, x);
  }

  /** At t = 0 the interpolant is the polynomial's constant term. */
  lemma {:induction false} SecretRecovered(pts: seq<Point>, cs: seq<int>)
    requires DistinctX(pts) && |cs| <= |pts|
    requires OnPolynomial(pts, cs)
    ensures Interpolant(pts, 0) == ConstantTerm(cs) as real
  {
    InterpolationExact(pts, cs, 0);
  }

  /** Through a single point the interpolant is that point's y, wherever it is evaluated. */
  lemma {:induction false} SinglePoint(p: Point, t: int)
    ensures DistinctX([p])
    ensures Interpolant([p], t) == p.y as real
  {
    assert OtherProduct([p], 0, t, 1) == 1;
    assert OtherProduct([p], 0, p.x, 1) == 1;
  }
}
