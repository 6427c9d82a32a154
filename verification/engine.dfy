/** `computeConstantTerm`: decode every share, order the points by x, keep
    the first k, sum the Lagrange terms at x = 0 in exact rationals, and
    reduce the sum to an integer. */
module Engine {
  import opened Results
  import opened Integers
  import opened Rationals
  import opened Radix
  import opened Polynomials
  import opened Lagrange

  /** One share of the input: its x key, and its y value spelled in `base`. */
  datatype Share = Share(x: int, base: int, value: string)

  /** The secret is the polynomial's value at x = 0. */
  const EvaluationPoint: int := 0

  // ---------------------------------------------------------------------
  // Decoding the shares.

  /** A share whose value the source's decoder accepts in its base. */
  predicate ValidShare(s: Share)
  {
    Decode(s.value, s.base).Success?
  }

  predicate AllSharesValid(shares: seq<Share>)
  {
    forall i | 0 <= i < |shares| :: ValidShare(shares[i])
  }

  /** The point a valid share stands for. */
  function SharePoint(s: Share): (p: Point)
    requires ValidShare(s)
    ensures p.x == s.x && Decode(s.value, s.base) == Success(p.y)
  {
    Point(s.x, Decode(s.value, s.base).value)
  }

  /** The points of a list of valid shares, in input order. */
  function DecodedPoints(shares: seq<Share>): (pts: seq<Point>)
    requires AllSharesValid(shares)
    ensures |pts| == |shares|
    ensures forall i | 0 <= i < |shares| :: pts[i] == SharePoint(shares[i])
  {
    seq(|shares|, i requires 0 <= i < |shares| => SharePoint(shares[i]))
  }

  /** The parsing loop: each share decoded in turn, the first invalid digit
      string aborting the whole computation. */
  method DecodeShares(shares: seq<Share>) returns (r: Result<seq<Point>>)
    ensures r.Success? <==> AllSharesValid(shares)
    ensures r.Failure? ==> r.error == InvalidDigit
    ensures r.Success? ==> |r.value| == |shares|
    ensures r.Success? ==> forall i | 0 <= i < |shares| ::
              r.value[i].x == shares[i].x && Decode(shares[i].value, shares[i].base) == Success(r.value[i].y)
  {
    var pts: seq<Point> := [];
    var i := 0;
    while i < |shares|
      invariant 0 <= i <= |shares|
      invariant |pts| == i
      invariant forall j | 0 <= j < i :: ValidShare(shares[j])
      invariant forall j | 0 <= j < i ::
                  pts[j].x == shares[j].x && Decode(shares[j].value, shares[j].base) == Success(pts[j].y)
    {
      var y := ConvertStringToBigInt(shares[i].value, shares[i].base);
      if y.Failure? {
        return Failure(InvalidDigit);
      }
      pts := pts + [Point(shares[i].x, y.value)];
      i := i + 1;
    }
    return Success(pts);
  }

  // ---------------------------------------------------------------------
  // Ordering the points by x.

  predicate SortedByX(pts: seq<Point>)
  {
    forall i, j | 0 <= i < j < |pts| :: pts[i].x <= pts[j].x
  }

  /** Places `p` after every point whose x is at most p.x, so points with
      equal x keep their order of arrival. */
  function Insert(p: Point, pts: seq<Point>): (r: seq<Point>)
    ensures |r| == |pts| + 1
    ensures multiset(r) == multiset(pts) + multiset{p}
    decreases |pts|
  {
    if |pts| == 0 then [p]
    else if p.x < pts[0].x then [p] + pts
    else
      assert pts == [pts[0]] + pts[1..];
      [pts[0]] + Insert(p, pts[1..])
  }

  /** Insertion into x-ordered points keeps them x-ordered. */
  lemma {:induction false} InsertSorted(p: Point, pts: seq<Point>)
    requires SortedByX(pts)
    ensures SortedByX(Insert(p, pts))
    decreases |pts|
  {
    if |pts| > 0 && p.x >= pts[0].x {
      var rest := Insert(p, pts[1..]);
      InsertSorted(p, pts[1..]);
      forall j | 0 <= j < |rest|
        ensures pts[0].x <= rest[j].x
      {
        assert rest[j] in multiset(rest);
        assert rest[j] == p || rest[j] in pts[1..];
      }
      assert Insert(p, pts) == [pts[0]] + rest;
    }
  }

  /** Insertion sort by x, taking the points in input order. */
  function SortByX(pts: seq<Point>): (r: seq<Point>)
    ensures |r| == |pts|
    ensures SortedByX(r)
    ensures multiset(r) == multiset(pts)
    decreases |pts|
  {
    if |pts| == 0 then []
    else
      var init := pts[..|pts| - 1];
      var last := pts[|pts| - 1];
      assert pts == init + [last];
      InsertSorted(last, SortByX(init));
      Insert(last, SortByX(init))
  }

  /** The first k points in x order: the ones the reconstruction uses. They
      are drawn from the input without repetition, and no point left out has
      a smaller x than a point kept. */
  function Selected(pts: seq<Point>, k: nat): (sel: seq<Point>)
    requires k <= |pts|
    ensures |sel| == k && SortedByX(sel)
    ensures multiset(sel) <= multiset(pts)
    ensures forall i | 0 <= i < k :: sel[i] in pts
    ensures forall i, q | 0 <= i < k && q in multiset(pts) - multiset(sel) :: sel[i].x <= q.x
  {
    var sorted := SortByX(pts);
    SortedPrefix(pts, sorted, k);
    sorted[..k]
  }

  /** The first k points of an x-ordered permutation of `pts` come from
      `pts`, and every point of `pts` they leave out lies at or above them. */
  lemma {:induction false} SortedPrefix(pts: seq<Point>, s: seq<Point>, k: nat)
    requires SortedByX(s) && multiset(s) == multiset(pts) && k <= |s|
    ensures multiset(s[..k]) <= multiset(pts)
    ensures forall i | 0 <= i < k :: s[..k][i] in pts
    ensures forall i, q | 0 <= i < k && q in multiset(pts) - multiset(s[..k]) :: s[..k][i].x <= q.x
  {
    var sel := s[..k];
    PrefixLeavesTail(s, k);
    forall i | 0 <= i < k
      ensures sel[i] in pts
    {
      assert sel[i] in multiset(s);
    }
    forall i, q | 0 <= i < k && q in multiset(pts) - multiset(sel)
      ensures sel[i].x <= q.x
    {
      TailAbove(s, k, i, q);
    }
  }

  /** What a prefix leaves of the whole is the rest of the sequence. */
  lemma PrefixLeavesTail(s: seq<Point>, k: nat)
    requires k <= |s|
    ensures multiset(s[..k]) <= multiset(s)
    ensures multiset(s) - multiset(s[..k]) == multiset(s[k..])
  {
    assert s == s[..k] + s[k..];
  }

  /** In x order, a point after position k lies at or above the first k. */
  lemma TailAbove(s: seq<Point>, k: nat, i: nat, q: Point)
    requires SortedByX(s) && i < k <= |s| && q in multiset(s[k..])
    ensures s[i].x <= q.x
  {
    var j :| 0 <= j < |s| - k && s[k..][j] == q;
    assert s[k + j] == q;
  }

  /** Inserting a point whose x is new keeps the x-coordinates distinct. */
  lemma {:induction false} InsertDistinct(p: Point, pts: seq<Point>)
    requires SortedByX(pts) && DistinctX(pts)
    requires forall i | 0 <= i < |pts| :: pts[i].x != p.x
    ensures DistinctX(Insert(p, pts))
    decreases |pts|
  {
    if |pts| > 0 && p.x >= pts[0].x {
      var rest := Insert(p, pts[1..]);
      InsertDistinct(p, pts[1..]);
      forall q | q in rest
        ensures q.x != pts[0].x
      {
        assert q in multiset(rest);
      }
      assert Insert(p, pts) == [pts[0]] + rest;
      assert forall j | 0 <= j < |rest| :: rest[j] in rest;
    }
  }

  /** Sorting keeps the x-coordinates distinct. */
  lemma {:induction false} SortDistinct(pts: seq<Point>)
    requires DistinctX(pts)
    ensures DistinctX(SortByX(pts))
    decreases |pts|
  {
    if |pts| > 0 {
      var init := pts[..|pts| - 1];
      var last := pts[|pts| - 1];
      assert DistinctX(init);
      SortDistinct(init);
      var s := SortByX(init);
      forall i | 0 <= i < |s|
        ensures s[i].x != last.x
      {
        assert s[i] in multiset(init);
        var j :| 0 <= j < |init| && init[j] == s[i];
      }
      InsertDistinct(last, s);
    }
  }

  /** Inserting a point at least as large as all others appends it. */
  lemma {:induction false} InsertLast(p: Point, pts: seq<Point>)
    requires SortedByX(pts)
    requires forall i | 0 <= i < |pts| :: pts[i].x <= p.x
    ensures Insert(p, pts) == pts + [p]
    decreases |pts|
  {
    if |pts| > 0 {
      InsertLast(p, pts[1..]);
      assert pts == [pts[0]] + pts[1..];
    }
  }

  /** Points already in x order are left as they are. */
  lemma {:induction false} SortSorted(pts: seq<Point>)
    requires SortedByX(pts)
    ensures SortByX(pts) == pts
    decreases |pts|
  {
    if |pts| > 0 {
      var init := pts[..|pts| - 1];
      SortSorted(init);
      InsertLast(pts[|pts| - 1], init);
      assert init + [pts[|pts| - 1]] == pts;
    }
  }

  /** Points lying on `cs` with distinct x still do so after selection. */
  lemma {:induction false} SelectionKeepsCurve(pts: seq<Point>, cs: seq<int>, k: nat)
    requires k <= |pts| && DistinctX(pts)
    requires OnPolynomial(pts, cs)
    ensures DistinctX(Selected(pts, k))
    ensures forall i | 0 <= i < k :: Selected(pts, k)[i].y == IntEval(cs, Selected(pts, k)[i].x)
  {
    SortDistinct(pts);
    var sorted := SortByX(pts);
    var sel := Selected(pts, k);
    assert sel == sorted[..k];
    assert DistinctX(sel) by {
      forall i, j | 0 <= i < j < k
        ensures sel[i].x != sel[j].x
      {
        assert sel[i] == sorted[i] && sel[j] == sorted[j];
      }
    }
    forall i | 0 <= i < k
      ensures sel[i].y == IntEval(cs, sel[i].x)
    {
      var j :| 0 <= j < |pts| && pts[j] == sel[i];
    }
  }

  // ---------------------------------------------------------------------
  // The Lagrange loops.

  /** The inner loop: the products over j != i of (t - x_j) and (x_i - x_j). */
  method BasisProducts(pts: seq<Point>, i: nat, t: int) returns (np: int, dp: int)
    requires i < |pts|
    ensures np == BasisNumerator(pts, i, t) && dp == BasisDenominator(pts, i)
    ensures dp == 0 <==> exists j | 0 <= j < |pts| :: j != i && pts[j].x == pts[i].x
  {
    np := 1;
    dp := 1;
    var j := 0;
    while j < |pts|
      invariant 0 <= j <= |pts|
      invariant np == OtherProduct(pts, i, t, j)
      invariant dp == OtherProduct(pts, i, pts[i].x, j)
    {
      if i != j {
        np := np * (t - pts[j].x);
        dp := dp * (pts[i].x - pts[j].x);
      }
      j := j + 1;
    }
    DenominatorZero(pts, i);
  }

  /** One pass of the outer loop: y_i times the i-th basis value, failing
      when the basis denominator is zero. */
  method WeightedBasis(pts: seq<Point>, i: nat, t: int) returns (r: Result<Rational>)
    requires i < |pts|
    ensures r.Failure? <==> BasisDenominator(pts, i) == 0
    ensures r.Failure? ==> r.error == DivisionByZero
    ensures r.Success? ==> IsNormal(r.value) && Value(r.value) == Term(pts, i, t)
  {
    var np, dp := BasisProducts(pts, i, t);
    var basis := Normalize(np, dp);
    if basis.Failure? {
      return Failure(DivisionByZero);
    }
    var y := Normalize(pts[i].y, 1);
    var weighted := Multiply(y.value, basis.value);
    WeightedBasisValue(pts, i, t);
    return Success(weighted);
  }

  /** The rational the outer loop adds for point i denotes the i-th term. */
  lemma {:induction false} WeightedBasisValue(pts: seq<Point>, i: nat, t: int)
    requires i < |pts| && BasisDenominator(pts, i) != 0
    ensures Normalize(BasisNumerator(pts, i, t), BasisDenominator(pts, i)).Success?
    ensures Value(Multiply(Normalize(pts[i].y, 1).value,
                           Normalize(BasisNumerator(pts, i, t), BasisDenominator(pts, i)).value))
         == Term(pts, i, t)
  {
    var y := Normalize(pts[i].y, 1).value;
    var b := Normalize(BasisNumerator(pts, i, t), BasisDenominator(pts, i)).value;
    MultiplyValue(y, b);
    WeightedTerm(pts, i, t, y, b, Multiply(y, b));
  }

  // Restates `Multiply`'s value postcondition as a lemma: calling it here is
  // far cheaper for the solver than relying on that postcondition in a method.
  lemma MultiplyValue(p: Rational, q: Rational)
    requires p.den > 0 && q.den > 0
    ensures Value(Multiply(p, q)) == Value(p) * Value(q)
  {
  }

  /** The outer loop: y_i * basis_i accumulated in exact rationals.
      A repeated x makes some basis denominator zero, and the rational
      constructor then fails. */
  method LagrangeSum(pts: seq<Point>, t: int) returns (r: Result<Rational>)
    ensures r.Failure? <==> !DistinctX(pts)
    ensures r.Failure? ==> r.error == DivisionByZero
    ensures r.Success? ==> IsNormal(r.value) && Value(r.value) == Interpolant(pts, t)
  {
    var sum := Rational(0, 1);
    GcdOne(0);
    var i := 0;
    while i < |pts|
      invariant 0 <= i <= |pts|
      invariant IsNormal(sum)
      invariant Value(sum) == PartialSum(pts, t, i)
      invariant forall j | 0 <= j < i :: BasisDenominator(pts, j) != 0
    {
      var weighted := WeightedBasis(pts, i, t);
      if weighted.Failure? {
        RepeatedX(pts, i);
        return Failure(DivisionByZero);
      }
      var next := Add(sum, weighted.value);
      PartialSumStep(pts, t, i + 1);
      sum := next;
      i := i + 1;
    }
    DistinctIffDenominatorsNonZero(pts);
    return Success(sum);
  }

  /** A zero basis denominator means two points share an x. */
  lemma {:induction false} RepeatedX(pts: seq<Point>, i: nat)
    requires i < |pts| && BasisDenominator(pts, i) == 0
    ensures !DistinctX(pts)
  {
    DenominatorZero(pts, i);
  }

  /** (y / 1) * (N_i / D_i) is the i-th Lagrange term. */
  lemma {:induction false} WeightedTerm(pts: seq<Point>, i: nat, t: int, y: Rational, b: Rational, w: Rational)
    requires i < |pts| && y.den > 0 && b.den > 0 && w.den > 0
    requires Value(y) == pts[i].y as real / 1 as real
    requires BasisDenominator(pts, i) != 0
    requires Value(b) == BasisNumerator(pts, i, t) as real / BasisDenominator(pts, i) as real
    requires Value(w) == Value(y) * Value(b)
    ensures Value(w) == Term(pts, i, t)
  {
    TermUnfold(pts, t, i);
    Reorder(pts[i].y as real, BasisNumerator(pts, i, t) as real, BasisDenominator(pts, i) as real,
            Value(y), Value(b), Value(w), Weight(pts, i));
  }

  lemma Reorder(y: real, n: real, d: real, yv: real, bv: real, w: real, wt: real)
    requires d != 0.0 && yv == y / 1.0 && bv == n / d && w == yv * bv && wt == y / d
    ensures w == wt * n
  {
  }

  // ---------------------------------------------------------------------
  // The final reduction.

  /** An integer-valued sum becomes that integer; any other sum is an error.
      The source tests `numerator % denominator` with truncating BigInt
      division; that remainder is zero exactly when the Euclidean one is,
      and the quotient is then exact, so the two agree here. */
  function FinalReduce(q: Rational): (r: Result<int>)
    requires q.den > 0
    ensures r.Success? <==> Divides(q.den, q.num)
    ensures r.Failure? ==> r.error == NonIntegerResult
    ensures r.Success? ==> r.value as real == Value(q)
  {
    if q.den != 1 then
      if q.num % q.den != 0 then Failure(NonIntegerResult)
      else
        ExactQuotient(q.num, q.den);
        Success(q.num / q.den)
    else Success(q.num)
  }

  lemma ExactQuotient(n: int, d: int)
    requires d > 0 && n % d == 0
    ensures (n / d) as real == n as real / d as real
  {
    var k := n / d;
    assert n == d * k;
    CastProduct(d, k);
  }

  /** The reduction succeeds exactly when the sum denotes an integer, and
      then yields that integer. */
  lemma {:induction false} FinalReduceInteger(q: Rational, n: int)
    requires q.den > 0
    ensures Value(q) == n as real <==> FinalReduce(q) == Success(n)
  {
    if Value(q) == n as real {
      assert q.num as real == n as real * q.den as real;
      CastProduct(n, q.den);
      assert q.num == q.den * n;
      DividesIntro(q.den, q.num, n);
    }
  }

  /** For a normalised sum, the remainder test fires exactly when the
      denominator is not 1: the quotient branch is taken only for 1. */
  lemma {:induction false} NormalDividesOnlyUnit(q: Rational)
    requires IsNormal(q)
    ensures Divides(q.den, q.num) <==> q.den == 1
  {
    if Divides(q.den, q.num) {
      GcdCharacterisation(Abs(q.num), q.den);
      DividesAbs(q.den, q.num);
      DividesRefl(q.den);
      assert Divides(q.den, 1);
      DividesBound(q.den, 1);
    } else {
      assert q.num % 1 == 0;
    }
  }

  // ---------------------------------------------------------------------
  // The whole computation.

  /** How many points the outer loop reads: the threshold k, or none when
      k is not positive. */
  function PointsUsed(k: int): (m: nat)
    ensures m >= k && (m > 0 ==> m == k)
  {
    if k <= 0 then 0 else k
  }

  /** What the computation promises once the shares have decoded to `pts`,
      with `sel` the points the outer loop reads: a repeated x fails with a
      zero denominator; otherwise the result is the interpolant at 0 when
      that is an integer and a non-integer error when it is not. */
  ghost predicate Reconstructs(pts: seq<Point>, k: int, r: Result<int>)
    requires k <= |pts|
  {
    var sel := Selected(pts, PointsUsed(k));
    && (r == Failure(DivisionByZero) <==> !DistinctX(sel))
    && (DistinctX(sel) ==> r.Failure? ==> r.error == NonIntegerResult)
    && (DistinctX(sel) ==> forall n: int :: Interpolant(sel, EvaluationPoint) == n as real <==> r == Success(n))
    && (r.Success? ==> r.value as real == Interpolant(sel, EvaluationPoint))
    && (forall cs | |cs| <= k && OnPolynomial(sel, cs) :: DistinctX(sel) ==> r == Success(ConstantTerm(cs)))
    && (k <= 0 ==> r == Success(0))
    && (k == 1 ==> r == Success(sel[0].y))
  }

  /** `computeConstantTerm` on shares already read from the input object. */
  method ComputeConstantTerm(shares: seq<Share>, k: int) returns (r: Result<int>)
    requires k <= |shares|
    ensures r == Failure(InvalidDigit) <==> !AllSharesValid(shares)
    ensures AllSharesValid(shares) ==> Reconstructs(DecodedPoints(shares), k, r)
  {
    var decoded := DecodeShares(shares);
    if decoded.Failure? {
      return Failure(InvalidDigit);
    }
    var pts := decoded.value;
    DecodedPointsOf(shares, pts);
    var sel := Selected(pts, PointsUsed(k));
    var sum := LagrangeSum(sel, EvaluationPoint);
    if sum.Failure? {
      return Failure(DivisionByZero);
    }
    r := FinalReduce(sum.value);
    forall n: int
      ensures Interpolant(sel, EvaluationPoint) == n as real <==> r == Success(n)
    {
      FinalReduceInteger(sum.value, n);
    }
    forall cs | |cs| <= k && OnPolynomial(sel, cs) && DistinctX(sel)
      ensures r == Success(ConstantTerm(cs))
    {
      ExactSecret(sum.value, sel, cs);
    }
    if k <= 0 {
      ExactSecret(sum.value, sel, []);
    }
    if k == 1 {
      SingleShare(sum.value, sel);
    }
  }

  /** A share whose value is spelled only in the first `base` symbols of
      0-9a-z, in either case. */
  predicate StrictShare(s: Share)
  {
    DecodeStrict(s.value, s.base).Success?
  }

  predicate AllSharesStrict(shares: seq<Share>)
  {
    forall i | 0 <= i < |shares| :: StrictShare(shares[i])
  }

  /** `computeConstantTerm` with the alphabet check its decoder evidently
      intends: a share spelled outside 0-9a-z is an invalid digit, and on
      every other input the result is the source's. */
  method ComputeConstantTermStrict(shares: seq<Share>, k: int) returns (r: Result<int>)
    requires k <= |shares|
    ensures r == Failure(InvalidDigit) <==> !AllSharesStrict(shares)
    ensures AllSharesStrict(shares) ==> AllSharesValid(shares) && Reconstructs(DecodedPoints(shares), k, r)
  {
    if !AllSharesStrict(shares) {
      return Failure(InvalidDigit);
    }
    StrictSharesValid(shares);
    r := ComputeConstantTerm(shares, k);
  }

  /** A strictly spelled share is one the source accepts, and it decodes to
      the same value; a share over 0-9a-z is strict exactly when the source
      accepts it. */
  lemma StrictShareValid(s: Share)
    ensures StrictShare(s) ==> ValidShare(s) && DecodeStrict(s.value, s.base) == Decode(s.value, s.base)
    ensures (forall i | 0 <= i < |s.value| :: IsAlphanumeric(s.value[i])) ==> (StrictShare(s) <==> ValidShare(s))
  {
  }

  lemma StrictSharesValid(shares: seq<Share>)
    requires AllSharesStrict(shares)
    ensures AllSharesValid(shares)
  {
    forall i | 0 <= i < |shares|
      ensures ValidShare(shares[i])
    {
      StrictShareValid(shares[i]);
    }
  }

  /** The shares [(5, "_" in base 10)] with threshold 1: the source's decoder
      reads "_" as the digit 8 and the computation returns 8, where the
      strict computation reports an invalid digit. */
  method UnderscoreSecret() returns (r: Result<int>, strict: Result<int>)
    ensures r == Success(8)
    ensures strict == Failure(InvalidDigit)
  {
    var shares := [Share(5, 10, "_")];
    UnderscoreAccepted();
    assert DecodedPoints(shares) == [Point(5, 8)];
    r := ComputeConstantTerm(shares, 1);
    strict := ComputeConstantTermStrict(shares, 1);
    assert !StrictShare(shares[0]);
  }

  /** The decoding loop's output is the list of points of the shares. */
  lemma DecodedPointsOf(shares: seq<Share>, pts: seq<Point>)
    requires |pts| == |shares|
    requires forall i | 0 <= i < |shares| ::
               pts[i].x == shares[i].x && Decode(shares[i].value, shares[i].base) == Success(pts[i].y)
    ensures AllSharesValid(shares) && pts == DecodedPoints(shares)
  {
    forall i | 0 <= i < |shares|
      ensures ValidShare(shares[i]) && pts[i] == SharePoint(shares[i])
    {
      DecodeUnique(shares[i], pts[i]);
    }
  }

  /** A sum equal to the interpolant through points on `cs` reduces to the
      constant term of `cs`. */
  lemma {:induction false} ExactSecret(q: Rational, sel: seq<Point>, cs: seq<int>)
    requires q.den > 0 && Value(q) == Interpolant(sel, EvaluationPoint)
    requires DistinctX(sel) && |cs| <= |sel| && OnPolynomial(sel, cs)
    ensures FinalReduce(q) == Success(ConstantTerm(cs))
  {
    SecretRecovered(sel, cs);
    FinalReduceInteger(q, ConstantTerm(cs));
  }

  /** With one point the sum reduces to that point's y. */
  lemma {:induction false} SingleShare(q: Rational, sel: seq<Point>)
    requires |sel| == 1 && q.den > 0 && Value(q) == Interpolant(sel, EvaluationPoint)
    ensures FinalReduce(q) == Success(sel[0].y)
  {
    SinglePoint(sel[0], EvaluationPoint);
    assert sel == [sel[0]];
    FinalReduceInteger(q, sel[0].y);
  }

  lemma DecodeUnique(s: Share, p: Point)
    requires p.x == s.x && Decode(s.value, s.base) == Success(p.y)
    ensures ValidShare(s) && p == SharePoint(s)
  {
  }

  // ---------------------------------------------------------------------
  // The first sample input of the source.

  /** Shares (1, "4" in base 10), (2, "111" in base 2), (3, "12" in base 10)
      and (6, "213" in base 4). */
  function SampleShares(): seq<Share>
  {
    [Share(1, 10, "4"), Share(2, 2, "111"), Share(3, 10, "12"), Share(6, 4, "213")]
  }

  lemma SampleBinary()
    ensures Decode("111", 2) == Success(7)
  {
    DecodeSingle('1', 2);
    DecodeSnoc("1", '1', 2, 1);
    assert "1" + ['1'] == "11";
    DecodeSnoc("11", '1', 2, 3);
    assert "11" + ['1'] == "111";
  }

  lemma SampleDecimal()
    ensures Decode("4", 10) == Success(4)
    ensures Decode("12", 10) == Success(12)
  {
    DecodeSingle('4', 10);
    DecodeSingle('1', 10);
    DecodeSnoc("1", '2', 10, 1);
    assert "1" + ['2'] == "12";
  }

  lemma SampleQuaternary()
    ensures Decode("213", 4) == Success(39)
  {
    DecodeSingle('2', 4);
    DecodeSnoc("2", '1', 4, 2);
    assert "2" + ['1'] == "21";
    DecodeSnoc("21", '3', 4, 9);
    assert "21" + ['3'] == "213";
  }

  /** Every sample share is a valid digit string of its base. */
  lemma SampleValid()
    ensures AllSharesValid(SampleShares())
    ensures Decode("4", 10) == Success(4) && Decode("111", 2) == Success(7)
    ensures Decode("12", 10) == Success(12) && Decode("213", 4) == Success(39)
  {
    SampleBinary();
    SampleDecimal();
    SampleQuaternary();
  }

  /** The sample's points (1, 4), (2, 7), (3, 12), (6, 39) have distinct x
      and all lie on 3 + 0x + 1x^2. */
  lemma SampleOnCurve(pts: seq<Point>)
    requires |pts| == 4
    requires pts[0] == Point(1, 4) && pts[1] == Point(2, 7) && pts[2] == Point(3, 12) && pts[3] == Point(6, 39)
    ensures DistinctX(pts)
    ensures OnPolynomial(pts, [3, 0, 1])
  {
    SquarePlusThree();
  }

  lemma SamplePoints(pts: seq<Point>)
    requires AllSharesValid(SampleShares()) && pts == DecodedPoints(SampleShares())
    ensures |pts| == 4
    ensures pts[0] == Point(1, 4) && pts[1] == Point(2, 7) && pts[2] == Point(3, 12) && pts[3] == Point(6, 39)
  {
    SampleValid();
    var shares := SampleShares();
    assert Decode(shares[0].value, shares[0].base) == Success(pts[0].y);
    assert Decode(shares[1].value, shares[1].base) == Success(pts[1].y);
    assert Decode(shares[2].value, shares[2].base) == Success(pts[2].y);
    assert Decode(shares[3].value, shares[3].base) == Success(pts[3].y);
  }

  lemma SquarePlusThree()
    ensures forall x: int :: IntEval([3, 0, 1], x) == 3 + x * x
  {
    forall x: int
      ensures IntEval([3, 0, 1], x) == 3 + x * x
    {
      var cs := [3, 0, 1];
      assert cs[1..] == [0, 1] && cs[1..][1..] == [1] && [1][1..] == [];
      assert IntEval([1], x) == 1;
      assert IntEval([0, 1], x) == x;
    }
  }

  /** The three points the sample selects have distinct x and lie on 3 + x^2. */
  lemma SampleSelection()
    ensures AllSharesValid(SampleShares())
    ensures DistinctX(Selected(DecodedPoints(SampleShares()), 3))
    ensures OnPolynomial(Selected(DecodedPoints(SampleShares()), 3), [3, 0, 1])
  {
    SampleValid();
    var pts := DecodedPoints(SampleShares());
    SamplePoints(pts);
    SampleOnCurve(pts);
    SelectionKeepsCurve(pts, [3, 0, 1], 3);
  }

  /** With threshold 3 the sample reconstructs the secret 3. */
  method SampleSecret() returns (r: Result<int>)
    ensures r == Success(3)
  {
    SampleValid();
    r := ComputeConstantTerm(SampleShares(), 3);
    SampleOutcome(r);
  }

  /** Any outcome the computation promises for the sample at threshold 3 is 3. */
  lemma SampleOutcome(r: Result<int>)
    requires AllSharesValid(SampleShares()) && Reconstructs(DecodedPoints(SampleShares()), 3, r)
    ensures r == Success(3)
  {
    SampleSelection();
    var sel := Selected(DecodedPoints(SampleShares()), PointsUsed(3));
    assert forall cs | |cs| <= 3 && OnPolynomial(sel, cs) :: DistinctX(sel) ==> r == Success(ConstantTerm(cs));
    assert OnPolynomial(sel, [3, 0, 1]);
    assert |[3, 0, 1]| <= 3;
  }
}
