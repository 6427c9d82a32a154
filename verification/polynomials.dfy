/** Polynomials as coefficient lists (constant term first), evaluated by
    Horner's rule. They serve as the independent account against which the
    Lagrange sum is proved exact: a polynomial with fewer coefficients than
    it has distinct roots is zero everywhere. */
module Polynomials {

  /** Value of the real-coefficient polynomial `p` at `t`. */
  function Eval(p: seq<real>, t: real): real
    decreases |p|
  {
    if |p| == 0 then 0.0 else p[0] + t * Eval(p[1..], t)
  }

  /** Value of the integer-coefficient polynomial `cs` at the integer `x`. */
  function IntEval(cs: seq<int>, x: int): int
    decreases |cs|
  {
    if |cs| == 0 then 0 else cs[0] + x * IntEval(cs[1..], x)
  }

  /** The constant term: the coefficient of x^0, zero for the empty polynomial. */
  function ConstantTerm(cs: seq<int>): int
  {
    if |cs| == 0 then 0 else cs[0]
  }

  /** The same polynomial with its coefficients read as reals. */
  function Embed(cs: seq<int>): (p: seq<real>)
    ensures |p| == |cs|
    decreases |cs|
  {
    if |cs| == 0 then [] else [cs[0] as real] + Embed(cs[1..])
  }

  function Max(a: nat, b: nat): nat
  {
    if a < b then b else a
  }

  /** Coefficient-wise sum. */
  function AddPoly(p: seq<real>, q: seq<real>): (r: seq<real>)
    ensures |r| == Max(|p|, |q|)
    decreases |p|
  {
    if |p| == 0 then q
    else if |q| == 0 then p
    else [p[0] + q[0]] + AddPoly(p[1..], q[1..])
  }

  /** Every coefficient multiplied by `c`. */
  function Scale(c: real, p: seq<real>): (r: seq<real>)
    ensures |r| == |p|
    decreases |p|
  {
    if |p| == 0 then [] else [c * p[0]] + Scale(c, p[1..])
  }

  /** The coefficients of (t - a) * p(t). */
  function MulLinear(p: seq<real>, a: real): (r: seq<real>)
    ensures |r| == if |p| == 0 then 0 else |p| + 1
    decreases |p|
  {
    if |p| == 0 then [] else [-a * p[0]] + AddPoly([p[0]], MulLinear(p[1..], a))
  }

  /** Synthetic division by (t - a): the quotient, one coefficient shorter. */
  function Quotient(p: seq<real>, a: real): (q: seq<real>)
    requires |p| >= 1
    ensures |q| == |p| - 1
    decreases |p|
  {
    if |p| == 1 then [] else [Eval(p[1..], a)] + Quotient(p[1..], a)
  }

  // ---------------------------------------------------------------------
  // Evaluation is a homomorphism.

  lemma {:induction false} EvalEmbed(cs: seq<int>, x: int)
    ensures Eval(Embed(cs), x as real) == IntEval(cs, x) as real
    decreases |cs|
  {
    if |cs| > 0 {
      EvalEmbed(cs[1..], x);
      assert Embed(cs)[1..] == Embed(cs[1..]);
    }
  }

  lemma {:induction false} EvalAdd(p: seq<real>, q: seq<real>, t: real)
    ensures Eval(AddPoly(p, q), t) == Eval(p, t) + Eval(q, t)
    decreases |p|
  {
    if |p| > 0 && |q| > 0 {
      EvalAdd(p[1..], q[1..], t);
      var r := AddPoly(p, q);
      assert r[1..] == AddPoly(p[1..], q[1..]);
    }
  }

  lemma {:induction false} EvalScale(c: real, p: seq<real>, t: real)
    ensures Eval(Scale(c, p), t) == c * Eval(p, t)
    decreases |p|
  {
    if |p| > 0 {
      EvalScale(c, p[1..], t);
      assert Scale(c, p)[1..] == Scale(c, p[1..]);
    }
  }

  lemma {:induction false} EvalMulLinear(p: seq<real>, a: real, t: real)
    ensures Eval(MulLinear(p, a), t) == (t - a) * Eval(p, t)
    decreases |p|
  {
    if |p| > 0 {
      var tail := MulLinear(p[1..], a);
      EvalMulLinear(p[1..], a, t);
      EvalAdd([p[0]], tail, t);
      assert Eval([p[0]], t) == p[0] by {
        assert [p[0]][1..] == [];
      }
      assert MulLinear(p, a)[1..] == AddPoly([p[0]], tail);
      MulLinearAlgebra(a, p[0], t, Eval(p[1..], t));
    }
  }

  /** p(t) = (t - a) * q(t) + p(a), with q the synthetic quotient. */
  lemma {:induction false} EvalQuotient(p: seq<real>, a: real, t: real)
    requires |p| >= 1
    ensures Eval(p, t) == (t - a) * Eval(Quotient(p, a), t) + Eval(p, a)
    decreases |p|
  {
    if |p| == 1 {
      assert p[1..] == [];
    } else {
      var tail := p[1..];
      var q' := Quotient(tail, a);
      var r' := Eval(tail, a);
      EvalQuotient(tail, a, t);
      assert Quotient(p, a)[1..] == q';
      assert Eval(p, a) == p[0] + a * r';
      QuotientAlgebra(p[0], a, t, Eval(q', t), r');
    }
  }

  lemma MulLinearAlgebra(a: real, c: real, t: real, e: real)
    ensures -a * c + t * (c + (t - a) * e) == (t - a) * (c + t * e)
  {
  }

  lemma QuotientAlgebra(c: real, a: real, t: real, q: real, r: real)
    ensures c + t * ((t - a) * q + r) == (t - a) * (r + t * q) + (c + a * r)
  {
  }

  // ---------------------------------------------------------------------
  // Root counting.

  predicate Distinct(rs: seq<real>)
  {
    forall i, j | 0 <= i < j < |rs| :: rs[i] != rs[j]
  }

  /** A polynomial with at most as many coefficients as it has distinct
      roots is identically zero. */
  lemma {:induction false} RootsForceZero(p: seq<real>, rs: seq<real>)
    requires |p| <= |rs|
    requires Distinct(rs)
    requires forall i | 0 <= i < |rs| :: Eval(p, rs[i]) == 0.0
    ensures forall t :: Eval(p, t) == 0.0
    decreases |rs|
  {
    if |p| > 0 {
      var a := rs[0];
      var q := Quotient(p, a);
      var rest := rs[1..];
      forall i | 0 <= i < |rest|
        ensures Eval(q, rest[i]) == 0.0
      {
        EvalQuotient(p, a, rest[i]);
        assert rest[i] == rs[i + 1];
        ProductZero(rest[i] - a, Eval(q, rest[i]));
      }
      RootsForceZero(q, rest);
      forall t
        ensures Eval(p, t) == 0.0
      {
        EvalQuotient(p, a, t);
      }
    }
  }

  lemma ProductZero(a: real, b: real)
    requires a != 0.0 && a * b == 0.0
    ensures b == 0.0
  {
  }
}
