/**
 * Floating-point numerics the library calls but that are not part of this model:
 * Gauss-Legendre tables, exp/log/sqrt, the phase-volume map of a potential and
 * interpolating splines. Each appears as a value of function type, constrained only
 * by the sign facts the bookkeeping relies on.
 */
module Numerics {

  /** Fixed Gauss-Legendre orders used by the spherical model. */
  const GLORDER: nat := 8
  const GLORDER1: nat := 6
  const GLORDER2: nat := 10
  /** Segments shorter than this in log(h) use the lower order. */
  const GLDELTA: real := 0.7
  /** Values of f at or below this threshold count as zero. */
  const MIN_VALUE_ROUNDOFF: real := 0.9999999999999e-100
  /** The C library constants M_PI and M_SQRT2. */
  const PI: real := 3.14159265358979323846
  const SQRT2: real := 1.41421356237309504880

  /** A real number or one of the two infinities of IEEE arithmetic. */
  datatype ExtReal = Finite(v: real) | MinusInfinity | PlusInfinity

  /** a < b for extended reals. */
  predicate ExtLess(a: ExtReal, b: ExtReal)
  {
    match (a, b)
    case (MinusInfinity, MinusInfinity) => false
    case (MinusInfinity, _) => true
    case (_, PlusInfinity) => !a.PlusInfinity?
    case (Finite(x), Finite(y)) => x < y
    case _ => false
  }

  /** Nodes and weights of a quadrature rule on the unit interval. */
  datatype QuadRule = QuadRule(nodes: seq<real>, weights: seq<real>)

  /** An order-n rule with nodes strictly inside (0,1) and positive weights. */
  ghost predicate ValidRule(q: QuadRule, n: nat)
  {
    |q.nodes| == n && |q.weights| == n &&
    (forall k :: 0 <= k < n ==> 0.0 < q.nodes[k] < 1.0) &&
    (forall k :: 0 <= k < n ==> q.weights[k] > 0.0)
  }

  /** The Gauss-Legendre tables indexed by order, as the library's GLPOINTS/GLWEIGHTS. */
  ghost predicate ValidTables(gl: nat -> QuadRule)
  {
    ValidRule(gl(GLORDER), GLORDER) && ValidRule(gl(GLORDER1), GLORDER1) && ValidRule(gl(GLORDER2), GLORDER2)
  }

  ghost predicate PositiveFunction(f: real -> real)
  {
    forall x :: f(x) > 0.0
  }

  /** sqrt: non-negative on non-negative arguments and positive on positive ones. */
  ghost predicate SqrtLike(sqrt: real -> real)
  {
    forall x :: x >= 0.0 ==> sqrt(x) >= 0.0 && (x > 0.0 ==> sqrt(x) > 0.0)
  }

  /**
   * The phase volume h(E) of a spherical potential and its inverse: E(h) with g(h) = dh/dE
   * and dg/dh, the central potential Phi(0) (possibly minus infinity) and the forward map h(E).
   */
  datatype PhaseVolume = PhaseVolume(E: real -> real, G: real -> real, dG: real -> real, phi0: ExtReal,
                                     H: real -> real)

  /** Bound orbits: E(h) < 0 and g(h) > 0 for every h > 0. */
  ghost predicate ValidPhaseVolume(pv: PhaseVolume)
  {
    forall h :: h > 0.0 ==> pv.E(h) < 0.0 && pv.G(h) > 0.0
  }

  /** An interpolating spline through the nodes (xs[i], ys[i]) with the derivatives ders[i] there. */
  datatype Spline = Spline(xs: seq<real>, ys: seq<real>, ders: seq<real>)

  /**
   * The evaluation of splines: value and first and second derivatives at a point.
   * The facts relied on are that the value and the derivative at a node are the ones the spline
   * was built with.
   */
  datatype SplineEval = SplineEval(value: (Spline, real) -> real, deriv: (Spline, real) -> real,
                                   deriv2: (Spline, real) -> real)

  ghost predicate Interpolates(ev: SplineEval)
  {
    forall s: Spline, i :: 0 <= i < |s.xs| && i < |s.ys| ==> ev.value(s, s.xs[i]) == s.ys[i]
  }

  ghost predicate MatchesDerivatives(ev: SplineEval)
  {
    forall s: Spline, i :: 0 <= i < |s.xs| && i < |s.ders| ==> ev.deriv(s, s.xs[i]) == s.ders[i]
  }

  /** The square x^2, the library's pow_2. */
  function Pow2(x: real): (r: real)
    ensures r >= 0.0
  {
    x * x
  }

  // ---- sign facts of products and quotients, stated once ----

  lemma MulNonNeg(a: real, b: real)
    requires a >= 0.0 && b >= 0.0
    ensures a * b >= 0.0
  {
  }

  lemma MulPos(a: real, b: real)
    requires a > 0.0 && b > 0.0
    ensures a * b > 0.0
  {
  }

  lemma DivPos(a: real, b: real)
    requires a > 0.0 && b > 0.0
    ensures a / b > 0.0
  {
  }

  lemma DivNonNeg(a: real, b: real)
    requires a >= 0.0 && b > 0.0
    ensures a / b >= 0.0
  {
  }
}
