/**
 * The construction of a spherical isotropic model from a distribution function f(h)
 * of phase volume h (src/galaxymodel_spherical.cpp, SphericalIsotropicModel constructor),
 * stated as pure functions of the input, stage by stage: values at grid nodes, asymptotic
 * slopes at both ends, energy checks, Gauss-Legendre integration over grid segments,
 * cumulative integrals with analytic tails, the choice of htransition and the
 * derivatives handed to the interpolating splines.
 */
module SphericalModel {
  import opened Wrappers
  import opened Numerics
  import opened CumulativeSums

  /** f(h) and, when the function provides one (numDerivs() >= 1), its derivative. */
  datatype DistributionFunction = DistributionFunction(f: real -> real, deriv: Option<real -> real>)

  /**
   * Everything the constructor reads: the phase volume of the potential, the distribution
   * function, exp/log, the Gauss-Legendre tables and the grid in log(h).
   */
  datatype ModelInput = ModelInput(pv: PhaseVolume, df: DistributionFunction, exp: real -> real,
                                   log: real -> real, gl: nat -> QuadRule, gridLogH: seq<real>)

  /** At least two nodes in strictly increasing order, and the numerics obey their sign facts. */
  ghost predicate ValidInput(inp: ModelInput)
  {
    ValidPhaseVolume(inp.pv) && PositiveFunction(inp.exp) && ValidTables(inp.gl) &&
    |inp.gridLogH| >= 2 && (forall i :: 0 < i < |inp.gridLogH| ==> inp.gridLogH[i - 1] < inp.gridLogH[i])
  }

  /** The exceptions the constructor throws. */
  datatype CtorError =
    | NegativeDF(h: real, f: real)   // f(h) is not >= 0 at a grid or quadrature node
    | RisesTooRapidly                // f ~ h^s with s <= -1 as h --> 0
    | FallsOffTooSlowly              // f ~ h^s with s >= -1 as h --> infinity
    | WeirdPotential                 // not Phi(0) < E(hmin) < E(hmax) < 0
    | WeirdEnergyAtInfinity          // outer slope of E(h) not negative
    | InfiniteTotalEnergy            // innerEslope + innerFslope <= -1
    | NowherePositive                // total mass not positive
    | InvalidInterpolators           // derivative signs or non-finite integrals

  /** The constructed model: total mass, htransition and the four log-log splines. */
  datatype IsotropicModel = IsotropicModel(phasevol: PhaseVolume, totalMass: real, htransition: real,
                                           intf: Spline, intfg: Spline, intfh: Spline, intfE: Spline)

  // ---- stage 1: values at grid nodes ----

  datatype Nodes = Nodes(H: seq<real>, F: seq<real>, G: seq<real>, E: seq<real>)

  /** exp is positive, and so at h = exp(x) the phase volume gives g(h) > 0 and E(h) < 0. */
  lemma NodeSigns(inp: ModelInput, x: real)
    requires ValidInput(inp)
    ensures inp.exp(x) > 0.0 && inp.pv.G(inp.exp(x)) > 0.0 && inp.pv.E(inp.exp(x)) < 0.0
  {
    assert inp.exp(x) > 0.0;
  }

  /** h = exp(log h), f(h), g(h) and E(h) at every grid node. */
  function NodesOf(inp: ModelInput): (r: Nodes)
    requires ValidInput(inp)
    ensures |r.H| == |r.F| == |r.G| == |r.E| == |inp.gridLogH|
    ensures forall i :: 0 <= i < |r.H| ==> r.H[i] > 0.0 && r.G[i] > 0.0 && r.E[i] < 0.0
    ensures forall i :: 0 <= i < |r.H| ==> r.H[i] == inp.exp(inp.gridLogH[i]) && r.F[i] == inp.df.f(r.H[i])
  {
    var L := inp.gridLogH;
    var H := seq(|L|, i requires 0 <= i < |L| => inp.exp(L[i]));
    var r := Nodes(H, seq(|L|, i requires 0 <= i < |L| => inp.df.f(H[i])),
                   seq(|L|, i requires 0 <= i < |L| => inp.pv.G(H[i])),
                   seq(|L|, i requires 0 <= i < |L| => inp.pv.E(H[i])));
    assert forall i :: 0 <= i < |L| ==> r.H[i] > 0.0 && r.G[i] > 0.0 && r.E[i] < 0.0 by {
      forall i | 0 <= i < |L|
        ensures r.H[i] > 0.0 && r.G[i] > 0.0 && r.E[i] < 0.0
      {
        NodeSigns(inp, L[i]);
      }
    }
    r
  }

  /** The first index at or after from where f is negative. */
  function FirstNegative(F: seq<real>, from: nat): (r: Option<nat>)
    decreases |F| - from
    ensures r.Some? ==> from <= r.value < |F| && F[r.value] < 0.0 &&
                        forall j :: from <= j < r.value ==> F[j] >= 0.0
    ensures r.None? <==> forall j :: from <= j < |F| ==> F[j] >= 0.0
  {
    if from >= |F| then None
    else if !(F[from] >= 0.0) then Some(from)
    else FirstNegative(F, from + 1)
  }

  // ---- stage 2: asymptotic slopes of f(h) ----

  /** Snapped end values of f and the slopes d log f / d log h at both ends. */
  datatype Slopes = Slopes(F0: real, Fn: real, innerFslope: real, outerFslope: real)

  /**
   * The inner slope before snapping, only needed when f(hmin) is above the threshold:
   * from the derivative if available, else by finite difference (log of a zero ratio is -infinity).
   */
  function RawInnerSlope(inp: ModelInput, nd: Nodes): ExtReal
    requires ValidInput(inp) && nd == NodesOf(inp) && nd.F[0] > MIN_VALUE_ROUNDOFF
  {
    var L := inp.gridLogH;
    match inp.df.deriv
    case Some(d) => Finite(d(nd.H[0]) / nd.F[0] * nd.H[0])
    case None =>
      if nd.F[1] > 0.0 then Finite(inp.log(nd.F[1] / nd.F[0]) / (L[1] - L[0])) else MinusInfinity
  }

  /** The outer slope before snapping; a zero value at the last-but-one node makes it +infinity. */
  function RawOuterSlope(inp: ModelInput, nd: Nodes): ExtReal
    requires ValidInput(inp) && nd == NodesOf(inp) && nd.F[|nd.F| - 1] > MIN_VALUE_ROUNDOFF
  {
    var L := inp.gridLogH;
    var n := |L|;
    match inp.df.deriv
    case Some(d) => Finite(d(nd.H[n - 1]) / nd.F[n - 1] * nd.H[n - 1])
    case None =>
      if nd.F[n - 2] > 0.0 then Finite(inp.log(nd.F[n - 1] / nd.F[n - 2]) / (L[n - 1] - L[n - 2]))
      else PlusInfinity
  }

  predicate InnerSlopeOk(s: ExtReal)
  {
    s.Finite? && s.v > -1.0
  }

  predicate OuterSlopeOk(s: ExtReal)
  {
    s.Finite? && s.v < -1.0
  }

  /**
   * An end where f is at or below MIN_VALUE_ROUNDOFF gets f = 0 and slope 0; otherwise the
   * inner slope must exceed -1 and the outer slope must be below -1.
   */
  function BoundarySlopes(inp: ModelInput, nd: Nodes): (r: Result<Slopes, CtorError>)
    requires ValidInput(inp) && nd == NodesOf(inp)
    ensures var n := |nd.F|;
      r.Success? <==> (nd.F[0] > MIN_VALUE_ROUNDOFF ==> InnerSlopeOk(RawInnerSlope(inp, nd))) &&
                      (nd.F[n - 1] > MIN_VALUE_ROUNDOFF ==> OuterSlopeOk(RawOuterSlope(inp, nd)))
    ensures r.Failure? ==> r.error == RisesTooRapidly || r.error == FallsOffTooSlowly
    ensures r.Success? ==> var s := r.value; var n := |nd.F|;
      (nd.F[0] <= MIN_VALUE_ROUNDOFF ==> s.F0 == 0.0 && s.innerFslope == 0.0) &&
      (nd.F[0] > MIN_VALUE_ROUNDOFF ==> s.F0 == nd.F[0] && s.innerFslope > -1.0) &&
      (nd.F[n - 1] <= MIN_VALUE_ROUNDOFF ==> s.Fn == 0.0 && s.outerFslope == 0.0) &&
      (nd.F[n - 1] > MIN_VALUE_ROUNDOFF ==> s.Fn == nd.F[n - 1] && s.outerFslope < -1.0)
  {
    var n := |nd.F|;
    if nd.F[0] > MIN_VALUE_ROUNDOFF && !InnerSlopeOk(RawInnerSlope(inp, nd)) then Failure(RisesTooRapidly)
    else if nd.F[n - 1] > MIN_VALUE_ROUNDOFF && !OuterSlopeOk(RawOuterSlope(inp, nd)) then Failure(FallsOffTooSlowly)
    else
      var F0, inner := if nd.F[0] <= MIN_VALUE_ROUNDOFF then 0.0 else nd.F[0],
                       if nd.F[0] <= MIN_VALUE_ROUNDOFF then 0.0 else RawInnerSlope(inp, nd).v;
      var Fn, outer := if nd.F[n - 1] <= MIN_VALUE_ROUNDOFF then 0.0 else nd.F[n - 1],
                       if nd.F[n - 1] <= MIN_VALUE_ROUNDOFF then 0.0 else RawOuterSlope(inp, nd).v;
      Success(Slopes(F0, Fn, inner, outer))
  }

  // ---- stage 3: energy range and slopes of E(h) ----

  datatype Energy = Energy(innerE: real, outerE: real, innerEslope: real, outerEslope: real, outerRatio: real)

  /** Sign facts for the slope h/g/E of the energy at a node. */
  lemma EnergySlopeSign(h: real, g: real, e: real)
    requires h > 0.0 && g > 0.0 && e != 0.0
    ensures h / g / e != 0.0
    ensures e < 0.0 ==> h / g / e < 0.0
    ensures e > 0.0 ==> h / g / e > 0.0
  {
    assert h / g > 0.0;
  }

  /**
   * Phi(0) < E(hmin) < E(hmax) < 0 must hold. innerE is measured from Phi(0) when that is finite,
   * and the slopes are h/g/E at both ends; the outer one must be negative and the inner
   * one together with the inner slope of f must exceed -1.
   */
  function EnergySlopes(inp: ModelInput, nd: Nodes, sl: Slopes): (r: Result<Energy, CtorError>)
    requires ValidInput(inp) && nd == NodesOf(inp)
    ensures var n := |nd.E|;
      r == Failure(WeirdPotential) <==>
        !(ExtLess(inp.pv.phi0, Finite(nd.E[0])) && nd.E[0] < nd.E[n - 1] && nd.E[n - 1] < 0.0)
    ensures r.Failure? ==> r.error in {WeirdPotential, WeirdEnergyAtInfinity, InfiniteTotalEnergy}
    // with E(hmax) < 0 the outer slope h/g/E is negative, so that check never fires
    ensures r != Failure(WeirdEnergyAtInfinity)
    ensures r != Failure(WeirdPotential) ==>
      var e0 := if inp.pv.phi0.Finite? then nd.E[0] - inp.pv.phi0.v else nd.E[0];
      (r == Failure(InfiniteTotalEnergy) <==> nd.H[0] / nd.G[0] / e0 + sl.innerFslope <= -1.0) &&
      (r.Success? <==> nd.H[0] / nd.G[0] / e0 + sl.innerFslope > -1.0)
    ensures r.Success? ==> var en := r.value; var n := |nd.E|;
      en.outerE == nd.E[n - 1] && en.outerEslope < 0.0 && en.innerEslope + sl.innerFslope > -1.0 &&
      en.outerRatio == sl.outerFslope / en.outerEslope &&
      (inp.pv.phi0.Finite? <==> en.innerEslope > 0.0) &&
      (inp.pv.phi0.Finite? ==> en.innerE == nd.E[0] - inp.pv.phi0.v && en.innerE > 0.0) &&
      (inp.pv.phi0.MinusInfinity? ==> en.innerE == nd.E[0] && en.innerE < 0.0)
  {
    var n := |nd.E|;
    var innerE, outerE := nd.E[0], nd.E[n - 1];
    if !(ExtLess(inp.pv.phi0, Finite(innerE)) && innerE < outerE && outerE < 0.0) then Failure(WeirdPotential)
    else
      var innerE' := if inp.pv.phi0.Finite? then innerE - inp.pv.phi0.v else innerE;
      EnergySlopeSign(nd.H[0], nd.G[0], innerE');
      EnergySlopeSign(nd.H[n - 1], nd.G[n - 1], outerE);
      var innerEslope := nd.H[0] / nd.G[0] / innerE';
      var outerEslope := nd.H[n - 1] / nd.G[n - 1] / outerE;
      var outerRatio := sl.outerFslope / outerEslope;
      if !(outerEslope < 0.0) then Failure(WeirdEnergyAtInfinity)
      else if !(innerEslope + sl.innerFslope > -1.0) then Failure(InfiniteTotalEnergy)
      else Success(Energy(innerE', outerE, innerEslope, outerEslope, outerRatio))
  }

  // ---- stage 4: Gauss-Legendre integration over the grid segments ----

  /** Segments shorter than GLDELTA in log(h) use order 6, longer ones order 10. */
  function SegmentOrder(dlogh: real): nat
  {
    if dlogh < GLDELTA then GLORDER1 else GLORDER2
  }

  /** The order used on segment i, between nodes i-1 and i. */
  function OrderOf(inp: ModelInput, i: nat): nat
    requires 1 <= i < |inp.gridLogH|
  {
    SegmentOrder(inp.gridLogH[i] - inp.gridLogH[i - 1])
  }

  /** The Gauss-Legendre rule of segment i. */
  function RuleOf(inp: ModelInput, i: nat): (q: QuadRule)
    requires ValidInput(inp) && 1 <= i < |inp.gridLogH|
    ensures ValidRule(q, OrderOf(inp, i))
  {
    if inp.gridLogH[i] - inp.gridLogH[i - 1] < GLDELTA then inp.gl(GLORDER1) else inp.gl(GLORDER2)
  }

  datatype QuadPoint = QuadPoint(h: real, f: real, g: real, E: real, weight: real)

  /** Node k of segment i: h, f(h), g(h), E(h) and the quadrature weight in log(h). */
  function Point(inp: ModelInput, i: nat, k: nat): (p: QuadPoint)
    requires ValidInput(inp) && 1 <= i < |inp.gridLogH| && k < OrderOf(inp, i)
    ensures p.h > 0.0 && p.g > 0.0 && p.E < 0.0 && p.weight > 0.0
  {
    var L := inp.gridLogH;
    var dlogh := L[i] - L[i - 1];
    var rule := RuleOf(inp, i);
    var logh := L[i - 1] + dlogh * rule.nodes[k];
    var h := inp.exp(logh);
    assert rule.weights[k] > 0.0;
    MulPos(rule.weights[k], dlogh);
    QuadPoint(h, inp.df.f(h), inp.pv.G(h), inp.pv.E(h), rule.weights[k] * dlogh)
  }

  /** Contributions to the integrals of f/g, f, f h/g and f E, in d(log h) with the factor h. */
  datatype Quad4 = Quad4(f: real, fg: real, fh: real, fe: real)

  /** Adds one quadrature point: f/g h w, f h w, f h^2/g w, and subtracts f h w E. */
  function Accumulate(acc: Quad4, p: QuadPoint): Quad4
    requires p.g > 0.0
  {
    var integrand := p.f * p.h * p.weight;
    Quad4(acc.f + integrand / p.g, acc.fg + integrand, acc.fh + integrand / p.g * p.h, acc.fe - integrand * p.E)
  }

  /** The contributions of the first k nodes of segment i. */
  function SegmentPartial(inp: ModelInput, i: nat, k: nat): Quad4
    requires ValidInput(inp) && 1 <= i < |inp.gridLogH| && k <= OrderOf(inp, i)
  {
    if k == 0 then Quad4(0.0, 0.0, 0.0, 0.0)
    else Accumulate(SegmentPartial(inp, i, k - 1), Point(inp, i, k - 1))
  }

  function SegmentTotal(inp: ModelInput, i: nat): Quad4
    requires ValidInput(inp) && 1 <= i < |inp.gridLogH|
  {
    SegmentPartial(inp, i, OrderOf(inp, i))
  }

  /** The first node at or after k of segment i where f is negative. */
  function FirstBadInSegment(inp: ModelInput, i: nat, k: nat): (r: Option<QuadPoint>)
    requires ValidInput(inp) && 1 <= i < |inp.gridLogH| && k <= OrderOf(inp, i)
    decreases OrderOf(inp, i) - k
    ensures r.None? <==> forall m :: k <= m < OrderOf(inp, i) ==> Point(inp, i, m).f >= 0.0
    ensures r.Some? ==> exists m :: k <= m < OrderOf(inp, i) && r.value == Point(inp, i, m) && r.value.f < 0.0
  {
    if k == OrderOf(inp, i) then None
    else if !(Point(inp, i, k).f >= 0.0) then Some(Point(inp, i, k))
    else FirstBadInSegment(inp, i, k + 1)
  }

  /** The first quadrature node, in segment order, at or after segment i where f is negative. */
  function FirstBadFrom(inp: ModelInput, i: nat): (r: Option<QuadPoint>)
    requires ValidInput(inp) && 1 <= i <= |inp.gridLogH|
    decreases |inp.gridLogH| - i
    ensures r.None? <==> forall s, m :: i <= s < |inp.gridLogH| && 0 <= m < OrderOf(inp, s) ==> Point(inp, s, m).f >= 0.0
  {
    if i == |inp.gridLogH| then None
    else match FirstBadInSegment(inp, i, 0)
      case Some(p) => Some(p)
      case None => FirstBadFrom(inp, i + 1)
  }

  // ---- stage 5: cumulative integrals ----

  /** The four integrals at the grid nodes; finiteTail is false when the outer tail is 0/0. */
  datatype Integrals = Integrals(fint: seq<real>, fg: seq<real>, fh: seq<real>, fe: seq<real>, finiteTail: bool)

  /** Adds d to the last entry. */
  function AddToLast(a: seq<real>, d: real): (r: seq<real>)
    requires |a| > 0
    ensures |r| == |a| && r[..|a| - 1] == a[..|a| - 1] && r[|a| - 1] == a[|a| - 1] + d
  {
    a[|a| - 1 := a[|a| - 1] + d]
  }

  /** Adds the tail to the last entry when there is one (a zero denominator leaves none). */
  function AddTail(a: seq<real>, tail: Option<real>): (r: seq<real>)
    requires |a| > 0
    ensures |r| == |a| && r[..|a| - 1] == a[..|a| - 1]
    ensures r[|a| - 1] == if tail.Some? then a[|a| - 1] + tail.value else a[|a| - 1]
  {
    if tail.Some? then AddToLast(a, tail.value) else a
  }

  /** Denominator of the outer tails of the integrals of f h and f g E. */
  function OuterTailDenominator(sl: Slopes, en: Energy): real
  {
    1.0 + en.outerEslope + sl.outerFslope
  }

  /** Integral of f/g dh from the last node to infinity, for f ~ h^outerFslope. */
  function FintTail(Fn: real, outerE: real, outerRatio: real): (r: real)
    requires outerRatio >= 0.0
    ensures Fn >= 0.0 && outerE < 0.0 ==> r >= 0.0
  {
    var q := Fn * outerE;
    assert Fn >= 0.0 && outerE < 0.0 ==> q <= 0.0 by {
      if Fn >= 0.0 && outerE < 0.0 { MulNonNeg(Fn, -outerE); }
    }
    -q / (1.0 + outerRatio)
  }

  /** The analytic integrals of f, f h/g and -f E below the first node. */
  datatype InnerTerms = InnerTerms(fg0: real, fh0: real, fe0: real)

  function InnerTermsOf(F0: real, H0: real, G0: real, innerFslope: real, innerEslope: real,
                        innerE: real, phi0: ExtReal): (r: InnerTerms)
    requires G0 > 0.0 && 1.0 + innerFslope > 0.0 && 1.0 + innerEslope + innerFslope > 0.0
    requires innerEslope >= 0.0 ==> phi0.Finite?
  {
    var fg0 := F0 * H0 / (1.0 + innerFslope);
    var fh0 := F0 * (H0 * H0) / G0 / (1.0 + innerEslope + innerFslope);
    var fe0 := F0 * H0 *
      (if innerEslope >= 0.0 then -phi0.v / (1.0 + innerFslope)
       else -innerE / (1.0 + innerFslope + innerEslope));
    InnerTerms(fg0, fh0, fe0)
  }

  /** Minus the integral of f dh from the last node to infinity, for f ~ h^outerFslope. */
  function FGTail(Fn: real, Hn: real, outerFslope: real): (r: real)
    requires outerFslope == 0.0 || outerFslope < -1.0
  {
    -(Fn * Hn / (1.0 + outerFslope))
  }

  /** The tails of the integrals of f h/g and -f E beyond the last node. */
  function FHTail(Fn: real, Hn: real, Gn: real, den: real): real
    requires Gn > 0.0 && den != 0.0
  {
    -(Fn * (Hn * Hn) / Gn / den)
  }

  function FETail(Fn: real, Hn: real, outerE: real, den: real): real
    requires den != 0.0
  {
    Fn * Hn * outerE / den
  }

  /** The per-segment totals, entry s for segment s+1. */
  function Segments(inp: ModelInput): (r: seq<Quad4>)
    requires ValidInput(inp)
    ensures |r| == |inp.gridLogH| - 1
    ensures forall s :: 0 <= s < |r| ==> r[s] == SegmentTotal(inp, s + 1)
  {
    seq(|inp.gridLogH| - 1, s requires 0 <= s < |inp.gridLogH| - 1 => SegmentTotal(inp, s + 1))
  }

  /** The terms summed into the integral of f/g before the suffix pass. */
  function FintTerms(segs: seq<Quad4>, tail: real): (r: seq<real>)
    ensures |r| == |segs| + 1 && r[|segs|] == tail
    ensures forall j :: 0 <= j < |segs| ==> r[j] == segs[j].f
  {
    seq(|segs| + 1, j requires 0 <= j <= |segs| => if j < |segs| then segs[j].f else tail)
  }

  /** The terms summed into the other three integrals before the prefix pass. */
  function FGTerms(segs: seq<Quad4>, first: real): (r: seq<real>)
    ensures |r| == |segs| + 1 && r[0] == first
    ensures forall j :: 1 <= j <= |segs| ==> r[j] == segs[j - 1].fg
  {
    [first] + seq(|segs|, s requires 0 <= s < |segs| => segs[s].fg)
  }

  function FHTerms(segs: seq<Quad4>, first: real): (r: seq<real>)
    ensures |r| == |segs| + 1 && r[0] == first
    ensures forall j :: 1 <= j <= |segs| ==> r[j] == segs[j - 1].fh
  {
    [first] + seq(|segs|, s requires 0 <= s < |segs| => segs[s].fh)
  }

  function FETerms(segs: seq<Quad4>, first: real): (r: seq<real>)
    ensures |r| == |segs| + 1 && r[0] == first
    ensures forall j :: 1 <= j <= |segs| ==> r[j] == segs[j - 1].fe
  {
    [first] + seq(|segs|, s requires 0 <= s < |segs| => segs[s].fe)
  }

  /** Both slopes at the outer end are negative unless f was snapped to zero there. */
  lemma OuterRatioNonNegative(inp: ModelInput, nd: Nodes, sl: Slopes, en: Energy)
    requires ValidInput(inp) && nd == NodesOf(inp)
    requires BoundarySlopes(inp, nd) == Success(sl) && EnergySlopes(inp, nd, sl) == Success(en)
    ensures en.outerRatio >= 0.0
  {
    if sl.outerFslope != 0.0 {
      assert sl.outerFslope < 0.0 && en.outerEslope < 0.0;
    }
  }

  /**
   * Integral of f/g from each node to infinity: per-segment sums added from outside in,
   * plus the analytic tail beyond the last node.
   */
  function FintOf(inp: ModelInput, nd: Nodes, sl: Slopes, en: Energy): (r: seq<real>)
    requires ValidInput(inp) && nd == NodesOf(inp)
    requires BoundarySlopes(inp, nd) == Success(sl) && EnergySlopes(inp, nd, sl) == Success(en)
    ensures |r| == |inp.gridLogH|
  {
    OuterRatioNonNegative(inp, nd, sl, en);
    SuffixSums(FintTerms(Segments(inp), FintTail(sl.Fn, en.outerE, en.outerRatio)))
  }

  /** The denominators of the inner parts are positive, and a non-negative inner slope of E means Phi(0) is finite. */
  lemma InnerTermsDefined(inp: ModelInput, nd: Nodes, sl: Slopes, en: Energy)
    requires ValidInput(inp) && nd == NodesOf(inp)
    requires BoundarySlopes(inp, nd) == Success(sl) && EnergySlopes(inp, nd, sl) == Success(en)
    ensures nd.G[0] > 0.0 && 1.0 + sl.innerFslope > 0.0 && 1.0 + en.innerEslope + sl.innerFslope > 0.0
    ensures en.innerEslope >= 0.0 ==> inp.pv.phi0.Finite?
  {
    if en.innerEslope >= 0.0 && !inp.pv.phi0.Finite? {
      assert inp.pv.phi0.MinusInfinity? && en.innerE < 0.0 && en.innerEslope == 0.0;
      EnergySlopeSign(nd.H[0], nd.G[0], en.innerE);
      assert false;
    }
  }

  /** The analytic parts below the first node. */
  function InnerOf(inp: ModelInput, nd: Nodes, sl: Slopes, en: Energy): InnerTerms
    requires ValidInput(inp) && nd == NodesOf(inp)
    requires BoundarySlopes(inp, nd) == Success(sl) && EnergySlopes(inp, nd, sl) == Success(en)
  {
    InnerTermsDefined(inp, nd, sl, en);
    InnerTermsOf(sl.F0, nd.H[0], nd.G[0], sl.innerFslope, en.innerEslope, en.innerE, inp.pv.phi0)
  }

  /**
   * Integral of f from 0 to each node (the analytic part below the first node, per-segment
   * sums added from inside out), with the analytic tail beyond the last node added to the last entry.
   */
  function FGOf(inp: ModelInput, nd: Nodes, sl: Slopes, en: Energy): (r: seq<real>)
    requires ValidInput(inp) && nd == NodesOf(inp)
    requires BoundarySlopes(inp, nd) == Success(sl) && EnergySlopes(inp, nd, sl) == Success(en)
    ensures |r| == |inp.gridLogH|
  {
    var n := |inp.gridLogH|;
    AddToLast(PrefixSums(FGTerms(Segments(inp), InnerOf(inp, nd, sl, en).fg0)), FGTail(sl.Fn, nd.H[n - 1], sl.outerFslope))
  }

  /** The tails of the integrals of f h/g and -f E, absent when their denominator is 0. */
  function FHTailOf(nd: Nodes, sl: Slopes, en: Energy): Option<real>
    requires |nd.H| == |nd.G| > 0 && nd.G[|nd.G| - 1] > 0.0
  {
    var n := |nd.H|;
    var den := OuterTailDenominator(sl, en);
    if den == 0.0 then None else Some(FHTail(sl.Fn, nd.H[n - 1], nd.G[n - 1], den))
  }

  function FETailOf(nd: Nodes, sl: Slopes, en: Energy): Option<real>
    requires |nd.H| > 0
  {
    var n := |nd.H|;
    var den := OuterTailDenominator(sl, en);
    if den == 0.0 then None else Some(FETail(sl.Fn, nd.H[n - 1], en.outerE, den))
  }

  /** Integral of f h/g from 0 to each node, built like FGOf; no tail when its denominator is 0. */
  function FHOf(inp: ModelInput, nd: Nodes, sl: Slopes, en: Energy): (r: seq<real>)
    requires ValidInput(inp) && nd == NodesOf(inp)
    requires BoundarySlopes(inp, nd) == Success(sl) && EnergySlopes(inp, nd, sl) == Success(en)
    ensures |r| == |inp.gridLogH|
  {
    AddTail(PrefixSums(FHTerms(Segments(inp), InnerOf(inp, nd, sl, en).fh0)), FHTailOf(nd, sl, en))
  }

  /** Integral of -f E from 0 to each node, built like FHOf. */
  function FEOf(inp: ModelInput, nd: Nodes, sl: Slopes, en: Energy): (r: seq<real>)
    requires ValidInput(inp) && nd == NodesOf(inp)
    requires BoundarySlopes(inp, nd) == Success(sl) && EnergySlopes(inp, nd, sl) == Success(en)
    ensures |r| == |inp.gridLogH|
  {
    AddTail(PrefixSums(FETerms(Segments(inp), InnerOf(inp, nd, sl, en).fe0)), FETailOf(nd, sl, en))
  }

  /** The four cumulative integrals; the tails of f h/g and -f E are finite iff their denominator is not 0. */
  function IntegralsOf(inp: ModelInput, nd: Nodes, sl: Slopes, en: Energy): (r: Integrals)
    requires ValidInput(inp) && nd == NodesOf(inp)
    requires BoundarySlopes(inp, nd) == Success(sl) && EnergySlopes(inp, nd, sl) == Success(en)
    ensures |r.fint| == |r.fg| == |r.fh| == |r.fe| == |inp.gridLogH|
    ensures r.finiteTail <==> OuterTailDenominator(sl, en) != 0.0
  {
    Integrals(FintOf(inp, nd, sl, en), FGOf(inp, nd, sl, en), FHOf(inp, nd, sl, en), FEOf(inp, nd, sl, en),
              OuterTailDenominator(sl, en) != 0.0)
  }

  // ---- stage 6: htransition, derivatives and the model ----

  /**
   * The htransition loop: starting at index i with current value cur, while i < n-1 and
   * fg[i+1] < 0.999 M, take cur := H[i] and advance.
   */
  function HTransitionFrom(H: seq<real>, fg: seq<real>, M: real, i: nat, cur: real): real
    requires |H| == |fg|
    decreases |H| - i
  {
    if i + 1 < |H| && fg[i + 1] < M * 0.999 then HTransitionFrom(H, fg, M, i + 1, H[i]) else cur
  }

  /** f with its end values snapped. */
  function SnappedF(nd: Nodes, sl: Slopes): (r: seq<real>)
    requires |nd.F| >= 2
    ensures |r| == |nd.F|
  {
    nd.F[0 := sl.F0][|nd.F| - 1 := sl.Fn]
  }

  /** d(integral of f/g from h to infinity)/dh = -f/g at node i. */
  function FDerAt(F: seq<real>, nd: Nodes, i: nat): real
    requires |F| == |nd.G| && i < |F| && nd.G[i] != 0.0
  {
    -F[i] / nd.G[i]
  }

  /** d(integral of f h/g)/dh = f h/g at node i. */
  function FHDerAt(F: seq<real>, nd: Nodes, i: nat): real
    requires |F| == |nd.G| == |nd.H| && i < |F| && nd.G[i] != 0.0
  {
    F[i] * nd.H[i] / nd.G[i]
  }

  /** d(integral of -f E)/dh = -f E at node i. */
  function FEDerAt(F: seq<real>, nd: Nodes, i: nat): real
    requires |F| == |nd.E| && i < |F|
  {
    -F[i] * nd.E[i]
  }

  /** The sign and finiteness test applied at node i before building the splines. */
  predicate DerivativesOkAt(F: seq<real>, nd: Nodes, ints: Integrals, i: nat)
    requires |F| == |nd.H| == |nd.G| == |nd.E| && i < |F| && nd.G[i] != 0.0
  {
    FDerAt(F, nd, i) <= 0.0 && F[i] >= 0.0 && FHDerAt(F, nd, i) >= 0.0 && FEDerAt(F, nd, i) >= 0.0 &&
    (i + 1 < |F| || ints.finiteTail)
  }

  predicate DerivativesOk(F: seq<real>, nd: Nodes, ints: Integrals)
    requires |F| == |nd.H| == |nd.G| == |nd.E|
    requires forall i :: 0 <= i < |F| ==> nd.G[i] != 0.0
  {
    forall i :: 0 <= i < |F| ==> DerivativesOkAt(F, nd, ints, i)
  }

  /** The derivatives d(integral)/dh at the nodes; the last three are forced to zero. */
  function FDer(F: seq<real>, nd: Nodes): (r: seq<real>)
    requires |F| == |nd.G| && forall i :: 0 <= i < |F| ==> nd.G[i] != 0.0
    ensures |r| == |F|
  {
    seq(|F|, i requires 0 <= i < |F| => FDerAt(F, nd, i))
  }

  function FGDer(F: seq<real>): (r: seq<real>)
    ensures |r| == |F|
  {
    seq(|F|, i requires 0 <= i < |F| => if i == |F| - 1 then 0.0 else F[i])
  }

  function FHDer(F: seq<real>, nd: Nodes): (r: seq<real>)
    requires |F| == |nd.G| == |nd.H| && forall i :: 0 <= i < |F| ==> nd.G[i] != 0.0
    ensures |r| == |F|
  {
    seq(|F|, i requires 0 <= i < |F| => if i == |F| - 1 then 0.0 else FHDerAt(F, nd, i))
  }

  function FEDer(F: seq<real>, nd: Nodes): (r: seq<real>)
    requires |F| == |nd.E|
    ensures |r| == |F|
  {
    seq(|F|, i requires 0 <= i < |F| => if i == |F| - 1 then 0.0 else FEDerAt(F, nd, i))
  }

  /** Size and sign facts Finish needs of the nodes and the integrals. */
  ghost predicate FinishInput(nd: Nodes, ints: Integrals)
  {
    |nd.H| == |nd.F| == |nd.G| == |nd.E| == |ints.fint| == |ints.fg| == |ints.fh| == |ints.fe| >= 2 &&
    forall i :: 0 <= i < |nd.G| ==> nd.G[i] > 0.0
  }

  /**
   * The last stage: the total mass (the integral of f up to infinity) must be positive and the
   * derivatives must pass their test; then htransition is found and the four splines are built.
   */
  function Finish(pv: PhaseVolume, nd: Nodes, sl: Slopes, ints: Integrals): Result<IsotropicModel, CtorError>
    requires FinishInput(nd, ints)
  {
    var n := |nd.H|;
    var M := ints.fg[n - 1];
    var F := SnappedF(nd, sl);
    if !(M > 0.0) then Failure(NowherePositive)
    else if !DerivativesOk(F, nd, ints) then Failure(InvalidInterpolators)
    else
      Success(IsotropicModel(pv, M, HTransitionFrom(nd.H, ints.fg, M, 1, nd.H[0]),
        Spline(nd.H, ints.fint, FDer(F, nd)), Spline(nd.H, ints.fg, FGDer(F)),
        Spline(nd.H, ints.fh, FHDer(F, nd)), Spline(nd.H, ints.fe, FEDer(F, nd))))
  }

  /** The stages after the energy checks: f at the quadrature nodes, then the integrals and Finish. */
  function AfterEnergy(inp: ModelInput, nd: Nodes, sl: Slopes, en: Energy): Result<IsotropicModel, CtorError>
    requires ValidInput(inp) && nd == NodesOf(inp)
    requires BoundarySlopes(inp, nd) == Success(sl) && EnergySlopes(inp, nd, sl) == Success(en)
  {
    match FirstBadFrom(inp, 1)
    case Some(p) => Failure(NegativeDF(p.h, p.f))
    case None => Finish(inp.pv, nd, sl, IntegralsOf(inp, nd, sl, en))
  }

  /** The whole constructor: the model, or the first exception it throws. */
  function Construct(inp: ModelInput): Result<IsotropicModel, CtorError>
    requires ValidInput(inp)
  {
    var nd := NodesOf(inp);
    match FirstNegative(nd.F, 0)
    case Some(i) => Failure(NegativeDF(nd.H[i], nd.F[i]))
    case None =>
      match BoundarySlopes(inp, nd)
      case Failure(e) => Failure(e)
      case Success(sl) =>
        match EnergySlopes(inp, nd, sl)
        case Failure(e) => Failure(e)
        case Success(en) =>
          AfterEnergy(inp, nd, sl, en)
  }
}
