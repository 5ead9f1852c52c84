/**
 * Queries on a constructed SphericalIsotropicModel: the distribution function recovered from
 * the derivative of a cumulative integral, the integral I0 of f/g to infinity, the cumulative
 * mass, kinetic and total energy, and the energy diffusion coefficients. The splines are
 * evaluated through a SplineEval, so what is proved holds at the grid nodes.
 */
module SphericalQueries {
  import opened Wrappers
  import opened Numerics
  import opened CumulativeSums
  import opened SphericalModel
  import opened SphericalProperties

  /** f(h) and df/dh. */
  datatype Deriv = Deriv(f: real, dfdh: real)

  /**
   * Below htransition f is the derivative of the integral of f from 0; above it, where that
   * integral has levelled off at the total mass, f = -g d/dh (integral of f/g from h to infinity).
   */
  function EvalDeriv(m: IsotropicModel, ev: SplineEval, h: real): Deriv
  {
    if h < m.htransition then Deriv(ev.deriv(m.intfg, h), ev.deriv2(m.intfg, h))
    else
      var der, der2 := ev.deriv(m.intf, h), ev.deriv2(m.intf, h);
      var g, dgdh := m.phasevol.G(h), m.phasevol.dG(h);
      Deriv(-der * g, -der2 * g - der * dgdh)
  }

  /** The integral of f/g from h to infinity. */
  function I0(m: IsotropicModel, ev: SplineEval, h: real): real
  {
    ev.value(m.intf, h)
  }

  /** The mass inside phase volume h; None stands for h = infinity, which gives the total mass. */
  function CumulMass(m: IsotropicModel, ev: SplineEval, h: Option<real>): real
  {
    match h
    case None => m.totalMass
    case Some(x) => ev.value(m.intfg, x)
  }

  /** The kinetic energy inside phase volume h: 3/2 of the integral of f h/g. */
  function CumulEkin(m: IsotropicModel, ev: SplineEval, h: real): real
  {
    1.5 * ev.value(m.intfh, h)
  }

  /** The total energy inside phase volume h: minus the integral of -f E. */
  function CumulEtotal(m: IsotropicModel, ev: SplineEval, h: real): real
  {
    -ev.value(m.intfE, h)
  }

  /** The first- and second-order energy diffusion coefficients. */
  datatype EnergyDiffusion = EnergyDiffusion(deltaE: real, deltaE2: real)

  /**
   * At energy E with h = h(E) and g = dh/dE: DeltaE = 16 pi^2 M (I0 - mass(h)/g) and
   * DeltaE2 = 32 pi^2 M (I0 h + (2/3) Ekin(h)) / g.
   */
  function DifCoefEnergy(m: IsotropicModel, ev: SplineEval, E: real): EnergyDiffusion
    requires m.phasevol.G(m.phasevol.H(E)) != 0.0
  {
    var h := m.phasevol.H(E);
    var g := m.phasevol.G(h);
    var totalMass := CumulMass(m, ev, None);
    var IF, IFG, IFH := I0(m, ev, h), CumulMass(m, ev, Some(h)), CumulEkin(m, ev, h) * (2.0 / 3.0);
    EnergyDiffusion(16.0 * PI * PI * totalMass * (IF - IFG / g), 32.0 * PI * PI * totalMass * (IF * h + IFH) / g)
  }

  // ---- properties at the grid nodes ----

  /** The stages of a successful construction, named for the lemmas below. */
  lemma SuccessStages(inp: ModelInput) returns (nd: Nodes, sl: Slopes, en: Energy)
    requires ValidInput(inp) && Construct(inp).Success?
    ensures nd == NodesOf(inp) && FirstNegative(nd.F, 0).None?
    ensures BoundarySlopes(inp, nd) == Success(sl) && EnergySlopes(inp, nd, sl) == Success(en)
    ensures FirstBadFrom(inp, 1).None? && AfterEnergy(inp, nd, sl, en) == Construct(inp)
    ensures var m := Construct(inp).value; var ints := IntegralsOf(inp, nd, sl, en); var F := SnappedF(nd, sl);
      m.phasevol == inp.pv && m.totalMass == ints.fg[|nd.H| - 1] &&
      m.htransition == HTransitionFrom(nd.H, ints.fg, m.totalMass, 1, nd.H[0]) &&
      m.intf == Spline(nd.H, ints.fint, FDer(F, nd)) && m.intfg == Spline(nd.H, ints.fg, FGDer(F)) &&
      m.intfh == Spline(nd.H, ints.fh, FHDer(F, nd)) && m.intfE == Spline(nd.H, ints.fe, FEDer(F, nd))
  {
    nd := NodesOf(inp);
    sl := BoundarySlopes(inp, nd).value;
    en := EnergySlopes(inp, nd, sl).value;
  }

  /** The value of f at grid node i after snapping: zero at an end where f is at most MIN_VALUE_ROUNDOFF. */
  function SnappedValue(inp: ModelInput, i: nat): real
    requires i < |inp.gridLogH|
  {
    var f := inp.df.f(inp.exp(inp.gridLogH[i]));
    if (i == 0 || i == |inp.gridLogH| - 1) && f <= MIN_VALUE_ROUNDOFF then 0.0 else f
  }

  /**
   * evalDeriv at node i of splines built with the derivatives FGDer and FDer gives back F[i],
   * provided a node below htransition = H[k] lies before k.
   */
  lemma EvalDerivAtNode(m: IsotropicModel, ev: SplineEval, F: seq<real>, nd: Nodes, i: nat, k: nat)
    requires MatchesDerivatives(ev)
    requires |F| == |nd.H| == |nd.G| == |nd.E| && i < |F| && k <= |F| - 2
    requires forall j :: 0 <= j < |F| ==> nd.G[j] != 0.0
    requires m.intf.xs == nd.H && m.intf.ders == FDer(F, nd) && m.intfg.xs == nd.H && m.intfg.ders == FGDer(F)
    requires m.htransition == nd.H[k] && m.phasevol.G(nd.H[i]) == nd.G[i]
    requires nd.H[i] < nd.H[k] ==> i < k
    ensures EvalDeriv(m, ev, nd.H[i]).f == F[i]
  {
    var h := nd.H[i];
    if h < m.htransition {
      assert ev.deriv(m.intfg, m.intfg.xs[i]) == FGDer(F)[i] == F[i];
    } else {
      assert ev.deriv(m.intf, m.intf.xs[i]) == FDer(F, nd)[i] == -F[i] / nd.G[i];
      assert -(-F[i] / nd.G[i]) * nd.G[i] == F[i];
    }
  }

  /** The splines of a successful construction, and where htransition lies. */
  lemma ModelSplines(inp: ModelInput) returns (nd: Nodes, F: seq<real>, k: nat)
    requires ValidInput(inp) && Construct(inp).Success?
    ensures nd == NodesOf(inp) && |F| == |nd.H| && k <= |F| - 2
    ensures forall i :: 0 <= i < |F| ==> F[i] == SnappedValue(inp, i)
    ensures var m := Construct(inp).value;
      m.phasevol == inp.pv && m.htransition == nd.H[k] &&
      m.intf.xs == nd.H && m.intf.ders == FDer(F, nd) && m.intfg.xs == nd.H && m.intfg.ders == FGDer(F)
  {
    var sl, en;
    nd, sl, en := SuccessStages(inp);
    F := SnappedF(nd, sl);
    SnappedFValues(inp, nd, sl);
    var m := Construct(inp).value;
    k := TransitionIndex(nd.H, m.intfg.ys, m.totalMass);
  }

  /** The snapped values of f at the nodes are SnappedValue. */
  lemma SnappedFValues(inp: ModelInput, nd: Nodes, sl: Slopes)
    requires ValidInput(inp) && nd == NodesOf(inp) && BoundarySlopes(inp, nd) == Success(sl)
    ensures forall i :: 0 <= i < |nd.F| ==> SnappedF(nd, sl)[i] == SnappedValue(inp, i)
  {
    var n := |nd.F|;
    forall i | 0 <= i < n
      ensures SnappedF(nd, sl)[i] == SnappedValue(inp, i)
    {
      assert nd.F[i] == inp.df.f(inp.exp(inp.gridLogH[i]));
    }
  }

  /** The index k <= n-2 with htransition = H[k]. */
  lemma TransitionIndex(H: seq<real>, fg: seq<real>, M: real) returns (k: nat)
    requires |H| == |fg| >= 2
    ensures k <= |H| - 2 && HTransitionFrom(H, fg, M, 1, H[0]) == H[k]
  {
    HTransitionIsLastBelow(H, fg, M);
    k :| 0 <= k <= |H| - 2 && HTransitionFrom(H, fg, M, 1, H[0]) == H[k];
  }

  /**
   * At every grid node, evalDeriv gives back the distribution function (after end snapping),
   * whichever of the two splines it differentiates, provided exp is increasing.
   */
  lemma EvalDerivReproducesDF(inp: ModelInput, ev: SplineEval, i: nat)
    requires ValidInput(inp) && Construct(inp).Success? && MatchesDerivatives(ev)
    requires forall x, y :: x < y ==> inp.exp(x) < inp.exp(y)
    requires i < |inp.gridLogH|
    ensures EvalDeriv(Construct(inp).value, ev, inp.exp(inp.gridLogH[i])).f == SnappedValue(inp, i)
  {
    var nd, F, k := ModelSplines(inp);
    if nd.H[i] < nd.H[k] && k <= i {
      if k < i {
        Increasing(inp, k, i);
      }
      assert false;
    }
    EvalDerivAtNode(Construct(inp).value, ev, F, nd, i, k);
  }

  /** Grid values in log h increase with the index. */
  lemma {:induction false} Increasing(inp: ModelInput, a: nat, b: nat)
    requires ValidInput(inp) && a < b < |inp.gridLogH|
    ensures inp.gridLogH[a] < inp.gridLogH[b]
    decreases b - a
  {
    if a + 1 < b {
      Increasing(inp, a + 1, b);
    }
  }

  /**
   * At the grid nodes the cumulative mass is the integral of f up to the node, is non-negative,
   * grows with h and reaches the total mass at the last node, which is what h = infinity returns.
   */
  lemma CumulMassAtNodes(inp: ModelInput, ev: SplineEval, i: nat, j: nat)
    requires ValidInput(inp) && Construct(inp).Success? && Interpolates(ev)
    requires i <= j < |inp.gridLogH|
    ensures var m := Construct(inp).value; var H := NodesOf(inp).H;
      0.0 <= CumulMass(m, ev, Some(H[i])) <= CumulMass(m, ev, Some(H[j])) <= CumulMass(m, ev, None) &&
      CumulMass(m, ev, Some(H[|H| - 1])) == CumulMass(m, ev, None) && CumulMass(m, ev, None) > 0.0
  {
    ConstructedModelShape(inp);
    var m := Construct(inp).value;
    var n := |inp.gridLogH|;
    assert CumulMass(m, ev, Some(m.intfg.xs[i])) == m.intfg.ys[i];
    assert CumulMass(m, ev, Some(m.intfg.xs[j])) == m.intfg.ys[j];
    assert CumulMass(m, ev, Some(m.intfg.xs[n - 1])) == m.intfg.ys[n - 1];
  }

  /**
   * At the grid nodes I0 is non-negative and falls with h, the kinetic energy is non-negative
   * and grows with h, and the total energy is non-positive and falls with h.
   */
  lemma EnergiesAtNodes(inp: ModelInput, ev: SplineEval, i: nat, j: nat)
    requires ValidInput(inp) && Construct(inp).Success? && Interpolates(ev)
    requires i <= j < |inp.gridLogH|
    ensures var m := Construct(inp).value; var H := NodesOf(inp).H;
      I0(m, ev, H[i]) >= I0(m, ev, H[j]) >= 0.0 &&
      0.0 <= CumulEkin(m, ev, H[i]) <= CumulEkin(m, ev, H[j]) &&
      CumulEtotal(m, ev, H[i]) >= CumulEtotal(m, ev, H[j]) && CumulEtotal(m, ev, H[i]) <= 0.0
  {
    ConstructedModelShape(inp);
    var m := Construct(inp).value;
    assert I0(m, ev, m.intf.xs[i]) == m.intf.ys[i] && I0(m, ev, m.intf.xs[j]) == m.intf.ys[j];
    assert ev.value(m.intfh, m.intfh.xs[i]) == m.intfh.ys[i] && ev.value(m.intfh, m.intfh.xs[j]) == m.intfh.ys[j];
    assert ev.value(m.intfE, m.intfE.xs[i]) == m.intfE.ys[i] && ev.value(m.intfE, m.intfE.xs[j]) == m.intfE.ys[j];
  }

  /** DeltaE2 >= 0 from the signs of its parts. */
  lemma DeltaE2Sign(pi: real, M: real, IF: real, h: real, IFH: real, g: real)
    requires M > 0.0 && IF >= 0.0 && h > 0.0 && IFH >= 0.0 && g > 0.0
    ensures 32.0 * pi * pi * M * (IF * h + IFH) / g >= 0.0
  {
    MulNonNeg(IF, h);
    if pi >= 0.0 {
      MulNonNeg(pi, pi);
    } else {
      MulNonNeg(-pi, -pi);
    }
    MulNonNeg(32.0 * pi * pi, M);
    MulNonNeg(32.0 * pi * pi * M, IF * h + IFH);
    DivNonNeg(32.0 * pi * pi * M * (IF * h + IFH), g);
  }

  /**
   * When h(E) is a grid node, the second-order energy coefficient is non-negative, and its
   * (2/3) Ekin term is exactly the integral of f h/g up to h.
   */
  lemma DifCoefEnergyAtNode(inp: ModelInput, ev: SplineEval, E: real, i: nat)
    requires ValidInput(inp) && Construct(inp).Success? && Interpolates(ev)
    requires i < |inp.gridLogH| && inp.pv.H(E) == NodesOf(inp).H[i]
    ensures var m := Construct(inp).value;
      m.phasevol.G(m.phasevol.H(E)) > 0.0 &&
      CumulEkin(m, ev, m.phasevol.H(E)) * (2.0 / 3.0) == m.intfh.ys[i] &&
      DifCoefEnergy(m, ev, E).deltaE2 >= 0.0
  {
    ConstructedModelShape(inp);
    var m := Construct(inp).value;
    DifCoefAtSplineNode(m, ev, E, i);
  }

  /** DifCoefEnergyAtNode for a model whose splines share their nodes, stated on the model alone. */
  lemma DifCoefAtSplineNode(m: IsotropicModel, ev: SplineEval, E: real, i: nat)
    requires Interpolates(ev) && m.totalMass > 0.0
    requires m.intf.xs == m.intfh.xs && i < |m.intf.xs| && i < |m.intf.ys| && i < |m.intfh.ys|
    requires m.phasevol.H(E) == m.intf.xs[i] && m.intf.xs[i] > 0.0 && ValidPhaseVolume(m.phasevol)
    requires m.intf.ys[i] >= 0.0 && m.intfh.ys[i] >= 0.0
    ensures m.phasevol.G(m.phasevol.H(E)) > 0.0
    ensures CumulEkin(m, ev, m.phasevol.H(E)) * (2.0 / 3.0) == m.intfh.ys[i]
    ensures DifCoefEnergy(m, ev, E).deltaE2 >= 0.0
  {
    var h := m.intf.xs[i];
    assert ev.value(m.intfh, m.intfh.xs[i]) == m.intfh.ys[i];
    assert I0(m, ev, h) == m.intf.ys[i];
    DeltaE2Sign(PI, m.totalMass, I0(m, ev, h), h, CumulEkin(m, ev, h) * (2.0 / 3.0), m.phasevol.G(h));
  }
}
