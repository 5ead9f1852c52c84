/**
 * The SphericalIsotropicModel constructor as the library runs it: arrays filled node by node,
 * Gauss-Legendre sums accumulated segment by segment, then the in-place suffix and prefix
 * passes, the htransition scan and the derivative check. Each method is proved to compute
 * the corresponding stage of SphericalModel.Construct.
 */
module SphericalConstruction {
  import opened Wrappers
  import opened Numerics
  import opened CumulativeSums
  import opened SphericalModel

  /** nd holds h = exp(log h), f(h), g(h) and E(h) at every grid node of inp. */
  ghost predicate NodesAt(inp: ModelInput, nd: Nodes)
  {
    |nd.H| == |nd.F| == |nd.G| == |nd.E| == |inp.gridLogH| &&
    forall i :: 0 <= i < |nd.H| ==>
      nd.H[i] == inp.exp(inp.gridLogH[i]) && nd.F[i] == inp.df.f(nd.H[i]) &&
      nd.G[i] == inp.pv.G(nd.H[i]) && nd.E[i] == inp.pv.E(nd.H[i])
  }

  /**
   * Fills h, f, g and E at the grid nodes, throwing at the first node where f is not >= 0.
   */
  method EvalNodes(inp: ModelInput, gridH: array<real>, gridF: array<real>, gridG: array<real>, gridE: array<real>)
    returns (err: Option<CtorError>)
    requires ValidInput(inp)
    requires gridH.Length == gridF.Length == gridG.Length == gridE.Length == |inp.gridLogH|
    requires gridH != gridF && gridH != gridG && gridH != gridE && gridF != gridG && gridF != gridE && gridG != gridE
    modifies gridH, gridF, gridG, gridE
    ensures var nd := NodesOf(inp);
      match FirstNegative(nd.F, 0)
      case Some(i) => err == Some(NegativeDF(nd.H[i], nd.F[i]))
      case None => err.None? && gridH[..] == nd.H && gridF[..] == nd.F && gridG[..] == nd.G && gridE[..] == nd.E
  {
    ghost var nd := NodesOf(inp);
    assert NodesAt(inp, nd);
    err := FillNodes(inp, nd, gridH, gridF, gridG, gridE);
  }

  /** The loop of EvalNodes, against the node values nd it computes. */
  method FillNodes(inp: ModelInput, ghost nd: Nodes, gridH: array<real>, gridF: array<real>, gridG: array<real>,
                   gridE: array<real>)
    returns (err: Option<CtorError>)
    requires NodesAt(inp, nd)
    requires gridH.Length == gridF.Length == gridG.Length == gridE.Length == |inp.gridLogH|
    requires gridH != gridF && gridH != gridG && gridH != gridE && gridF != gridG && gridF != gridE && gridG != gridE
    modifies gridH, gridF, gridG, gridE
    ensures match FirstNegative(nd.F, 0)
      case Some(i) => err == Some(NegativeDF(nd.H[i], nd.F[i]))
      case None => err.None? && gridH[..] == nd.H && gridF[..] == nd.F && gridG[..] == nd.G && gridE[..] == nd.E
  {
    var L := inp.gridLogH;
    var i := 0;
    while i < |L|
      invariant 0 <= i <= |L|
      invariant forall j :: 0 <= j < i ==> nd.F[j] >= 0.0
      invariant forall j :: 0 <= j < i ==> gridH[j] == nd.H[j]
      invariant forall j :: 0 <= j < i ==> gridF[j] == nd.F[j]
      invariant forall j :: 0 <= j < i ==> gridG[j] == nd.G[j]
      invariant forall j :: 0 <= j < i ==> gridE[j] == nd.E[j]
    {
      var h := inp.exp(L[i]);
      var f := inp.df.f(h);
      if !(f >= 0.0) {
        FirstNegativeAt(nd.F, i);
        return Some(NegativeDF(h, f));
      }
      SetNode(gridH, gridF, gridG, gridE, i, h, f, inp.pv.G(h), inp.pv.E(h));
      i := i + 1;
    }
    assert FirstNegative(nd.F, 0).None?;
    assert gridH[..] == nd.H;
    assert gridF[..] == nd.F;
    assert gridG[..] == nd.G;
    assert gridE[..] == nd.E;
    return None;
  }

  /** The first entry below zero is the one after a run of non-negative entries. */
  lemma FirstNegativeAt(F: seq<real>, i: nat)
    requires i < |F| && F[i] < 0.0 && forall j :: 0 <= j < i ==> F[j] >= 0.0
    ensures FirstNegative(F, 0) == Some(i)
  {
    var r := FirstNegative(F, 0);
    assert r.Some? && r.value <= i;
  }

  /** gridF[i], gridH[i], gridG[i] and gridE[i] := f, h, g and E; no other entry changes. */
  method SetNode(gridH: array<real>, gridF: array<real>, gridG: array<real>, gridE: array<real>, i: nat,
                 h: real, f: real, g: real, e: real)
    requires i < gridH.Length == gridF.Length == gridG.Length == gridE.Length
    requires gridH != gridF && gridH != gridG && gridH != gridE && gridF != gridG && gridF != gridE && gridG != gridE
    modifies gridH, gridF, gridG, gridE
    ensures forall j :: 0 <= j < gridH.Length ==> gridH[j] == if j == i then h else old(gridH[j])
    ensures forall j :: 0 <= j < gridF.Length ==> gridF[j] == if j == i then f else old(gridF[j])
    ensures forall j :: 0 <= j < gridG.Length ==> gridG[j] == if j == i then g else old(gridG[j])
    ensures forall j :: 0 <= j < gridE.Length ==> gridE[j] == if j == i then e else old(gridE[j])
  {
    gridF[i] := f;
    gridH[i] := h;
    gridG[i] := g;
    gridE[i] := e;
  }

  /** The state of the four accumulators before segment i, as the integration loop leaves it. */
  ghost predicate AccumulatedUpTo(segs: seq<Quad4>, i: nat, fint: seq<real>, fg: seq<real>, fh: seq<real>, fe: seq<real>)
    requires 1 <= i <= |segs| + 1
  {
    var n := |segs| + 1;
    |fint| == |fg| == |fh| == |fe| == n &&
    (forall j :: 0 <= j < n ==> fint[j] == if j < i - 1 then segs[j].f else 0.0) &&
    (forall j :: 0 <= j < n ==> fg[j] == if 1 <= j < i then segs[j - 1].fg else 0.0) &&
    (forall j :: 0 <= j < n ==> fh[j] == if 1 <= j < i then segs[j - 1].fh else 0.0) &&
    (forall j :: 0 <= j < n ==> fe[j] == if 1 <= j < i then segs[j - 1].fe else 0.0)
  }

  /** integrand = f h w; the four running sums take integrand/g, integrand, integrand h/g and -integrand E. */
  method AddPoint(accF: real, accFG: real, accFH: real, accFE: real, p: QuadPoint)
    returns (accF': real, accFG': real, accFH': real, accFE': real)
    requires p.g > 0.0
    ensures Quad4(accF', accFG', accFH', accFE') == Accumulate(Quad4(accF, accFG, accFH, accFE), p)
    // a point with f >= 0 (on bound orbits, E < 0) never decreases any of the four integrals
    ensures p.f >= 0.0 && p.h > 0.0 && p.weight > 0.0 && p.E < 0.0 ==>
      accF' >= accF && accFG' >= accFG && accFH' >= accFH && accFE' >= accFE
  {
    var integrand := p.f * p.h * p.weight;
    accF' := accF + integrand / p.g;
    accFG' := accFG + integrand;
    accFH' := accFH + integrand / p.g * p.h;
    accFE' := accFE - integrand * p.E;
  }

  /**
   * The Gauss-Legendre sum over one segment i: order 6 or 10 by its length in log(h);
   * a node where f is not >= 0 stops it.
   */
  method IntegrateSegment(inp: ModelInput, i: nat) returns (bad: Option<QuadPoint>, acc: Quad4)
    requires ValidInput(inp) && 1 <= i < |inp.gridLogH|
    ensures bad == FirstBadInSegment(inp, i, 0)
    ensures bad.None? ==> acc == SegmentTotal(inp, i)
  {
    var L := inp.gridLogH;
    var dlogh := L[i] - L[i - 1];
    var glorder := if dlogh < GLDELTA then GLORDER1 else GLORDER2;
    assert glorder == OrderOf(inp, i);
    var accF, accFG, accFH, accFE := 0.0, 0.0, 0.0, 0.0;
    var k := 0;
    while k < glorder
      invariant 0 <= k <= glorder
      invariant FirstBadInSegment(inp, i, 0) == FirstBadInSegment(inp, i, k)
      invariant Quad4(accF, accFG, accFH, accFE) == SegmentPartial(inp, i, k)
    {
      var p := Point(inp, i, k);
      if !(p.f >= 0.0) {
        return Some(p), Quad4(accF, accFG, accFH, accFE);
      }
      accF, accFG, accFH, accFE := AddPoint(accF, accFG, accFH, accFE, p);
      k := k + 1;
    }
    return None, Quad4(accF, accFG, accFH, accFE);
  }

  /** Storing segment i's totals extends the accumulated state by one segment. */
  lemma AccumulatedStep(segs: seq<Quad4>, i: nat, fint: seq<real>, fg: seq<real>, fh: seq<real>, fe: seq<real>)
    requires 1 <= i <= |segs|
    requires AccumulatedUpTo(segs, i, fint, fg, fh, fe)
    ensures var acc := segs[i - 1];
      AccumulatedUpTo(segs, i + 1, fint[i - 1 := acc.f], fg[i := acc.fg], fh[i := acc.fh], fe[i := acc.fe])
  {
  }

  /**
   * The integration loop over interior segments: segment i adds its node contributions to
   * fint[i-1] and to fg[i], fh[i], fe[i]; a node where f is not >= 0 stops it.
   */
  method IntegrateSegments(inp: ModelInput, fint: array<real>, fg: array<real>, fh: array<real>, fe: array<real>)
    returns (bad: Option<QuadPoint>)
    requires ValidInput(inp)
    requires AccumulatedUpTo(Segments(inp), 1, fint[..], fg[..], fh[..], fe[..])
    requires fint != fg && fint != fh && fint != fe && fg != fh && fg != fe && fh != fe
    modifies fint, fg, fh, fe
    ensures bad == FirstBadFrom(inp, 1)
    ensures bad.None? ==> AccumulatedUpTo(Segments(inp), |inp.gridLogH|, fint[..], fg[..], fh[..], fe[..])
  {
    var n := |inp.gridLogH|;
    ghost var segs := Segments(inp);
    var i := 1;
    while i < n
      invariant 1 <= i <= n
      invariant FirstBadFrom(inp, 1) == FirstBadFrom(inp, i)
      invariant AccumulatedUpTo(segs, i, fint[..], fg[..], fh[..], fe[..])
    {
      var segBad, acc := IntegrateSegment(inp, i);
      if segBad.Some? {
        return segBad;
      }
      AccumulatedStep(segs, i, fint[..], fg[..], fh[..], fe[..]);
      fint[i - 1] := acc.f;
      fg[i] := acc.fg;
      fh[i] := acc.fh;
      fe[i] := acc.fe;
      i := i + 1;
    }
    return None;
  }

  /** The htransition loop: the last grid h before the first node where fg reaches 0.999 of the mass. */
  method ScanHTransition(gridH: array<real>, fg: array<real>, totalMass: real) returns (ht: real)
    requires gridH.Length == fg.Length > 0
    ensures ht == HTransitionFrom(gridH[..], fg[..], totalMass, 1, gridH[0])
  {
    ht := gridH[0];
    var i := 1;
    while i < gridH.Length - 1 && fg[i + 1] < totalMass * 0.999
      invariant 1 <= i <= gridH.Length
      invariant HTransitionFrom(gridH[..], fg[..], totalMass, 1, gridH[0]) ==
                HTransitionFrom(gridH[..], fg[..], totalMass, i, ht)
      decreases gridH.Length - i
    {
      ht := gridH[i];
      i := i + 1;
    }
  }

  /** Pointwise agreement with the four derivative sequences gives equality with them. */
  lemma DerivativeSeqs(F: seq<real>, nd: Nodes, fder: seq<real>, fgder: seq<real>, fhder: seq<real>, feder: seq<real>)
    requires |F| == |nd.H| == |nd.G| == |nd.E| == |fder| == |fgder| == |fhder| == |feder| > 0
    requires forall i :: 0 <= i < |F| ==> nd.G[i] != 0.0
    requires forall j :: 0 <= j < |F| ==> fder[j] == FDerAt(F, nd, j)
    requires forall j :: 0 <= j < |F| ==> fgder[j] == if j == |F| - 1 then 0.0 else F[j]
    requires forall j :: 0 <= j < |F| ==> fhder[j] == if j == |F| - 1 then 0.0 else FHDerAt(F, nd, j)
    requires forall j :: 0 <= j < |F| ==> feder[j] == if j == |F| - 1 then 0.0 else FEDerAt(F, nd, j)
    ensures fder == FDer(F, nd) && fgder == FGDer(F) && fhder == FHDer(F, nd) && feder == FEDer(F, nd)
  {
  }

  /**
   * Derivatives of the four integrals at the nodes, with the sign and finiteness test at
   * every node; the last derivative of the three integrals up to h is then set to zero.
   */
  method NodeDerivatives(F: seq<real>, nd: Nodes, ints: Integrals)
    returns (ok: bool, fder: seq<real>, fgder: seq<real>, fhder: seq<real>, feder: seq<real>)
    requires |F| == |nd.H| == |nd.G| == |nd.E| > 0
    requires forall i :: 0 <= i < |F| ==> nd.G[i] != 0.0
    ensures ok <==> DerivativesOk(F, nd, ints)
    ensures ok ==> fder == FDer(F, nd) && fgder == FGDer(F) && fhder == FHDer(F, nd) && feder == FEDer(F, nd)
  {
    var n := |F|;
    var aF, aFG, aFH, aFE := new real[n], new real[n], new real[n], new real[n];
    var i := 0;
    while i < n
      invariant 0 <= i <= n
      invariant forall j :: 0 <= j < i ==> DerivativesOkAt(F, nd, ints, j)
      invariant forall j :: 0 <= j < i ==>
        aF[j] == FDerAt(F, nd, j) && aFG[j] == F[j] && aFH[j] == FHDerAt(F, nd, j) && aFE[j] == FEDerAt(F, nd, j)
    {
      var dF, dFG, dFH, dFE := FDerAt(F, nd, i), F[i], FHDerAt(F, nd, i), FEDerAt(F, nd, i);
      aF[i], aFG[i], aFH[i], aFE[i] := dF, dFG, dFH, dFE;
      var finiteSum := i + 1 < n || ints.finiteTail;
      if !(dF <= 0.0 && dFG >= 0.0 && dFH >= 0.0 && dFE >= 0.0 && finiteSum) {
        assert !DerivativesOkAt(F, nd, ints, i);
        return false, [], [], [], [];
      }
      i := i + 1;
    }
    aFG[n - 1], aFH[n - 1], aFE[n - 1] := 0.0, 0.0, 0.0;
    ok, fder, fgder, fhder, feder := true, aF[..], aFG[..], aFH[..], aFE[..];
    DerivativeSeqs(F, nd, fder, fgder, fhder, feder);
  }

  /** The suffix pass: the tail beyond the last node, then integrals of f/g from each node outward. */
  method FintPass(ghost segs: seq<Quad4>, tail: real, fint: array<real>)
    requires fint.Length == |segs| + 1
    requires forall j :: 0 <= j < |segs| ==> fint[j] == segs[j].f
    modifies fint
    ensures fint[..] == SuffixSums(FintTerms(segs, tail))
  {
    fint[fint.Length - 1] := tail;
    assert fint[..] == FintTerms(segs, tail);
    SuffixSumInPlace(fint);
  }

  /** The prefix pass for the integral of f: the inner part first, then the outer tail on the last entry. */
  method FGPass(ghost segs: seq<Quad4>, first: real, tail: real, fg: array<real>)
    requires fg.Length == |segs| + 1
    requires forall j :: 1 <= j < fg.Length ==> fg[j] == segs[j - 1].fg
    modifies fg
    ensures fg[..] == AddToLast(PrefixSums(FGTerms(segs, first)), tail)
  {
    fg[0] := first;
    assert fg[..] == FGTerms(segs, first);
    PrefixSumInPlace(fg);
    fg[fg.Length - 1] := fg[fg.Length - 1] + tail;
  }

  /** The prefix pass for the integral of f h/g; the tail is added only when there is one. */
  method FHPass(ghost segs: seq<Quad4>, first: real, tail: Option<real>, fh: array<real>)
    requires fh.Length == |segs| + 1
    requires forall j :: 1 <= j < fh.Length ==> fh[j] == segs[j - 1].fh
    modifies fh
    ensures fh[..] == AddTail(PrefixSums(FHTerms(segs, first)), tail)
  {
    fh[0] := first;
    assert fh[..] == FHTerms(segs, first);
    PrefixSumInPlace(fh);
    if tail.Some? {
      fh[fh.Length - 1] := fh[fh.Length - 1] + tail.value;
    }
  }

  /** The prefix pass for the integral of -f E, like FHPass. */
  method FEPass(ghost segs: seq<Quad4>, first: real, tail: Option<real>, fe: array<real>)
    requires fe.Length == |segs| + 1
    requires forall j :: 1 <= j < fe.Length ==> fe[j] == segs[j - 1].fe
    modifies fe
    ensures fe[..] == AddTail(PrefixSums(FETerms(segs, first)), tail)
  {
    fe[0] := first;
    assert fe[..] == FETerms(segs, first);
    PrefixSumInPlace(fe);
    if tail.Some? {
      fe[fe.Length - 1] := fe[fe.Length - 1] + tail.value;
    }
  }

  /** The four cumulative passes over the per-segment totals, given the inner parts and the outer tails. */
  method CumulativePasses(ghost segs: seq<Quad4>, inner: InnerTerms, fintTail: real, fgTail: real,
                          fhTail: Option<real>, feTail: Option<real>,
                          fint: array<real>, fg: array<real>, fh: array<real>, fe: array<real>)
    requires AccumulatedUpTo(segs, |segs| + 1, fint[..], fg[..], fh[..], fe[..])
    requires fint != fg && fint != fh && fint != fe && fg != fh && fg != fe && fh != fe
    modifies fint, fg, fh, fe
    ensures fint[..] == SuffixSums(FintTerms(segs, fintTail))
    ensures fg[..] == AddToLast(PrefixSums(FGTerms(segs, inner.fg0)), fgTail)
    ensures fh[..] == AddTail(PrefixSums(FHTerms(segs, inner.fh0)), fhTail)
    ensures fe[..] == AddTail(PrefixSums(FETerms(segs, inner.fe0)), feTail)
  {
    FintPass(segs, fintTail, fint);
    FGPass(segs, inner.fg0, fgTail, fg);
    FHPass(segs, inner.fh0, fhTail, fh);
    FEPass(segs, inner.fe0, feTail, fe);
  }

  /**
   * Integration over the segments followed by the four cumulative passes, given the inner
   * parts and the outer tails.
   */
  method ComputeIntegrals(inp: ModelInput, inner: InnerTerms, fintTail: real, fgTail: real,
                          fhTail: Option<real>, feTail: Option<real>)
    returns (bad: Option<QuadPoint>, fint: array<real>, fg: array<real>, fh: array<real>, fe: array<real>)
    requires ValidInput(inp)
    ensures fresh(fint) && fresh(fg) && fresh(fh) && fresh(fe)
    ensures bad == FirstBadFrom(inp, 1)
    ensures bad.None? ==> var segs := Segments(inp);
      fint[..] == SuffixSums(FintTerms(segs, fintTail)) &&
      fg[..] == AddToLast(PrefixSums(FGTerms(segs, inner.fg0)), fgTail) &&
      fh[..] == AddTail(PrefixSums(FHTerms(segs, inner.fh0)), fhTail) &&
      fe[..] == AddTail(PrefixSums(FETerms(segs, inner.fe0)), feTail)
  {
    var n := |inp.gridLogH|;
    fint, fg, fh, fe := new real[n](_ => 0.0), new real[n](_ => 0.0), new real[n](_ => 0.0), new real[n](_ => 0.0);
    bad := IntegrateSegments(inp, fint, fg, fh, fe);
    if bad.Some? {
      return;
    }
    CumulativePasses(Segments(inp), inner, fintTail, fgTail, fhTail, feTail, fint, fg, fh, fe);
  }

  /** The mass check, the htransition scan, the derivative check and the splines. */
  method FinishModel(pv: PhaseVolume, nd: Nodes, sl: Slopes, gridH: array<real>, gridF: array<real>,
                     fint: array<real>, fg: array<real>, fh: array<real>, fe: array<real>, finiteTail: bool)
    returns (r: Result<IsotropicModel, CtorError>)
    requires FinishInput(nd, Integrals(fint[..], fg[..], fh[..], fe[..], finiteTail))
    requires gridH[..] == nd.H && gridF[..] == SnappedF(nd, sl)
    ensures r == Finish(pv, nd, sl, Integrals(fint[..], fg[..], fh[..], fe[..], finiteTail))
  {
    var n := gridH.Length;
    var totalMass := fg[n - 1];
    if !(totalMass > 0.0) {
      return Failure(NowherePositive);
    }
    var htransition := ScanHTransition(gridH, fg, totalMass);
    var ok, fder, fgder, fhder, feder := NodeDerivatives(gridF[..], nd, Integrals(fint[..], fg[..], fh[..], fe[..], finiteTail));
    if !ok {
      return Failure(InvalidInterpolators);
    }
    r := Success(IsotropicModel(pv, totalMass, htransition,
      Spline(gridH[..], fint[..], fder), Spline(gridH[..], fg[..], fgder),
      Spline(gridH[..], fh[..], fhder), Spline(gridH[..], fe[..], feder)));
  }

  /** The constructor after the energy checks, as AfterEnergy describes. */
  method IntegrateAndFinish(inp: ModelInput, nd: Nodes, sl: Slopes, en: Energy, gridH: array<real>, gridF: array<real>)
    returns (r: Result<IsotropicModel, CtorError>)
    requires ValidInput(inp) && nd == NodesOf(inp)
    requires BoundarySlopes(inp, nd) == Success(sl) && EnergySlopes(inp, nd, sl) == Success(en)
    requires gridH[..] == nd.H && gridF[..] == SnappedF(nd, sl)
    ensures r == AfterEnergy(inp, nd, sl, en)
  {
    var n := |inp.gridLogH|;
    OuterRatioNonNegative(inp, nd, sl, en);
    var bad, fint, fg, fh, fe := ComputeIntegrals(inp, InnerOf(inp, nd, sl, en), FintTail(sl.Fn, en.outerE, en.outerRatio),
      FGTail(sl.Fn, nd.H[n - 1], sl.outerFslope), FHTailOf(nd, sl, en), FETailOf(nd, sl, en));
    if bad.Some? {
      return Failure(NegativeDF(bad.value.h, bad.value.f));
    }
    ghost var ints := IntegralsOf(inp, nd, sl, en);
    assert Integrals(fint[..], fg[..], fh[..], fe[..], OuterTailDenominator(sl, en) != 0.0) == ints;
    r := FinishModel(inp.pv, nd, sl, gridH, gridF, fint, fg, fh, fe, OuterTailDenominator(sl, en) != 0.0);
  }

  /** The constructor: the model, or the exception it throws, exactly as Construct describes. */
  method ConstructModel(inp: ModelInput) returns (r: Result<IsotropicModel, CtorError>)
    requires ValidInput(inp)
    ensures r == Construct(inp)
  {
    var n := |inp.gridLogH|;
    var gridH, gridF, gridG, gridE := new real[n], new real[n], new real[n], new real[n];
    var err := EvalNodes(inp, gridH, gridF, gridG, gridE);
    if err.Some? {
      return Failure(err.value);
    }
    var nd := Nodes(gridH[..], gridF[..], gridG[..], gridE[..]);
    assert nd == NodesOf(inp);

    var slopes := BoundarySlopes(inp, nd);
    if slopes.Failure? {
      return Failure(slopes.error);
    }
    var sl := slopes.value;
    gridF[0] := sl.F0;
    gridF[n - 1] := sl.Fn;
    assert gridF[..] == SnappedF(nd, sl);

    var energy := EnergySlopes(inp, nd, sl);
    if energy.Failure? {
      return Failure(energy.error);
    }
    r := IntegrateAndFinish(inp, nd, sl, energy.value, gridH, gridF);
  }
}
