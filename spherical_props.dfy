/**
 * What the SphericalIsotropicModel constructor guarantees about the model it builds,
 * proved about the stage functions of SphericalModel: an accepted distribution function is
 * non-negative at every grid and quadrature node, the integral of f/g to infinity falls
 * with h while the integrals of f, f h/g and -f E up to h grow, the total mass is the last
 * of the latter and is positive, htransition is where the scan stops, and the derivative
 * test can only fail through a zero tail denominator.
 */
module SphericalProperties {
  import opened Wrappers
  import opened Numerics
  import opened CumulativeSums
  import opened SphericalModel

  // ---- non-negativity of the per-segment contributions ----

  /** One quadrature point with f >= 0 adds a non-negative amount to each of the four sums. */
  lemma AccumulateGrows(acc: Quad4, p: QuadPoint)
    requires p.f >= 0.0 && p.h > 0.0 && p.g > 0.0 && p.E < 0.0 && p.weight > 0.0
    ensures var r := Accumulate(acc, p);
      r.f >= acc.f && r.fg >= acc.fg && r.fh >= acc.fh && r.fe >= acc.fe
  {
    var integrand := p.f * p.h * p.weight;
    MulNonNeg(p.f, p.h);
    MulNonNeg(p.f * p.h, p.weight);
    DivNonNeg(integrand, p.g);
    MulNonNeg(integrand / p.g, p.h);
    MulNonNeg(integrand, -p.E);
  }

  lemma {:induction false} SegmentPartialNonNegative(inp: ModelInput, i: nat, k: nat)
    requires ValidInput(inp) && 1 <= i < |inp.gridLogH| && k <= OrderOf(inp, i)
    requires forall m :: 0 <= m < k ==> Point(inp, i, m).f >= 0.0
    ensures var q := SegmentPartial(inp, i, k);
      q.f >= 0.0 && q.fg >= 0.0 && q.fh >= 0.0 && q.fe >= 0.0
    decreases k
  {
    if k > 0 {
      SegmentPartialNonNegative(inp, i, k - 1);
      AccumulateGrows(SegmentPartial(inp, i, k - 1), Point(inp, i, k - 1));
    }
  }

  /** With f >= 0 at every quadrature node, every segment total is non-negative. */
  lemma SegmentsNonNegative(inp: ModelInput)
    requires ValidInput(inp) && FirstBadFrom(inp, 1).None?
    ensures forall s :: 0 <= s < |Segments(inp)| ==>
      Segments(inp)[s].f >= 0.0 && Segments(inp)[s].fg >= 0.0 &&
      Segments(inp)[s].fh >= 0.0 && Segments(inp)[s].fe >= 0.0
  {
    forall s | 0 <= s < |Segments(inp)|
      ensures Segments(inp)[s].f >= 0.0 && Segments(inp)[s].fg >= 0.0 &&
              Segments(inp)[s].fh >= 0.0 && Segments(inp)[s].fe >= 0.0
    {
      SegmentPartialNonNegative(inp, s + 1, OrderOf(inp, s + 1));
    }
  }

  // ---- signs of the analytic parts ----

  /** -(a/b) >= 0 when a >= 0 and b < 0. */
  lemma NegQuotientNonNeg(a: real, b: real)
    requires a >= 0.0 && b < 0.0
    ensures -(a / b) >= 0.0
  {
    DivNonNeg(a, -b);
    assert a / b == -(a / -b);
  }

  /** The end values after snapping: zero, or the node value above MIN_VALUE_ROUNDOFF with the slope limit. */
  lemma SnappedEnds(inp: ModelInput, nd: Nodes, sl: Slopes)
    requires ValidInput(inp) && nd == NodesOf(inp) && BoundarySlopes(inp, nd) == Success(sl)
    ensures sl.F0 == 0.0 || (sl.F0 > 0.0 && sl.innerFslope > -1.0)
    ensures sl.Fn == 0.0 || (sl.Fn > 0.0 && sl.outerFslope < -1.0)
    ensures sl.innerFslope > -1.0
    ensures sl.outerFslope == 0.0 || sl.outerFslope < -1.0
  {
  }

  /** Sign of the outer tails from the end values alone. */
  lemma OuterTailSigns(Fn: real, Hn: real, Gn: real, outerE: real, outerFslope: real, outerEslope: real)
    requires Fn == 0.0 || (Fn > 0.0 && outerFslope < -1.0)
    requires outerFslope == 0.0 || outerFslope < -1.0
    requires Hn > 0.0 && Gn > 0.0 && outerE < 0.0 && outerEslope < 0.0
    ensures FGTail(Fn, Hn, outerFslope) >= 0.0
    ensures var den := 1.0 + outerEslope + outerFslope;
      den != 0.0 ==> FHTail(Fn, Hn, Gn, den) >= 0.0 && FETail(Fn, Hn, outerE, den) >= 0.0
  {
    var den := 1.0 + outerEslope + outerFslope;
    if Fn == 0.0 {
      assert FGTail(Fn, Hn, outerFslope) == 0.0;
      assert den != 0.0 ==> FHTail(Fn, Hn, Gn, den) == 0.0 && FETail(Fn, Hn, outerE, den) == 0.0;
    } else {
      MulNonNeg(Fn, Hn);
      NegQuotientNonNeg(Fn * Hn, 1.0 + outerFslope);
      MulNonNeg(Fn, Hn * Hn);
      DivNonNeg(Fn * (Hn * Hn), Gn);
      NegQuotientNonNeg(Fn * (Hn * Hn) / Gn, den);
      MulNonNeg(Fn * Hn, -outerE);
      NegQuotientNonNeg(Fn * Hn * -outerE, den);
      assert Fn * Hn * outerE / den == -(Fn * Hn * -outerE / den);
    }
  }

  /** The tails beyond the last node are non-negative, and so is each of them when it exists. */
  lemma OuterTailsNonNegative(inp: ModelInput, nd: Nodes, sl: Slopes, en: Energy)
    requires ValidInput(inp) && nd == NodesOf(inp)
    requires BoundarySlopes(inp, nd) == Success(sl) && EnergySlopes(inp, nd, sl) == Success(en)
    ensures en.outerRatio >= 0.0 && FintTail(sl.Fn, en.outerE, en.outerRatio) >= 0.0
    ensures FGTail(sl.Fn, nd.H[|nd.H| - 1], sl.outerFslope) >= 0.0
    ensures FHTailOf(nd, sl, en).Some? ==> FHTailOf(nd, sl, en).value >= 0.0
    ensures FETailOf(nd, sl, en).Some? ==> FETailOf(nd, sl, en).value >= 0.0
  {
    var n := |nd.H|;
    var Hn, Gn := nd.H[n - 1], nd.G[n - 1];
    assert Hn > 0.0 && Gn > 0.0 && en.outerE < 0.0 && en.outerEslope < 0.0;
    SnappedEnds(inp, nd, sl);
    OuterRatioNonNegative(inp, nd, sl, en);
    OuterTailSigns(sl.Fn, Hn, Gn, en.outerE, sl.outerFslope, en.outerEslope);
  }

  /** Sign of the inner parts from the values at the first node alone. */
  lemma InnerTermSigns(F0: real, H0: real, G0: real, innerFslope: real, innerEslope: real,
                       innerE: real, phi0: ExtReal)
    requires F0 >= 0.0 && H0 > 0.0 && G0 > 0.0
    requires 1.0 + innerFslope > 0.0 && 1.0 + innerEslope + innerFslope > 0.0
    requires innerEslope >= 0.0 ==> phi0.Finite? && phi0.v < 0.0
    requires innerEslope < 0.0 ==> innerE < 0.0
    ensures var t := InnerTermsOf(F0, H0, G0, innerFslope, innerEslope, innerE, phi0);
      t.fg0 >= 0.0 && t.fh0 >= 0.0 && t.fe0 >= 0.0
  {
    MulNonNeg(F0, H0);
    DivNonNeg(F0 * H0, 1.0 + innerFslope);
    MulNonNeg(F0, H0 * H0);
    DivNonNeg(F0 * (H0 * H0), G0);
    DivNonNeg(F0 * (H0 * H0) / G0, 1.0 + innerEslope + innerFslope);
    if innerEslope >= 0.0 {
      DivNonNeg(-phi0.v, 1.0 + innerFslope);
      MulNonNeg(F0 * H0, -phi0.v / (1.0 + innerFslope));
    } else {
      DivNonNeg(-innerE, 1.0 + innerFslope + innerEslope);
      MulNonNeg(F0 * H0, -innerE / (1.0 + innerFslope + innerEslope));
    }
  }

  /** The analytic parts below the first node are non-negative. */
  lemma InnerTermsNonNegative(inp: ModelInput, nd: Nodes, sl: Slopes, en: Energy)
    requires ValidInput(inp) && nd == NodesOf(inp)
    requires BoundarySlopes(inp, nd) == Success(sl) && EnergySlopes(inp, nd, sl) == Success(en)
    ensures var t := InnerOf(inp, nd, sl, en); t.fg0 >= 0.0 && t.fh0 >= 0.0 && t.fe0 >= 0.0
  {
    SnappedEnds(inp, nd, sl);
    InnerTermsDefined(inp, nd, sl, en);
    var phi0 := inp.pv.phi0;
    assert en.innerEslope >= 0.0 ==> phi0.Finite? && phi0.v < 0.0;
    assert en.innerEslope < 0.0 ==> phi0.MinusInfinity? && en.innerE < 0.0;
    InnerTermSigns(sl.F0, nd.H[0], nd.G[0], sl.innerFslope, en.innerEslope, en.innerE, phi0);
  }

  // ---- shape of the cumulative integrals ----

  predicate NonDecreasing(a: seq<real>)
  {
    forall i, j :: 0 <= i <= j < |a| ==> a[i] <= a[j]
  }

  predicate NonIncreasing(a: seq<real>)
  {
    forall i, j :: 0 <= i <= j < |a| ==> a[i] >= a[j]
  }

  predicate NonNegative(a: seq<real>)
  {
    forall i :: 0 <= i < |a| ==> a[i] >= 0.0
  }

  /** Raising the last entry of a non-decreasing, non-negative sequence keeps both properties. */
  lemma AddTailKeepsShape(a: seq<real>, tail: Option<real>)
    requires |a| > 0 && NonDecreasing(a) && NonNegative(a)
    requires tail.Some? ==> tail.value >= 0.0
    ensures NonDecreasing(AddTail(a, tail)) && NonNegative(AddTail(a, tail))
  {
    var r := AddTail(a, tail);
    forall i, j | 0 <= i <= j < |r|
      ensures r[i] <= r[j]
    {
      if i < |a| - 1 {
        assert r[i] == r[..|a| - 1][i] == a[i];
      }
      if j < |a| - 1 {
        assert r[j] == r[..|a| - 1][j] == a[j];
      }
    }
    forall i | 0 <= i < |r|
      ensures r[i] >= 0.0
    {
      if i < |a| - 1 {
        assert r[i] == r[..|a| - 1][i] == a[i];
      }
    }
  }

  /** The terms before the prefix pass are non-negative. */
  lemma PrefixTermsNonNegative(segs: seq<Quad4>, t: InnerTerms)
    requires forall s :: 0 <= s < |segs| ==> segs[s].fg >= 0.0 && segs[s].fh >= 0.0 && segs[s].fe >= 0.0
    requires t.fg0 >= 0.0 && t.fh0 >= 0.0 && t.fe0 >= 0.0
    ensures NonNegative(FGTerms(segs, t.fg0)) && NonNegative(FHTerms(segs, t.fh0)) && NonNegative(FETerms(segs, t.fe0))
  {
  }

  /**
   * With f >= 0 at every quadrature node, the integral of f/g from h to infinity is non-negative
   * and non-increasing along the grid, and the integrals of f, f h/g and -f E from 0 to h are
   * non-negative and non-decreasing.
   */
  lemma IntegralsShape(inp: ModelInput, nd: Nodes, sl: Slopes, en: Energy)
    requires ValidInput(inp) && nd == NodesOf(inp)
    requires BoundarySlopes(inp, nd) == Success(sl) && EnergySlopes(inp, nd, sl) == Success(en)
    requires FirstBadFrom(inp, 1).None?
    ensures var ints := IntegralsOf(inp, nd, sl, en);
      NonIncreasing(ints.fint) && NonNegative(ints.fint) &&
      NonDecreasing(ints.fg) && NonNegative(ints.fg) &&
      NonDecreasing(ints.fh) && NonNegative(ints.fh) &&
      NonDecreasing(ints.fe) && NonNegative(ints.fe)
  {
    FintShape(inp, nd, sl, en);
    FGShape(inp, nd, sl, en);
    FHShape(inp, nd, sl, en);
    FEShape(inp, nd, sl, en);
  }

  lemma FintShape(inp: ModelInput, nd: Nodes, sl: Slopes, en: Energy)
    requires ValidInput(inp) && nd == NodesOf(inp)
    requires BoundarySlopes(inp, nd) == Success(sl) && EnergySlopes(inp, nd, sl) == Success(en)
    requires FirstBadFrom(inp, 1).None?
    ensures var fint := IntegralsOf(inp, nd, sl, en).fint; NonIncreasing(fint) && NonNegative(fint)
  {
    var segs := Segments(inp);
    SegmentsNonNegative(inp);
    OuterTailsNonNegative(inp, nd, sl, en);
    var fintTerms := FintTerms(segs, FintTail(sl.Fn, en.outerE, en.outerRatio));
    SuffixSumsMonotone(fintTerms);
    assert FintOf(inp, nd, sl, en) == SuffixSums(fintTerms);
  }

  lemma FGShape(inp: ModelInput, nd: Nodes, sl: Slopes, en: Energy)
    requires ValidInput(inp) && nd == NodesOf(inp)
    requires BoundarySlopes(inp, nd) == Success(sl) && EnergySlopes(inp, nd, sl) == Success(en)
    requires FirstBadFrom(inp, 1).None?
    ensures var fg := IntegralsOf(inp, nd, sl, en).fg; NonDecreasing(fg) && NonNegative(fg)
  {
    var segs := Segments(inp);
    var n := |inp.gridLogH|;
    SegmentsNonNegative(inp);
    OuterTailsNonNegative(inp, nd, sl, en);
    InnerTermsNonNegative(inp, nd, sl, en);
    var t := InnerOf(inp, nd, sl, en);
    PrefixTermsNonNegative(segs, t);
    var fgSums := PrefixSums(FGTerms(segs, t.fg0));
    PrefixSumsNonNegative(FGTerms(segs, t.fg0));
    AddTailKeepsShape(fgSums, Some(FGTail(sl.Fn, nd.H[n - 1], sl.outerFslope)));
    assert FGOf(inp, nd, sl, en) == AddTail(fgSums, Some(FGTail(sl.Fn, nd.H[n - 1], sl.outerFslope)));
  }

  lemma FHShape(inp: ModelInput, nd: Nodes, sl: Slopes, en: Energy)
    requires ValidInput(inp) && nd == NodesOf(inp)
    requires BoundarySlopes(inp, nd) == Success(sl) && EnergySlopes(inp, nd, sl) == Success(en)
    requires FirstBadFrom(inp, 1).None?
    ensures var fh := IntegralsOf(inp, nd, sl, en).fh; NonDecreasing(fh) && NonNegative(fh)
  {
    var segs := Segments(inp);
    SegmentsNonNegative(inp);
    OuterTailsNonNegative(inp, nd, sl, en);
    InnerTermsNonNegative(inp, nd, sl, en);
    var t := InnerOf(inp, nd, sl, en);
    PrefixTermsNonNegative(segs, t);
    PrefixSumsNonNegative(FHTerms(segs, t.fh0));
    AddTailKeepsShape(PrefixSums(FHTerms(segs, t.fh0)), FHTailOf(nd, sl, en));
  }

  lemma FEShape(inp: ModelInput, nd: Nodes, sl: Slopes, en: Energy)
    requires ValidInput(inp) && nd == NodesOf(inp)
    requires BoundarySlopes(inp, nd) == Success(sl) && EnergySlopes(inp, nd, sl) == Success(en)
    requires FirstBadFrom(inp, 1).None?
    ensures var fe := IntegralsOf(inp, nd, sl, en).fe; NonDecreasing(fe) && NonNegative(fe)
  {
    var segs := Segments(inp);
    SegmentsNonNegative(inp);
    OuterTailsNonNegative(inp, nd, sl, en);
    InnerTermsNonNegative(inp, nd, sl, en);
    var t := InnerOf(inp, nd, sl, en);
    PrefixTermsNonNegative(segs, t);
    PrefixSumsNonNegative(FETerms(segs, t.fe0));
    AddTailKeepsShape(PrefixSums(FETerms(segs, t.fe0)), FETailOf(nd, sl, en));
  }

  // ---- the htransition scan ----

  lemma {:induction false} HTransitionStops(H: seq<real>, fg: seq<real>, M: real, i: nat)
    requires |H| == |fg| && 1 <= i <= |H| - 1
    ensures exists k ::
      i - 1 <= k <= |H| - 2 && HTransitionFrom(H, fg, M, i, H[i - 1]) == H[k] &&
      (forall j :: i + 1 <= j <= k + 1 ==> fg[j] < M * 0.999) &&
      (k + 2 < |H| ==> fg[k + 2] >= M * 0.999)
    decreases |H| - i
  {
    if i + 1 < |H| && fg[i + 1] < M * 0.999 {
      HTransitionStops(H, fg, M, i + 1);
      var k :| i <= k <= |H| - 2 && HTransitionFrom(H, fg, M, i + 1, H[i]) == H[k] &&
        (forall j :: i + 2 <= j <= k + 1 ==> fg[j] < M * 0.999) &&
        (k + 2 < |H| ==> fg[k + 2] >= M * 0.999);
      assert HTransitionFrom(H, fg, M, i, H[i - 1]) == H[k];
    } else {
      assert HTransitionFrom(H, fg, M, i, H[i - 1]) == H[i - 1];
    }
  }

  /**
   * htransition is H[k] for the k <= n-2 at which the scan stops: fg[j] < 0.999 M for every j
   * in 2..k+1 and not for k+2 (unless k = n-2). With fg non-decreasing, no later index passes either,
   * so k is the largest index whose successor is below 0.999 M; if fg[2] already reaches it, k = 0.
   */
  lemma HTransitionIsLastBelow(H: seq<real>, fg: seq<real>, M: real)
    requires |H| == |fg| >= 2
    ensures exists k ::
      0 <= k <= |H| - 2 && HTransitionFrom(H, fg, M, 1, H[0]) == H[k] &&
      (forall j :: 2 <= j <= k + 1 ==> fg[j] < M * 0.999) &&
      (k + 2 < |H| ==> fg[k + 2] >= M * 0.999) &&
      (NonDecreasing(fg) ==> forall j :: k + 2 <= j < |H| ==> fg[j] >= M * 0.999)
  {
    HTransitionStops(H, fg, M, 1);
    var k :| 0 <= k <= |H| - 2 && HTransitionFrom(H, fg, M, 1, H[0]) == H[k] &&
      (forall j :: 2 <= j <= k + 1 ==> fg[j] < M * 0.999) &&
      (k + 2 < |H| ==> fg[k + 2] >= M * 0.999);
    if NonDecreasing(fg) {
      forall j | k + 2 <= j < |H|
        ensures fg[j] >= M * 0.999
      {
        assert fg[k + 2] <= fg[j];
      }
    }
  }

  // ---- the derivative test ----

  /** -f/g <= 0, f h/g >= 0 and -f E >= 0 at a node with f >= 0. */
  lemma DerivativeSigns(f: real, h: real, g: real, e: real)
    requires f >= 0.0 && h > 0.0 && g > 0.0 && e < 0.0
    ensures -f / g <= 0.0 && f * h / g >= 0.0 && -f * e >= 0.0
  {
    DivNonNeg(f, g);
    assert -f / g == -(f / g);
    MulNonNeg(f, h);
    DivNonNeg(f * h, g);
    MulNonNeg(f, -e);
  }

  /** With f >= 0, g > 0 and E < 0 at every node, the test fails exactly when the outer tails are not finite. */
  lemma DerivativeTestOnlyTail(F: seq<real>, nd: Nodes, ints: Integrals)
    requires |F| == |nd.H| == |nd.G| == |nd.E| > 0
    requires forall i :: 0 <= i < |F| ==> F[i] >= 0.0 && nd.H[i] > 0.0 && nd.G[i] > 0.0 && nd.E[i] < 0.0
    ensures DerivativesOk(F, nd, ints) <==> ints.finiteTail
  {
    var n := |F|;
    forall i | 0 <= i < n
      ensures FDerAt(F, nd, i) <= 0.0 && FHDerAt(F, nd, i) >= 0.0 && FEDerAt(F, nd, i) >= 0.0
    {
      DerivativeSigns(F[i], nd.H[i], nd.G[i], nd.E[i]);
    }
    if !ints.finiteTail {
      assert !DerivativesOkAt(F, nd, ints, n - 1);
    }
  }

  /** The snapped values of f are non-negative once f >= 0 at every node. */
  lemma SnappedNonNegative(inp: ModelInput, nd: Nodes, sl: Slopes)
    requires ValidInput(inp) && nd == NodesOf(inp) && BoundarySlopes(inp, nd) == Success(sl)
    requires FirstNegative(nd.F, 0).None?
    ensures forall i :: 0 <= i < |nd.F| ==> SnappedF(nd, sl)[i] >= 0.0
  {
    SnappedEnds(inp, nd, sl);
  }

  /**
   * Once f >= 0 at every node, the derivative signs always pass (-f/g <= 0, f h/g >= 0, -f E >= 0),
   * so the test fails exactly when the outer tails are not finite.
   */
  lemma DerivativesOkIffFiniteTail(inp: ModelInput, nd: Nodes, sl: Slopes, ints: Integrals)
    requires ValidInput(inp) && nd == NodesOf(inp) && BoundarySlopes(inp, nd) == Success(sl)
    requires FirstNegative(nd.F, 0).None?
    ensures DerivativesOk(SnappedF(nd, sl), nd, ints) <==> ints.finiteTail
  {
    SnappedNonNegative(inp, nd, sl);
    DerivativeTestOnlyTail(SnappedF(nd, sl), nd, ints);
  }

  // ---- the constructor as a whole ----

  /** An accepted model had f >= 0 at every grid node and at every quadrature node. */
  lemma ConstructAcceptsOnlyNonNegative(inp: ModelInput)
    requires ValidInput(inp) && Construct(inp).Success?
    ensures forall i :: 0 <= i < |inp.gridLogH| ==> inp.df.f(inp.exp(inp.gridLogH[i])) >= 0.0
    ensures forall s, m :: 1 <= s < |inp.gridLogH| && 0 <= m < OrderOf(inp, s) ==> Point(inp, s, m).f >= 0.0
  {
    var nd := NodesOf(inp);
    assert FirstNegative(nd.F, 0).None?;
    var sl := BoundarySlopes(inp, nd).value;
    var en := EnergySlopes(inp, nd, sl).value;
    assert AfterEnergy(inp, nd, sl, en).Success?;
  }

  /** A negative f at a grid node makes the constructor throw, reporting the first such node. */
  lemma ConstructRejectsNegativeNode(inp: ModelInput, i: nat)
    requires ValidInput(inp) && i < |inp.gridLogH| && inp.df.f(inp.exp(inp.gridLogH[i])) < 0.0
    ensures Construct(inp).Failure? && Construct(inp).error.NegativeDF? && Construct(inp).error.f < 0.0
  {
    var nd := NodesOf(inp);
    assert nd.F[i] < 0.0;
    assert FirstNegative(nd.F, 0).Some?;
  }

  /**
   * The accepted model: the total mass is the last value of the integral of f and is positive,
   * the integral of f/g is non-negative and non-increasing over the grid, the other three
   * integrals are non-negative and non-decreasing, and all four splines share the grid in h.
   */
  lemma ConstructedModelShape(inp: ModelInput)
    requires ValidInput(inp) && Construct(inp).Success?
    ensures var m := Construct(inp).value; var n := |inp.gridLogH|;
      |m.intf.ys| == |m.intfg.ys| == |m.intfh.ys| == |m.intfE.ys| == n && m.phasevol == inp.pv &&
      m.totalMass == m.intfg.ys[n - 1] && m.totalMass > 0.0 &&
      m.intf.xs == m.intfg.xs == m.intfh.xs == m.intfE.xs == NodesOf(inp).H &&
      NonIncreasing(m.intf.ys) && NonNegative(m.intf.ys) &&
      NonDecreasing(m.intfg.ys) && NonNegative(m.intfg.ys) &&
      NonDecreasing(m.intfh.ys) && NonNegative(m.intfh.ys) &&
      NonDecreasing(m.intfE.ys) && NonNegative(m.intfE.ys)
  {
    var nd, sl, en := ConstructAccepted(inp);
    IntegralsShape(inp, nd, sl, en);
    FinishedSplines(inp.pv, nd, sl, IntegralsOf(inp, nd, sl, en));
  }

  /** The model Finish accepts interpolates the four integrals over the grid in h, with their last fg as the mass. */
  lemma FinishedSplines(pv: PhaseVolume, nd: Nodes, sl: Slopes, ints: Integrals)
    requires FinishInput(nd, ints) && Finish(pv, nd, sl, ints).Success?
    ensures var m := Finish(pv, nd, sl, ints).value;
      m.phasevol == pv && m.totalMass == ints.fg[|nd.H| - 1] && m.totalMass > 0.0 &&
      m.intf.xs == m.intfg.xs == m.intfh.xs == m.intfE.xs == nd.H &&
      m.intf.ys == ints.fint && m.intfg.ys == ints.fg && m.intfh.ys == ints.fh && m.intfE.ys == ints.fe
  {
  }

  /** An accepted construction passed every check, and its model is what Finish builds from the stages. */
  lemma ConstructAccepted(inp: ModelInput) returns (nd: Nodes, sl: Slopes, en: Energy)
    requires ValidInput(inp) && Construct(inp).Success?
    ensures nd == NodesOf(inp) && FirstNegative(nd.F, 0).None?
    ensures BoundarySlopes(inp, nd) == Success(sl) && EnergySlopes(inp, nd, sl) == Success(en)
    ensures FirstBadFrom(inp, 1).None? && AfterEnergy(inp, nd, sl, en) == Construct(inp)
    ensures FinishInput(nd, IntegralsOf(inp, nd, sl, en)) &&
      Construct(inp) == Finish(inp.pv, nd, sl, IntegralsOf(inp, nd, sl, en))
  {
    nd := NodesOf(inp);
    sl := BoundarySlopes(inp, nd).value;
    en := EnergySlopes(inp, nd, sl).value;
  }

  /**
   * After the energy checks the constructor reports invalid interpolators exactly when every
   * quadrature node has f >= 0, the mass is positive and the denominator 1 + outerEslope + outerFslope
   * of the outer tails is zero.
   */
  lemma InvalidInterpolatorsOnlyFromTail(inp: ModelInput, nd: Nodes, sl: Slopes, en: Energy)
    requires ValidInput(inp) && nd == NodesOf(inp) && FirstNegative(nd.F, 0).None?
    requires BoundarySlopes(inp, nd) == Success(sl) && EnergySlopes(inp, nd, sl) == Success(en)
    ensures AfterEnergy(inp, nd, sl, en) == Failure(InvalidInterpolators) <==>
      FirstBadFrom(inp, 1).None? && IntegralsOf(inp, nd, sl, en).fg[|nd.H| - 1] > 0.0 &&
      OuterTailDenominator(sl, en) == 0.0
  {
    if FirstBadFrom(inp, 1).None? {
      DerivativesOkIffFiniteTail(inp, nd, sl, IntegralsOf(inp, nd, sl, en));
    }
  }

  /** The accepted model's htransition is where the scan of the integral of f stops. */
  lemma ConstructedHTransition(inp: ModelInput)
    requires ValidInput(inp) && Construct(inp).Success?
    ensures var m := Construct(inp).value; var H := NodesOf(inp).H; var fg := m.intfg.ys;
      |fg| == |H| &&
      exists k :: 0 <= k <= |H| - 2 && m.htransition == H[k] &&
        (forall j :: 2 <= j <= k + 1 ==> fg[j] < m.totalMass * 0.999) &&
        (forall j :: k + 2 <= j < |H| ==> fg[j] >= m.totalMass * 0.999)
  {
    var nd, sl, en := ConstructAccepted(inp);
    IntegralsShape(inp, nd, sl, en);
    FinishedHTransition(inp.pv, nd, sl, IntegralsOf(inp, nd, sl, en));
  }

  /** In the model Finish accepts from a non-decreasing integral of f, htransition is where the scan stops. */
  lemma FinishedHTransition(pv: PhaseVolume, nd: Nodes, sl: Slopes, ints: Integrals)
    requires FinishInput(nd, ints) && NonDecreasing(ints.fg) && Finish(pv, nd, sl, ints).Success?
    ensures var m := Finish(pv, nd, sl, ints).value; var H := nd.H; var fg := m.intfg.ys;
      |fg| == |H| &&
      exists k :: 0 <= k <= |H| - 2 && m.htransition == H[k] &&
        (forall j :: 2 <= j <= k + 1 ==> fg[j] < m.totalMass * 0.999) &&
        (forall j :: k + 2 <= j < |H| ==> fg[j] >= m.totalMass * 0.999)
  {
    var fg, M := ints.fg, ints.fg[|nd.H| - 1];
    HTransitionIsLastBelow(nd.H, fg, M);
    var m := Finish(pv, nd, sl, ints).value;
    assert m.intfg.ys == fg && m.totalMass == M && m.htransition == HTransitionFrom(nd.H, fg, M, 1, nd.H[0]);
  }
}
