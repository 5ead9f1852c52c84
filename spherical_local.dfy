/**
 * The extended spherical model with position-dependent diffusion coefficients
 * (src/galaxymodel_spherical.cpp, SphericalIsotropicModelLocal): the preparation of the grid in
 * X = log h(Phi), the asymptotic checks at large h, the tables of log(J1/J0) and log(J3/J0) on the
 * grid (X, Y = log h(E)/h(Phi)) with their fail-safe values, and the local queries built on the
 * two 2d splines through those tables.
 *
 * The quadratures, the hypergeometric function, gamma, pow, the non-uniform grid in Y and the 2d
 * spline evaluation are values of function type; the facts relied on about them are stated in
 * ValidLocalInput.
 */
module SphericalLocal {
  import opened Wrappers
  import opened Numerics
  import SM = SphericalModel
  import opened SphericalQueries

  /** Number of nodes of the grid in Y. */
  const NPOINTS_Y: nat := 100
  /** The C library constant M_SQRTPI (sqrt of pi). */
  const SQRTPI: real := 1.77245385090551602729
  /** J1/J0 and J3/J0 in the limit E = Phi, also the fail-safe values. */
  const J1_LIMIT: real := 2.0 / 3.0
  const J3_LIMIT: real := 2.0 / 5.0

  /**
   * The numerics init calls besides those of the base model: the automatic grid in log h (used
   * when no grid is given), the non-uniform grid in Y for a minimal step and an extent, the
   * Gauss-Legendre integrals of f (dE/dy) (E - Phi)^(n/2) over a segment [a, b] in log h for
   * log h(Phi) = x, with the cubic scaling (firstJ) or without (segJ), the hypergeometric
   * function 2F1 (None when its value is not finite), gamma, pow, and deltaE(log h1, log h2) =
   * E(h1) - E(h2).
   */
  datatype LocalInput = LocalInput(df: SM.DistributionFunction, exp: real -> real, log: real -> real,
                                   sqrt: real -> real, pow: (real, real) -> real, gamma: real -> real,
                                   hypergeom: (real, real, real, real) -> Option<real>,
                                   autoGrid: seq<real>, nonuniformGrid: (real, real) -> seq<real>,
                                   firstJ: (nat, real, real, real) -> real,
                                   segJ: (nat, real, real, real) -> real,
                                   deltaE: (real, real) -> real)

  ghost predicate ValidLocalInput(inp: LocalInput, m: SM.IsotropicModel)
  {
    PositiveFunction(inp.exp) && SqrtLike(inp.sqrt) && ValidPhaseVolume(m.phasevol) &&
    (forall x :: x > 0.0 ==> inp.gamma(x) > 0.0) &&
    (forall a, b :: |inp.nonuniformGrid(a, b)| == NPOINTS_Y)
  }

  /** The exceptions init and the queries throw. */
  datatype LocalError =
    | NowherePositive      // fewer than three nodes left after trimming
    | FallsOffTooSlowly    // outer slope of f not below -1
    | WeirdPhaseVolume     // outerFslope / outerEslope not positive
    | IncompatibleEPhi     // evalLocal: not Phi < 0 <= ... h(E) >= h(Phi)
    | InvalidPhi           // Phi not negative

  /** A 2d interpolating spline on the grid xs x ys through the values zs[i][j]. */
  datatype Spline2d = Spline2d(xs: seq<real>, ys: seq<real>, zs: seq<seq<real>>)

  /** The base model extended with the splines of log(J1/J0) and log(J3/J0). */
  datatype LocalModel = LocalModel(base: SM.IsotropicModel, intJ1: Spline2d, intJ3: Spline2d)

  // ---- the grid in X = log h ----

  /** The node values log h of a given grid, filled in place as the source does. */
  method LogGrid(log: real -> real, gridh: seq<real>) returns (r: seq<real>)
    ensures |r| == |gridh| && forall i :: 0 <= i < |gridh| ==> r[i] == log(gridh[i])
  {
    var a := new real[|gridh|];
    for i := 0 to |gridh|
      invariant forall i' :: 0 <= i' < i ==> a[i'] == log(gridh[i'])
    {
      a[i] := log(gridh[i]);
    }
    r := a[..];
  }

  /** f at the node log h = x is at or below the round-off threshold. */
  predicate NegligibleAt(inp: LocalInput, x: real)
  {
    inp.df.f(inp.exp(x)) <= MIN_VALUE_ROUNDOFF
  }

  /** The grid with its trailing nodes of negligible f removed, so that f(hmax) > 0. */
  function Trimmed(inp: LocalInput, L: seq<real>): seq<real>
    decreases |L|
  {
    if |L| == 0 then [] else if NegligibleAt(inp, L[|L| - 1]) then Trimmed(inp, L[..|L| - 1]) else L
  }

  /**
   * Trimming removes exactly the longest suffix of negligible nodes: the result is a prefix, its
   * last node is not negligible, and every removed node is.
   */
  lemma {:induction false} TrimmedIsMaximalPrefix(inp: LocalInput, L: seq<real>)
    ensures var t := Trimmed(inp, L);
      |t| <= |L| && t == L[..|t|] &&
      (|t| > 0 ==> !NegligibleAt(inp, t[|t| - 1])) &&
      (forall k :: |t| <= k < |L| ==> NegligibleAt(inp, L[k]))
    decreases |L|
  {
    if |L| > 0 && NegligibleAt(inp, L[|L| - 1]) {
      var L' := L[..|L| - 1];
      TrimmedIsMaximalPrefix(inp, L');
      var t := Trimmed(inp, L');
      assert t == L'[..|t|] == L[..|t|];
      forall k | |t| <= k < |L|
        ensures NegligibleAt(inp, L[k])
      {
        if k < |L| - 1 {
          assert L[k] == L'[k];
        }
      }
    }
  }

  /** Trimming twice changes nothing. */
  lemma {:induction false} TrimmedIdempotent(inp: LocalInput, L: seq<real>)
    ensures Trimmed(inp, Trimmed(inp, L)) == Trimmed(inp, L)
    decreases |L|
  {
    if |L| > 0 && NegligibleAt(inp, L[|L| - 1]) {
      TrimmedIdempotent(inp, L[..|L| - 1]);
    }
  }

  /** The pop_back loop. */
  method TrimGrid(inp: LocalInput, L: seq<real>) returns (r: seq<real>)
    ensures r == Trimmed(inp, L)
  {
    r := L;
    while |r| > 0 && NegligibleAt(inp, r[|r| - 1])
      invariant Trimmed(inp, r) == Trimmed(inp, L)
    {
      r := r[..|r| - 1];
    }
  }

  // ---- asymptotic behaviour at large h ----

  /**
   * outerFslope: from the derivative if f provides one, else by finite difference over the last
   * two nodes, which init does not require to increase. A zero f at the previous node makes the
   * ratio +infinity, so the slope is +infinity over a rising last step and -infinity over a falling
   * one. A negative f there (the log of a negative ratio) and two equal last nodes (0/0) give NaN.
   * NaN fails the slope test as +infinity does, and is written PlusInfinity here.
   */
  function OuterFslope(inp: LocalInput, L: seq<real>): ExtReal
    requires |L| >= 2 && !NegligibleAt(inp, L[|L| - 1])
  {
    var n := |L|;
    var outerH := inp.exp(L[n - 1]);
    var val := inp.df.f(outerH);
    match inp.df.deriv
    case Some(d) => Finite(d(outerH) / val * outerH)
    case None =>
      var prev := inp.df.f(inp.exp(L[n - 2]));
      var step := L[n - 1] - L[n - 2];
      if prev > 0.0 && step != 0.0 then Finite(inp.log(val / prev) / step)
      else if prev == 0.0 && step < 0.0 then MinusInfinity
      else PlusInfinity
  }

  datatype Asymptotics = Asymptotics(outerE: real, outerEslope: real, outerRatio: real, outerJ1: real,
                                     outerJ3: real)

  /**
   * The checks of init at large h: the slope of f must be below -1, and its ratio to
   * outerEslope = h / g / E positive; then the limits of J1/J0 and J3/J0 as Phi --> 0.
   */
  function AsymptoticsOf(inp: LocalInput, m: SM.IsotropicModel, L: seq<real>): (r: Result<Asymptotics, LocalError>)
    requires ValidLocalInput(inp, m) && |L| >= 2 && !NegligibleAt(inp, L[|L| - 1])
    ensures r.Success? <==> OuterFslope(inp, L).Finite? && OuterFslope(inp, L).v < -1.0
    ensures r.Failure? ==> r.error == FallsOffTooSlowly
    ensures inp.df.deriv.None? && L[|L| - 2] == L[|L| - 1] ==> r == Failure(FallsOffTooSlowly)
    ensures r.Success? ==> r.value.outerRatio > 0.0 && r.value.outerEslope < 0.0 && r.value.outerE < 0.0
  {
    var n := |L|;
    var outerH := inp.exp(L[n - 1]);
    var outerG, outerE := m.phasevol.G(outerH), m.phasevol.E(outerH);
    var slope := OuterFslope(inp, L);
    if !(slope.Finite? && slope.v < -1.0) then Failure(FallsOffTooSlowly)
    else
      SM.EnergySlopeSign(outerH, outerG, outerE);
      var outerEslope := outerH / outerG / outerE;
      var outerRatio := slope.v / outerEslope;
      if !(outerRatio > 0.0) then Failure(WeirdPhaseVolume)
      else
        assert inp.gamma(2.5 + outerRatio) > 0.0;
        var outerJ1 := 0.5 * SQRTPI * inp.gamma(2.0 + outerRatio) / inp.gamma(2.5 + outerRatio);
        Success(Asymptotics(outerE, outerEslope, outerRatio, outerJ1, outerJ1 * 1.5 / (2.5 + outerRatio)))
  }

  /**
   * A falling last step onto a node where f is exactly 0, with no derivative of f: the slope is
   * -infinity and passes the test slope < -1, after which the source goes on with an infinite
   * outerRatio. The model stops there with "falls off too slowly" instead.
   */
  lemma FallingStepOntoZero(inp: LocalInput, m: SM.IsotropicModel, L: seq<real>)
    requires ValidLocalInput(inp, m) && |L| >= 2 && !NegligibleAt(inp, L[|L| - 1])
    requires inp.df.deriv.None? && inp.df.f(inp.exp(L[|L| - 2])) == 0.0 && L[|L| - 1] < L[|L| - 2]
    ensures OuterFslope(inp, L) == MinusInfinity && ExtLess(OuterFslope(inp, L), Finite(-1.0))
    ensures AsymptoticsOf(inp, m, L) == Failure(FallsOffTooSlowly)
  {
  }

  /**
   * The check outerRatio > 0 never fires on real numbers: a slope below -1 divided by the
   * negative slope of E(h) is positive. Only a NaN could reach that exception.
   */
  lemma WeirdPhaseVolumeUnreachable(inp: LocalInput, m: SM.IsotropicModel, L: seq<real>, slope: real)
    requires ValidLocalInput(inp, m) && |L| >= 2 && slope < -1.0
    ensures var outerH := inp.exp(L[|L| - 1]); var g, e := m.phasevol.G(outerH), m.phasevol.E(outerH);
      outerH > 0.0 && g > 0.0 && e < 0.0 && slope / (outerH / g / e) > 0.0
  {
    var x := L[|L| - 1];
    var outerH := inp.exp(x);
    assert outerH > 0.0;
    var g, e := m.phasevol.G(outerH), m.phasevol.E(outerH);
    assert g > 0.0 && e < 0.0;
    SM.EnergySlopeSign(outerH, g, e);
    var es := outerH / g / e;
    assert -slope > 0.0 && -es > 0.0;
    DivPos(-slope, -es);
    assert slope / es == (-slope) / (-es);
  }

  // ---- the tables of J1/J0 and J3/J0 ----

  /** Everything the tabulation reads once the grids and the asymptotics are fixed. */
  datatype Tabulation = Tabulation(inp: LocalInput, m: SM.IsotropicModel, ev: SplineEval, L: seq<real>,
                                   Y: seq<real>, asym: Asymptotics)

  ghost predicate ValidTabulation(c: Tabulation)
  {
    ValidLocalInput(c.inp, c.m) && |c.L| >= 1 && |c.Y| == NPOINTS_Y
  }

  /** The three accumulators J0acc, J1acc, J3acc. */
  datatype JAcc = JAcc(j0: real, j1: real, j3: real)

  /** The integrals over segment j >= 2 of Y in row i. */
  function SegJ(c: Tabulation, i: nat, j: nat): JAcc
    requires i < |c.L| && 1 <= j < |c.Y|
  {
    var x, a, b := c.L[i], c.L[i] + c.Y[j - 1], c.L[i] + c.Y[j];
    JAcc(c.inp.segJ(0, x, a, b), c.inp.segJ(1, x, a, b), c.inp.segJ(3, x, a, b))
  }

  /** The integrals over the first segment, with the cubic scaling for the endpoint singularity. */
  function FirstJ(c: Tabulation, i: nat): JAcc
    requires i < |c.L| && 2 <= |c.Y|
  {
    var x, a, b := c.L[i], c.L[i] + c.Y[0], c.L[i] + c.Y[1];
    JAcc(c.inp.firstJ(0, x, a, b), c.inp.firstJ(1, x, a, b), c.inp.firstJ(3, x, a, b))
  }

  /** The analytic accumulators of the last row, None when a hypergeometric value is not finite. */
  function Analytic(c: Tabulation, i: nat, j: nat): Option<JAcc>
    requires i < |c.L| && j < |c.Y|
  {
    var ratio := c.asym.outerRatio;
    var EoverPhi := c.inp.exp(c.Y[j] * c.asym.outerEslope);
    var oneMinusJ0overI0 := c.inp.pow(EoverPhi, 1.0 + ratio);
    var F1 := c.inp.hypergeom(-0.5, 1.0 + ratio, 2.0 + ratio, EoverPhi);
    var F3 := c.inp.hypergeom(-1.5, 1.0 + ratio, 2.0 + ratio, EoverPhi);
    var I := I0(c.m, c.ev, c.inp.exp(c.L[i]));
    var sqPhi := c.inp.sqrt(-c.asym.outerE);
    if F1.Some? && F3.Some? then
      Some(JAcc(I * (1.0 - oneMinusJ0overI0), I * (c.asym.outerJ1 - oneMinusJ0overI0 * F1.value) * sqPhi,
                I * (c.asym.outerJ3 - oneMinusJ0overI0 * F3.value) * (sqPhi * sqPhi * sqPhi)))
    else None
  }

  /**
   * The accumulators after segment j of row i: the first segment sets them, later ones add to
   * them, and in the last row finite analytic values replace them (later segments then add to
   * the replaced values).
   */
  function Acc(c: Tabulation, i: nat, j: nat): JAcc
    requires i < |c.L| && 1 <= j < |c.Y|
    decreases j
  {
    var base :=
      if j == 1 then FirstJ(c, i)
      else
        var p, s := Acc(c, i, j - 1), SegJ(c, i, j);
        JAcc(p.j0 + s.j0, p.j1 + s.j1, p.j3 + s.j3);
    if i == |c.L| - 1 && Analytic(c, i, j).Some? then Analytic(c, i, j).value else base
  }

  /** J1/J0 / dv and J3/J0 / dv^3 from the accumulators (pow_3 written as three divisions). */
  function Computed(a: JAcc, dv: real): (real, real)
    requires a.j0 != 0.0 && dv != 0.0
  {
    (a.j1 / a.j0 / dv, a.j3 / a.j0 / dv / dv / dv)
  }

  /** dv = sqrt(E - Phi) at node (i, j), from deltaE in log h. */
  function DeltaE(c: Tabulation, i: nat, j: nat): real
    requires i < |c.L| && j < |c.Y|
  {
    c.inp.deltaE(c.L[i] + c.Y[j], c.L[i])
  }

  /** The computed ratios are usable: no division by zero, no square root of a negative number. */
  predicate Usable(a: JAcc, de: real, dv: real)
  {
    a.j0 != 0.0 && de >= 0.0 && dv != 0.0
  }

  /**
   * J1/J0 and J3/J0 at node (i, j). Wherever the computed ratios are not positive and finite
   * (J0 = 0, E - Phi <= 0) the fail-safe values of E = Phi are used, so the log taken of them is
   * always of a positive number.
   */
  function Ratios(c: Tabulation, i: nat, j: nat): (r: (real, real))
    requires i < |c.L| && j < |c.Y|
    ensures r.0 > 0.0 && r.1 > 0.0
    ensures j == 0 ==> r == (J1_LIMIT, J3_LIMIT)
  {
    if j == 0 then (J1_LIMIT, J3_LIMIT)
    else
      var a, de := Acc(c, i, j), DeltaE(c, i, j);
      var dv := c.inp.sqrt(de);
      if !Usable(a, de, dv) then (J1_LIMIT, J3_LIMIT)
      else
        var q := Computed(a, dv);
        if q.0 <= 0.0 || q.1 <= 0.0 then (J1_LIMIT, J3_LIMIT) else q
  }

  /** The ratios are the computed ones exactly when those are usable and positive. */
  lemma RatiosFailSafe(c: Tabulation, i: nat, j: nat)
    requires i < |c.L| && 1 <= j < |c.Y|
    ensures var a, de := Acc(c, i, j), DeltaE(c, i, j); var dv := c.inp.sqrt(de);
      if Usable(a, de, dv) && Computed(a, dv).0 > 0.0 && Computed(a, dv).1 > 0.0
      then Ratios(c, i, j) == Computed(a, dv)
      else Ratios(c, i, j) == (J1_LIMIT, J3_LIMIT)
  {
  }

  /** The entries stored in the two tables at node (i, j). */
  function Entry1(c: Tabulation, i: nat, j: nat): real
    requires i < |c.L| && j < |c.Y|
  {
    c.inp.log(Ratios(c, i, j).0)
  }

  function Entry3(c: Tabulation, i: nat, j: nat): real
    requires i < |c.L| && j < |c.Y|
  {
    c.inp.log(Ratios(c, i, j).1)
  }

  /** One step of the accumulation along row i: segment j added, or the analytic values. */
  method Advance(c: Tabulation, i: nat, j: nat, acc: JAcc) returns (acc': JAcc)
    requires i < |c.L| && 1 <= j < |c.Y|
    requires j >= 2 ==> acc == Acc(c, i, j - 1)
    ensures acc' == Acc(c, i, j)
  {
    if j == 1 {
      acc' := FirstJ(c, i);
    } else {
      var s := SegJ(c, i, j);
      acc' := JAcc(acc.j0 + s.j0, acc.j1 + s.j1, acc.j3 + s.j3);
    }
    if i == |c.L| - 1 {
      var an := Analytic(c, i, j);
      if an.Some? {
        acc' := an.value;
      }
    }
  }

  /** The ratios at node (i, j) with the fail-safe substitution. */
  method RatiosAt(c: Tabulation, i: nat, j: nat, acc: JAcc) returns (r1: real, r3: real)
    requires i < |c.L| && 1 <= j < |c.Y| && acc == Acc(c, i, j)
    ensures (r1, r3) == Ratios(c, i, j)
  {
    var de := c.inp.deltaE(c.L[i] + c.Y[j], c.L[i]);
    var dv := c.inp.sqrt(de);
    r1, r3 := J1_LIMIT, J3_LIMIT;
    if !(acc.j0 == 0.0 || de < 0.0 || dv == 0.0) {
      r1, r3 := acc.j1 / acc.j0 / dv, acc.j3 / acc.j0 / dv / dv / dv;
      if r1 <= 0.0 || r3 <= 0.0 {
        r1, r3 := J1_LIMIT, J3_LIMIT;
      }
    }
  }

  /** The accumulation along row i: the entries of both matrices at every node of the row. */
  method ComputeRow(c: Tabulation, i: nat) returns (row1: seq<real>, row3: seq<real>)
    requires |c.Y| == NPOINTS_Y && i < |c.L|
    ensures |row1| == |row3| == |c.Y|
    ensures forall j :: 0 <= j < |c.Y| ==> row1[j] == Entry1(c, i, j)
    ensures forall j :: 0 <= j < |c.Y| ==> row3[j] == Entry3(c, i, j)
  {
    row1, row3 := [c.inp.log(J1_LIMIT)], [c.inp.log(J3_LIMIT)];
    var acc := JAcc(0.0, 0.0, 0.0);
    for j := 1 to NPOINTS_Y
      invariant |row1| == |row3| == j
      invariant j >= 2 ==> acc == Acc(c, i, j - 1)
      invariant forall j' :: 0 <= j' < j ==> row1[j'] == Entry1(c, i, j')
      invariant forall j' :: 0 <= j' < j ==> row3[j'] == Entry3(c, i, j')
    {
      acc := Advance(c, i, j, acc);
      var r1, r3 := RatiosAt(c, i, j, acc);
      row1, row3 := row1 + [c.inp.log(r1)], row3 + [c.inp.log(r3)];
    }
  }

  /** Writes row i of both matrices and changes nothing else. */
  method WriteRow(i: nat, row1: seq<real>, row3: seq<real>, t1: array2<real>, t3: array2<real>)
    requires i < t1.Length0 == t3.Length0 && |row1| == |row3| == t1.Length1 == t3.Length1 && t1 != t3
    modifies t1, t3
    ensures forall j :: 0 <= j < |row1| ==> t1[i, j] == row1[j] && t3[i, j] == row3[j]
    ensures forall i', j :: 0 <= i' < t1.Length0 && i' != i && 0 <= j < t1.Length1 ==>
      t1[i', j] == old(t1[i', j]) && t3[i', j] == old(t3[i', j])
  {
    for j := 0 to |row1|
      invariant forall j' :: 0 <= j' < j ==> t1[i, j'] == row1[j'] && t3[i, j'] == row3[j']
      invariant forall i', j' :: 0 <= i' < t1.Length0 && 0 <= j' < t1.Length1 && (i' != i || j' >= j) ==>
        t1[i', j'] == old(t1[i', j']) && t3[i', j'] == old(t3[i', j'])
    {
      t1[i, j] := row1[j];
      t3[i, j] := row3[j];
    }
  }

  /** The two tables, one value per grid node. */
  function Table1(c: Tabulation): seq<seq<real>>
    requires |c.Y| == NPOINTS_Y
  {
    seq(|c.L|, i requires 0 <= i < |c.L| => seq(NPOINTS_Y, j requires 0 <= j < NPOINTS_Y => Entry1(c, i, j)))
  }

  function Table3(c: Tabulation): seq<seq<real>>
    requires |c.Y| == NPOINTS_Y
  {
    seq(|c.L|, i requires 0 <= i < |c.L| => seq(NPOINTS_Y, j requires 0 <= j < NPOINTS_Y => Entry3(c, i, j)))
  }

  /** Fills the npoints x NPOINTS_Y matrices gridJ1 and gridJ3 row by row. */
  method FillTables(c: Tabulation) returns (J1: seq<seq<real>>, J3: seq<seq<real>>)
    requires ValidTabulation(c)
    ensures J1 == Table1(c) && J3 == Table3(c)
  {
    var t1 := new real[|c.L|, NPOINTS_Y];
    var t3 := new real[|c.L|, NPOINTS_Y];
    for i := 0 to |c.L|
      invariant forall i', j' :: 0 <= i' < i && 0 <= j' < NPOINTS_Y ==>
        t1[i', j'] == Entry1(c, i', j') && t3[i', j'] == Entry3(c, i', j')
    {
      var row1, row3 := ComputeRow(c, i);
      WriteRow(i, row1, row3, t1, t3);
    }
    J1 := seq(|c.L|, i requires 0 <= i < |c.L| reads t1 =>
      seq(NPOINTS_Y, j requires 0 <= j < NPOINTS_Y reads t1 => t1[i, j]));
    J3 := seq(|c.L|, i requires 0 <= i < |c.L| reads t3 =>
      seq(NPOINTS_Y, j requires 0 <= j < NPOINTS_Y reads t3 => t3[i, j]));
    forall i | 0 <= i < |c.L|
      ensures J1[i] == Table1(c)[i] && J3[i] == Table3(c)[i]
    {
      assert forall j :: 0 <= j < NPOINTS_Y ==> J1[i][j] == t1[i, j] == Table1(c)[i][j];
      assert forall j :: 0 <= j < NPOINTS_Y ==> J3[i][j] == t3[i, j] == Table3(c)[i][j];
    }
  }

  /**
   * Every stored value is the log of a positive ratio, and the first column holds the analytic
   * limits log(2/3) and log(2/5) of E = Phi.
   */
  lemma TablesAreLogsOfPositiveRatios(c: Tabulation, i: nat, j: nat)
    requires |c.Y| == NPOINTS_Y && i < |c.L| && j < NPOINTS_Y
    ensures exists p1: real, p3: real ::
      p1 > 0.0 && p3 > 0.0 && Table1(c)[i][j] == c.inp.log(p1) && Table3(c)[i][j] == c.inp.log(p3)
    ensures j == 0 ==> Table1(c)[i][j] == c.inp.log(J1_LIMIT) && Table3(c)[i][j] == c.inp.log(J3_LIMIT)
  {
    var r := Ratios(c, i, j);
    assert Table1(c)[i][j] == c.inp.log(r.0) && Table3(c)[i][j] == c.inp.log(r.1);
  }

  // ---- init ----

  /** The grid in log h that init starts from. */
  function StartGrid(inp: LocalInput, gridh: seq<real>): (r: seq<real>)
    ensures |gridh| > 0 ==> |r| == |gridh| && forall i :: 0 <= i < |gridh| ==> r[i] == inp.log(gridh[i])
    ensures |gridh| == 0 ==> r == inp.autoGrid
  {
    if |gridh| == 0 then inp.autoGrid else seq(|gridh|, i requires 0 <= i < |gridh| => inp.log(gridh[i]))
  }

  /** The grid in Y for the trimmed grid in X: minimal step min(0.1, extent / NPOINTS_Y). */
  function GridY(inp: LocalInput, L: seq<real>): seq<real>
    requires |L| > 0
  {
    var extent := L[|L| - 1] - L[0];
    var minDelta := if 0.1 < extent / NPOINTS_Y as real then 0.1 else extent / NPOINTS_Y as real;
    inp.nonuniformGrid(minDelta, extent)
  }

  /** What init builds, or the exception it throws. */
  function LocalInit(inp: LocalInput, m: SM.IsotropicModel, ev: SplineEval, gridh: seq<real>): Result<LocalModel, LocalError>
    requires ValidLocalInput(inp, m)
  {
    var L := Trimmed(inp, StartGrid(inp, gridh));
    if |L| < 3 then Failure(NowherePositive)
    else
      TrimmedIsMaximalPrefix(inp, StartGrid(inp, gridh));
      match AsymptoticsOf(inp, m, L)
      case Failure(e) => Failure(e)
      case Success(asym) =>
        var Y := GridY(inp, L);
        var c := Tabulation(inp, m, ev, L, Y, asym);
        Success(LocalModel(m, Spline2d(L, Y, Table1(c)), Spline2d(L, Y, Table3(c))))
  }

  /** SphericalIsotropicModelLocal::init. */
  method InitLocal(inp: LocalInput, m: SM.IsotropicModel, ev: SplineEval, gridh: seq<real>)
    returns (r: Result<LocalModel, LocalError>)
    requires ValidLocalInput(inp, m)
    ensures r == LocalInit(inp, m, ev, gridh)
  {
    var L: seq<real>;
    if |gridh| == 0 {
      L := inp.autoGrid;
    } else {
      L := LogGrid(inp.log, gridh);
    }
    assert L == StartGrid(inp, gridh);
    L := TrimGrid(inp, L);
    if |L| < 3 {
      return Failure(NowherePositive);
    }
    TrimmedIsMaximalPrefix(inp, StartGrid(inp, gridh));
    var asym := AsymptoticsOf(inp, m, L);
    if asym.Failure? {
      return Failure(asym.error);
    }
    var Y := GridY(inp, L);
    var c := Tabulation(inp, m, ev, L, Y, asym.value);
    var J1, J3 := FillTables(c);
    r := Success(LocalModel(m, Spline2d(L, Y, J1), Spline2d(L, Y, J3)));
  }

  /**
   * A model init returns has at least three nodes in X with f(hmax) above the threshold,
   * NPOINTS_Y nodes in Y, and both tables of that shape; init fails with NowherePositive exactly
   * when trimming leaves fewer than three nodes.
   */
  lemma LocalInitShape(inp: LocalInput, m: SM.IsotropicModel, ev: SplineEval, gridh: seq<real>)
    requires ValidLocalInput(inp, m)
    ensures var r := LocalInit(inp, m, ev, gridh);
      (r == Failure(NowherePositive) <==> |Trimmed(inp, StartGrid(inp, gridh))| < 3) &&
      r != Failure(WeirdPhaseVolume) &&
      (r.Success? ==> var lm := r.value; var L := lm.intJ1.xs;
        lm.base == m && |L| >= 3 && !NegligibleAt(inp, L[|L| - 1]) && lm.intJ3.xs == L &&
        |lm.intJ1.ys| == NPOINTS_Y && lm.intJ3.ys == lm.intJ1.ys &&
        |lm.intJ1.zs| == |lm.intJ3.zs| == |L| &&
        (forall i :: 0 <= i < |L| ==> |lm.intJ1.zs[i]| == |lm.intJ3.zs[i]| == NPOINTS_Y))
  {
    var L := Trimmed(inp, StartGrid(inp, gridh));
    TrimmedIsMaximalPrefix(inp, StartGrid(inp, gridh));
    if |L| >= 3 {
      var a := AsymptoticsOf(inp, m, L);
      if a.Success? {
        var Y := GridY(inp, L);
        assert |Y| == NPOINTS_Y;
        var c := Tabulation(inp, m, ev, L, Y, a.value);
        TablesShape(c);
        assert LocalInit(inp, m, ev, gridh) == Success(LocalModel(m, Spline2d(L, Y, Table1(c)), Spline2d(L, Y, Table3(c))));
      }
    }
  }

  /** Both tables have one row of NPOINTS_Y entries per node of X. */
  lemma TablesShape(c: Tabulation)
    requires |c.Y| == NPOINTS_Y
    ensures |Table1(c)| == |Table3(c)| == |c.L|
    ensures forall i :: 0 <= i < |c.L| ==> |Table1(c)[i]| == |Table3(c)[i]| == NPOINTS_Y
  {
  }

  // ---- local queries ----

  /** The 2d spline evaluation. */
  type Spline2dEval = (Spline2d, real, real) -> real

  /** math::clamp: x restricted to [lo, hi]. */
  function Clamp(x: real, lo: real, hi: real): (r: real)
    ensures lo <= hi ==> lo <= r <= hi
    ensures lo <= x <= hi ==> r == x
  {
    if x < lo then lo else if x > hi then hi else x
  }

  /** The splines are defined on non-empty grids. */
  predicate WellFormed(lm: LocalModel)
  {
    |lm.intJ1.xs| > 0 && |lm.intJ1.ys| > 0 && |lm.intJ3.ys| > 0
  }

  /** X = log h(Phi) restricted to the grid; log 0 = -infinity clamps to the lowest node. */
  function ClampedX(lm: LocalModel, log: real -> real, hPhi: real): real
    requires WellFormed(lm)
  {
    var xs := lm.intJ1.xs;
    if hPhi > 0.0 then Clamp(log(hPhi), xs[0], xs[|xs| - 1]) else xs[0]
  }

  /** The three local drift and diffusion coefficients. */
  datatype LocalCoefs = LocalCoefs(dvpar: real, dv2par: real, dv2per: real)

  /** The factor 1 / sqrt(1 - E/Phi) applied to J1 and J3 for E >= 0 (1 where that square root is 0). */
  function Correction(sqrt: real -> real, Phi: real, E: real): real
    requires Phi < 0.0
  {
    if E >= 0.0 && sqrt(1.0 - E / Phi) != 0.0 then 1.0 / sqrt(1.0 - E / Phi) else 1.0
  }

  /** For Phi < 0 the correction factor is positive. */
  lemma CorrectionPositive(sqrt: real -> real, Phi: real, E: real)
    requires SqrtLike(sqrt) && Phi < 0.0
    ensures Correction(sqrt, Phi, E) > 0.0
    ensures E >= 0.0 ==> Correction(sqrt, Phi, E) == 1.0 / sqrt(1.0 - E / Phi)
  {
    if E >= 0.0 {
      DivNonNeg(E, -Phi);
      assert E / Phi == -(E / (-Phi));
      var x := 1.0 - E / Phi;
      assert x > 0.0;
      assert sqrt(x) > 0.0;
      DivPos(1.0, sqrt(x));
    }
  }

  /**
   * I0(h(E)) and the corrected J1, J3 of evalLocal: J0 = max(I0(h(Phi)) - I0(h(E)), 0) scaled by
   * the interpolated ratios at (X, Y), then by corr and corr^3 for E >= 0.
   */
  function LocalIntegrals(lm: LocalModel, ev: SplineEval, ev2: Spline2dEval, exp: real -> real, log: real -> real,
                          sqrt: real -> real, Phi: real, E: real): (real, real, real)
    requires WellFormed(lm) && Phi < 0.0
  {
    var hPhi, hE := lm.base.phasevol.H(Phi), lm.base.phasevol.H(E);
    var I := I0(lm.base, ev, hE);
    var J0 := if I0(lm.base, ev, hPhi) - I > 0.0 then I0(lm.base, ev, hPhi) - I else 0.0;
    var X := ClampedX(lm, log, hPhi);
    var ys := lm.intJ1.ys;
    var Y := if hPhi > 0.0 then Clamp(log(hE / hPhi), ys[0], ys[|ys| - 1]) else ys[|ys| - 1];
    var J1 := exp(ev2(lm.intJ1, X, Y)) * J0;
    var J3 := exp(ev2(lm.intJ3, X, Y)) * J0;
    var corr := Correction(sqrt, Phi, E);
    (I, if E >= 0.0 then J1 * corr else J1, if E >= 0.0 then J3 * (Pow2(corr) * corr) else J3)
  }

  /** J0 >= 0 and a positive exp and correction keep the corrected J1 and J3 non-negative. */
  lemma LocalIntegralsNonNegative(lm: LocalModel, ev: SplineEval, ev2: Spline2dEval, exp: real -> real,
                                  log: real -> real, sqrt: real -> real, Phi: real, E: real)
    requires WellFormed(lm) && PositiveFunction(exp) && SqrtLike(sqrt) && Phi < 0.0
    ensures LocalIntegrals(lm, ev, ev2, exp, log, sqrt, Phi, E).1 >= 0.0
    ensures LocalIntegrals(lm, ev, ev2, exp, log, sqrt, Phi, E).2 >= 0.0
  {
    var hPhi, hE := lm.base.phasevol.H(Phi), lm.base.phasevol.H(E);
    var I := I0(lm.base, ev, hE);
    var J0 := if I0(lm.base, ev, hPhi) - I > 0.0 then I0(lm.base, ev, hPhi) - I else 0.0;
    var X := ClampedX(lm, log, hPhi);
    var ys := lm.intJ1.ys;
    var Y := if hPhi > 0.0 then Clamp(log(hE / hPhi), ys[0], ys[|ys| - 1]) else ys[|ys| - 1];
    var x1, x3 := ev2(lm.intJ1, X, Y), ev2(lm.intJ3, X, Y);
    var e1, e3 := exp(x1), exp(x3);
    assert e1 > 0.0 && e3 > 0.0;
    CorrectionPositive(sqrt, Phi, E);
    var corr := Correction(sqrt, Phi, E);
    ScaledNonNegative(e1, J0, corr);
    ScaledNonNegative(e3, J0, corr);
  }

  lemma ScaledNonNegative(e: real, J0: real, corr: real)
    requires e > 0.0 && J0 >= 0.0 && corr > 0.0
    ensures e * J0 >= 0.0 && e * J0 * corr >= 0.0 && e * J0 * (Pow2(corr) * corr) >= 0.0
  {
    MulNonNeg(e, J0);
    MulNonNeg(e * J0, corr);
    MulNonNeg(Pow2(corr), corr);
    MulNonNeg(e * J0, Pow2(corr) * corr);
  }

  /**
   * evalLocal. Some(coefficients), or None where the source computes NaN: h(Phi) = h(E) = 0 makes
   * Y = log(0/0).
   */
  function EvalLocal(lm: LocalModel, ev: SplineEval, ev2: Spline2dEval, exp: real -> real, log: real -> real,
                     sqrt: real -> real, Phi: real, E: real): Result<Option<LocalCoefs>, LocalError>
    requires WellFormed(lm)
  {
    var hPhi, hE := lm.base.phasevol.H(Phi), lm.base.phasevol.H(E);
    if !(Phi < 0.0 && hE >= hPhi) then Failure(IncompatibleEPhi)
    else if hPhi <= 0.0 && hE <= 0.0 then Success(None)
    else
      var ints := LocalIntegrals(lm, ev, ev2, exp, log, sqrt, Phi, E);
      var I, J1, J3 := ints.0, ints.1, ints.2;
      var mult := 32.0 * PI * PI / 3.0 * CumulMass(lm.base, ev, None);
      Success(Some(LocalCoefs(-mult * J1 * 3.0, mult * (I + J3), mult * (I * 2.0 + J1 * 3.0 - J3))))
  }

  /**
   * evalLocal throws exactly when not Phi < 0 with h(E) >= h(Phi). With a positive total mass
   * and I0 >= 0 the drift dvpar is never positive and the parallel diffusion dv2par never negative.
   */
  lemma EvalLocalSigns(lm: LocalModel, ev: SplineEval, ev2: Spline2dEval, exp: real -> real, log: real -> real,
                       sqrt: real -> real, Phi: real, E: real)
    requires WellFormed(lm) && PositiveFunction(exp) && SqrtLike(sqrt) && lm.base.totalMass > 0.0
    requires forall h :: I0(lm.base, ev, h) >= 0.0
    ensures var r := EvalLocal(lm, ev, ev2, exp, log, sqrt, Phi, E);
      (r.Failure? <==> !(Phi < 0.0 && lm.base.phasevol.H(E) >= lm.base.phasevol.H(Phi))) &&
      (r.Failure? ==> r.error == IncompatibleEPhi) &&
      (r.Success? && r.value.Some? ==> r.value.value.dvpar <= 0.0 && r.value.value.dv2par >= 0.0)
  {
    var hPhi, hE := lm.base.phasevol.H(Phi), lm.base.phasevol.H(E);
    if Phi < 0.0 && hE >= hPhi && !(hPhi <= 0.0 && hE <= 0.0) {
      var ints := LocalIntegrals(lm, ev, ev2, exp, log, sqrt, Phi, E);
      LocalIntegralsNonNegative(lm, ev, ev2, exp, log, sqrt, Phi, E);
      var I, J1, J3 := ints.0, ints.1, ints.2;
      assert I >= 0.0;
      MulPos(32.0 * PI, PI);
      CoefficientSigns(32.0 * PI * PI / 3.0, lm.base.totalMass, I, J1, J3);
    }
  }

  /** The signs of the drift and parallel diffusion for a positive prefactor and I, J1, J3 >= 0. */
  lemma CoefficientSigns(c: real, M: real, I: real, J1: real, J3: real)
    requires c > 0.0 && M > 0.0 && I >= 0.0 && J1 >= 0.0 && J3 >= 0.0
    ensures -(c * M) * J1 * 3.0 <= 0.0 && c * M * (I + J3) >= 0.0
  {
    var mult := c * M;
    MulPos(c, M);
    MulNonNeg(mult, J1);
    MulNonNeg(mult, I + J3);
    assert -mult * J1 * 3.0 == -(mult * J1) * 3.0;
  }

  /** density(Phi): 4 pi sqrt(2) sqrt(-Phi) (J1/J0)(X, Ymax) I0(h(Phi)). */
  function LocalDensity(lm: LocalModel, ev: SplineEval, ev2: Spline2dEval, exp: real -> real, log: real -> real,
                        sqrt: real -> real, Phi: real): Result<real, LocalError>
    requires WellFormed(lm)
  {
    if !(Phi < 0.0) then Failure(InvalidPhi)
    else
      var hPhi := lm.base.phasevol.H(Phi);
      var X := ClampedX(lm, log, hPhi);
      var ys := lm.intJ1.ys;
      var J1overJ0 := exp(ev2(lm.intJ1, X, ys[|ys| - 1]));
      Success(4.0 * PI * SQRT2 * sqrt(-Phi) * J1overJ0 * I0(lm.base, ev, hPhi))
  }

  /** density throws exactly for Phi >= 0, and is non-negative where I0 is. */
  lemma LocalDensityNonNegative(lm: LocalModel, ev: SplineEval, ev2: Spline2dEval, exp: real -> real,
                                log: real -> real, sqrt: real -> real, Phi: real)
    requires WellFormed(lm) && PositiveFunction(exp) && SqrtLike(sqrt)
    requires I0(lm.base, ev, lm.base.phasevol.H(Phi)) >= 0.0
    ensures var r := LocalDensity(lm, ev, ev2, exp, log, sqrt, Phi);
      (r.Failure? <==> Phi >= 0.0) && (r.Success? ==> r.value >= 0.0)
  {
    if Phi < 0.0 {
      var hPhi := lm.base.phasevol.H(Phi);
      var X := ClampedX(lm, log, hPhi);
      var ys := lm.intJ1.ys;
      var x := ev2(lm.intJ1, X, ys[|ys| - 1]);
      var e := exp(x);
      assert e > 0.0;
      MulPos(4.0 * PI, SQRT2);
      var mPhi := -Phi;
      assert sqrt(mPhi) > 0.0;
      MulPos(4.0 * PI * SQRT2, sqrt(-Phi));
      MulPos(4.0 * PI * SQRT2 * sqrt(-Phi), e);
      MulNonNeg(4.0 * PI * SQRT2 * sqrt(-Phi) * e, I0(lm.base, ev, hPhi));
    }
  }

  /** velDisp(Phi): sqrt(-2/3 Phi (J3/J1)(X, Ymax)). */
  function LocalVelDisp(lm: LocalModel, ev2: Spline2dEval, exp: real -> real, log: real -> real,
                        sqrt: real -> real, Phi: real): Result<real, LocalError>
    requires WellFormed(lm)
  {
    if !(Phi < 0.0) then Failure(InvalidPhi)
    else
      var hPhi := lm.base.phasevol.H(Phi);
      var X := ClampedX(lm, log, hPhi);
      var ys1, ys3 := lm.intJ1.ys, lm.intJ3.ys;
      var J3overJ1 := exp(ev2(lm.intJ3, X, ys3[|ys3| - 1]) - ev2(lm.intJ1, X, ys1[|ys1| - 1]));
      Success(sqrt(-2.0 / 3.0 * Phi * J3overJ1))
  }

  /** velDisp throws exactly for Phi >= 0 and is otherwise the square root of a positive number. */
  lemma LocalVelDispPositive(lm: LocalModel, ev2: Spline2dEval, exp: real -> real, log: real -> real,
                             sqrt: real -> real, Phi: real)
    requires WellFormed(lm) && PositiveFunction(exp) && SqrtLike(sqrt)
    ensures var r := LocalVelDisp(lm, ev2, exp, log, sqrt, Phi);
      (r.Failure? <==> Phi >= 0.0) && (r.Success? ==> r.value > 0.0)
  {
    if Phi < 0.0 {
      var hPhi := lm.base.phasevol.H(Phi);
      var X := ClampedX(lm, log, hPhi);
      var ys1, ys3 := lm.intJ1.ys, lm.intJ3.ys;
      var e := exp(ev2(lm.intJ3, X, ys3[|ys3| - 1]) - ev2(lm.intJ1, X, ys1[|ys1| - 1]));
      MulPos(-2.0 / 3.0 * Phi, e);
    }
  }

  /**
   * The root that sampleVelocity solves for: findRoot maps the target value frac * J1(Phi, Phi)
   * of the cumulative distribution to log(h(E)/h(Phi)); a negative value means no root was found.
   */
  function SampleRoot(lm: LocalModel, ev: SplineEval, ev2: Spline2dEval, exp: real -> real, log: real -> real,
                      sqrt: real -> real, Phi: real, frac: real, findRoot: real -> real): real
    requires WellFormed(lm)
  {
    var hPhi := lm.base.phasevol.H(Phi);
    var ys := lm.intJ1.ys;
    var maxJ1 := exp(ev2(lm.intJ1, ClampedX(lm, log, hPhi), ys[|ys| - 1])) * I0(lm.base, ev, hPhi);
    findRoot(frac * maxJ1 * sqrt(-Phi))
  }

  /** sampleVelocity(Phi) with the random number frac and the root finder passed in. */
  function SampleVelocity(lm: LocalModel, ev: SplineEval, ev2: Spline2dEval, exp: real -> real, log: real -> real,
                          sqrt: real -> real, Phi: real, frac: real, findRoot: real -> real): Result<real, LocalError>
    requires WellFormed(lm)
  {
    if !(Phi < 0.0) then Failure(InvalidPhi)
    else
      var root := SampleRoot(lm, ev, ev2, exp, log, sqrt, Phi, frac, findRoot);
      if !(root >= 0.0) then Success(0.0)
      else Success(sqrt(2.0 * (SampledEnergy(lm, exp, log, Phi, root) - Phi)))
  }

  /** The energy whose h(E) is h(Phi) exp(root). */
  function SampledEnergy(lm: LocalModel, exp: real -> real, log: real -> real, Phi: real, root: real): real
    requires WellFormed(lm)
  {
    lm.base.phasevol.E(exp(root + ClampedX(lm, log, lm.base.phasevol.H(Phi))))
  }

  /**
   * sampleVelocity throws exactly for Phi >= 0; a failed root search (a negative root) gives
   * speed 0, and any result is non-negative where the sampled energy is not below Phi.
   */
  lemma SampleVelocityGuards(lm: LocalModel, ev: SplineEval, ev2: Spline2dEval, exp: real -> real,
                             log: real -> real, sqrt: real -> real, Phi: real, frac: real, findRoot: real -> real)
    requires WellFormed(lm) && SqrtLike(sqrt)
    ensures var r := SampleVelocity(lm, ev, ev2, exp, log, sqrt, Phi, frac, findRoot);
      var root := SampleRoot(lm, ev, ev2, exp, log, sqrt, Phi, frac, findRoot);
      (r.Failure? <==> Phi >= 0.0) && (r.Failure? ==> r.error == InvalidPhi) &&
      (r.Success? && root < 0.0 ==> r.value == 0.0) &&
      (r.Success? && root >= 0.0 ==>
        r.value == sqrt(2.0 * (SampledEnergy(lm, exp, log, Phi, root) - Phi)) &&
        (SampledEnergy(lm, exp, log, Phi, root) >= Phi ==> r.value >= 0.0))
  {
    var root := SampleRoot(lm, ev, ev2, exp, log, sqrt, Phi, frac, findRoot);
    if Phi < 0.0 && root >= 0.0 {
      var x := 2.0 * (SampledEnergy(lm, exp, log, Phi, root) - Phi);
      if x >= 0.0 {
        assert sqrt(x) >= 0.0;
      }
    }
  }
}
