/**
 * computeProjectedDensity: the surface density Sigma(R_j) and the line-of-sight velocity
 * dispersion at the nodes of a grid in radius, from the density rho(r) and the 1d velocity
 * dispersion sigma(r). Segment i runs from R_i to R_{i+1}, with r = R_i + y^2 (R_{i+1} - R_i);
 * the last one runs to infinity, with r = R_i / (1 - y^2). Each point adds
 * weight / sqrt(r^2 - R_j^2) to every node j at or below its segment.
 *
 * The library checks only that each segment has positive length, which lets a grid start at a
 * negative radius; the model adds the check R_0 >= 0 (NegativeRadius) under which the library's
 * assertion r^2 - R_j^2 > 0 holds, and keeps the check as written in RGridAccepted.
 */
module SphericalProjection {
  import opened Wrappers
  import opened Numerics
  import opened TriangularSums
  import opened SphericalDensity

  /** The numerics computeProjectedDensity calls: rho(r), sigma(r), the Gauss-Legendre rule and sqrt. */
  datatype ProjectionInput = ProjectionInput(dens: real -> real, velDisp: real -> real, gl: QuadRule,
                                             sqrt: real -> real)

  /** Sigma at the grid nodes and the projected dispersion; None is the NaN of a division by a zero Sigma. */
  datatype ProjectedProfile = ProjectedProfile(sigma: seq<real>, velDisp: seq<Option<real>>)

  /** A rule with nodes in (0,1) and a square root that is positive on positive arguments. */
  ghost predicate ValidProjection(inp: ProjectionInput)
  {
    RuleSized(inp.gl) && ValidRule(inp.gl, GLORDER) && SqrtLike(inp.sqrt)
  }

  /** The length of segment i: up to the next node, and R_i itself for the last one. */
  function RDelta(R: seq<real>, i: nat): real
    requires i < |R|
  {
    if i == |R| - 1 then R[i] else R[i + 1] - R[i]
  }

  /** The check the library makes before each segment: every segment has positive length. */
  predicate RGridAccepted(R: seq<real>)
  {
    forall i :: 0 <= i < |R| ==> RDelta(R, i) > 0.0
  }

  /** The check with the grid also starting at a non-negative radius. */
  predicate RGridOk(R: seq<real>)
  {
    RGridAccepted(R) && (|R| > 0 ==> R[0] >= 0.0)
  }

  /** The state of the checks once segment i has passed: R_0 >= 0 and segments 0 .. i of positive length. */
  predicate CheckedUpTo(R: seq<real>, i: nat)
  {
    (|R| > 0 ==> R[0] >= 0.0) && forall i' :: 0 <= i' <= i && i' < |R| ==> RDelta(R, i') > 0.0
  }

  lemma UnitSquare(y: real)
    requires 0.0 < y < 1.0
    ensures 0.0 < y * y < 1.0
  {
    MulPos(y, y);
    MulPos(1.0 - y, y);
  }

  /** The radius of the point with node y in segment i. */
  function RPoint(R: seq<real>, y: real, i: nat): real
    requires i < |R| && 0.0 < y < 1.0
  {
    UnitSquare(y);
    if i == |R| - 1 then R[i] / (1.0 - y * y) else R[i] + y * y * RDelta(R, i)
  }

  /** r^2 - R_j^2 at that point. */
  function ProjDif(R: seq<real>, y: real, i: nat, j: nat): real
    requires i < |R| && j < |R| && 0.0 < y < 1.0
  {
    Pow2(RPoint(R, y, i)) - Pow2(R[j])
  }

  /**
   * The quadrature weight of point k of segment i times dr/dy, rho(r) and 2 r; the division by
   * (1 - y^2)^2 of the last segment is written as two divisions by 1 - y^2.
   */
  function RWeight(inp: ProjectionInput, R: seq<real>, i: nat, k: nat): real
    requires ValidProjection(inp) && i < |R| && k < GLORDER
  {
    var y := inp.gl.nodes[k];
    UnitSquare(y);
    var r := RPoint(R, y, i);
    inp.gl.weights[k] * (if i == |R| - 1 then 2.0 * y / (1.0 - y * y) / (1.0 - y * y) else 2.0 * y) *
      RDelta(R, i) * inp.dens(r) * 2.0 * r
  }

  /** Once the segments up to i have passed the check, the nodes up to i increase. */
  lemma {:induction false} CheckedRadiiIncrease(R: seq<real>, i: nat, j: nat)
    requires i < |R| && j <= i
    requires forall i' :: 0 <= i' < i ==> RDelta(R, i') > 0.0
    ensures R[j] <= R[i]
    decreases i - j
  {
    if j < i {
      CheckedRadiiIncrease(R, i, j + 1);
      assert RDelta(R, j) > 0.0;
    }
  }

  lemma SquaresGrow(a: real, b: real)
    requires a > b >= 0.0
    ensures a * a > b * b
  {
    MulPos(a - b, a + b);
  }

  /** A point p = a + y^2 d of an inner segment lies beyond the segment's start a. */
  lemma InnerPointBeyond(a: real, y: real, d: real, p: real)
    requires 0.0 < y < 1.0 && d > 0.0 && p == a + y * y * d
    ensures p > a
  {
    MulPos(y, d);
    MulPos(y, y * d);
  }

  /** A point p = a / (1 - y^2) of the last segment lies beyond its start a > 0. */
  lemma LastPointBeyond(a: real, y: real, p: real)
    requires a > 0.0 && 0.0 < y < 1.0 && p == a / (1.0 - y * y)
    ensures p > a
  {
    UnitSquare(y);
    var s := 1.0 - y * y;
    assert p * s == a;
    MulPos(a, y);
    MulPos(a * y, y);
    DivPos(a * y * y, s);
    assert p - a == a * y * y / s;
  }

  /** A point of segment i lies beyond R_i. */
  lemma PointBeyondStart(R: seq<real>, y: real, i: nat)
    requires i < |R| && 0.0 < y < 1.0 && RDelta(R, i) > 0.0
    ensures RPoint(R, y, i) > R[i]
  {
    var p := RPoint(R, y, i);
    if i == |R| - 1 {
      LastPointBeyond(R[i], y, p);
    } else {
      InnerPointBeyond(R[i], y, RDelta(R, i), p);
    }
  }

  /**
   * With R_0 >= 0 and the segments up to i checked, every point of segment i lies beyond each
   * node j <= i, so r^2 - R_j^2 > 0.
   */
  lemma ProjDifPositive(R: seq<real>, y: real, i: nat, j: nat)
    requires j <= i < |R| && 0.0 < y < 1.0 && CheckedUpTo(R, i)
    ensures RPoint(R, y, i) > R[j] >= 0.0 && ProjDif(R, y, i, j) > 0.0
  {
    CheckedRadiiIncrease(R, i, j);
    CheckedRadiiIncrease(R, j, 0);
    PointBeyondStart(R, y, i);
    var r := RPoint(R, y, i);
    SquaresGrow(r, R[j]);
  }

  /** What a point at radius r with the given weight adds to Sigma at node R_j: weight / sqrt(r^2 - R_j^2). */
  function Contribution(sqrt: real -> real, r: real, Rj: real, weight: real): real
    requires sqrt(Pow2(r) - Pow2(Rj)) != 0.0
  {
    weight / sqrt(Pow2(r) - Pow2(Rj))
  }

  /** The contribution of point k of segment i to Sigma at node j <= i. */
  function SigmaTerm(inp: ProjectionInput, R: seq<real>, i: nat, k: nat, j: nat): real
    requires ValidProjection(inp) && CheckedUpTo(R, i) && j <= i < |R| && k < GLORDER
  {
    var y := inp.gl.nodes[k];
    ProjDifPositive(R, y, i, j);
    Contribution(inp.sqrt, RPoint(R, y, i), R[j], RWeight(inp, R, i, k))
  }

  /** The same contribution times velsq, for the projected dispersion. */
  function VelContribution(sqrt: real -> real, r: real, Rj: real, weight: real, velsq: real): real
    requires sqrt(Pow2(r) - Pow2(Rj)) != 0.0
  {
    Contribution(sqrt, r, Rj, weight) * velsq
  }

  /** The contribution of point k of segment i to Sigma times sigma(r)^2, for the projected dispersion. */
  function VelSqTerm(inp: ProjectionInput, R: seq<real>, i: nat, k: nat, j: nat): real
    requires ValidProjection(inp) && CheckedUpTo(R, i) && j <= i < |R| && k < GLORDER
  {
    var y := inp.gl.nodes[k];
    ProjDifPositive(R, y, i, j);
    VelContribution(inp.sqrt, RPoint(R, y, i), R[j], RWeight(inp, R, i, k), Pow2(inp.velDisp(RPoint(R, y, i))))
  }

  function SigmaTerms(inp: ProjectionInput, R: seq<real>): (nat, nat, nat) -> real
    requires ValidProjection(inp)
  {
    (i: nat, k: nat, j: nat) =>
      if j <= i < |R| && k < GLORDER && CheckedUpTo(R, i) then SigmaTerm(inp, R, i, k, j) else 0.0
  }

  function VelSqTerms(inp: ProjectionInput, R: seq<real>): (nat, nat, nat) -> real
    requires ValidProjection(inp)
  {
    (i: nat, k: nat, j: nat) =>
      if j <= i < |R| && k < GLORDER && CheckedUpTo(R, i) then VelSqTerm(inp, R, i, k, j) else 0.0
  }

  /** sqrt(V / Sigma), None where Sigma is zero. */
  function ProjVelDispEntry(sqrt: real -> real, sigma: real, v: real): Option<real>
  {
    if sigma == 0.0 then None else Some(sqrt(v / sigma))
  }

  /** What computeProjectedDensity produces, or the exception it throws. */
  function ProjectedDensity(inp: ProjectionInput, R: seq<real>): Result<ProjectedProfile, GridError>
    requires ValidProjection(inp)
  {
    if |R| > 0 && R[0] < 0.0 then Failure(NegativeRadius)
    else if !RGridAccepted(R) then Failure(GridNotIncreasing)
    else
      var n := |R|;
      var sigma := seq(n, j requires 0 <= j < n => Upto(SigmaTerms(inp, R), GLORDER, n, j));
      var vel := seq(n, j requires 0 <= j < n => Upto(VelSqTerms(inp, R), GLORDER, n, j));
      Success(ProjectedProfile(sigma, seq(n, j requires 0 <= j < n => ProjVelDispEntry(inp.sqrt, sigma[j], vel[j]))))
  }

  // ---- the imperative computation ----

  /** The contribution of point k of segment i to node j, spelled out as the loop computes it. */
  lemma PointContribution(inp: ProjectionInput, R: seq<real>, i: nat, k: nat, j: nat)
    requires ValidProjection(inp) && CheckedUpTo(R, i) && j <= i < |R| && k < GLORDER
    ensures Pow2(RPoint(R, inp.gl.nodes[k], i)) - Pow2(R[j]) > 0.0 &&
      inp.sqrt(Pow2(RPoint(R, inp.gl.nodes[k], i)) - Pow2(R[j])) > 0.0 &&
      SigmaTerm(inp, R, i, k, j) == Contribution(inp.sqrt, RPoint(R, inp.gl.nodes[k], i), R[j], RWeight(inp, R, i, k)) &&
      VelSqTerm(inp, R, i, k, j) == SigmaTerm(inp, R, i, k, j) * Pow2(inp.velDisp(RPoint(R, inp.gl.nodes[k], i)))
  {
    ProjDifPositive(R, inp.gl.nodes[k], i, j);
  }

  /** Adds point k of segment i to the entries j <= i, asserting r^2 - R_j^2 > 0 on the way. */
  method AddProjectedPoint(inp: ProjectionInput, R: seq<real>, i: nat, k: nat, proj: array<real>, projVel: array<real>)
    requires ValidProjection(inp) && CheckedUpTo(R, i) && i < |R| && k < GLORDER
    requires proj.Length == projVel.Length == |R| && proj != projVel
    modifies proj, projVel
    ensures forall j :: 0 <= j < |R| ==>
      proj[j] == old(proj[j]) + (if j <= i then SigmaTerms(inp, R)(i, k, j) else 0.0) &&
      projVel[j] == old(projVel[j]) + (if j <= i then VelSqTerms(inp, R)(i, k, j) else 0.0)
  {
    var y := inp.gl.nodes[k];
    var r := RPoint(R, y, i);
    var weight := RWeight(inp, R, i, k);
    var velsq := Pow2(inp.velDisp(r));
    PointTerms(inp, R, i, k);
    AddProjectedEntries(inp.sqrt, R, i, r, weight, velsq, proj, projVel);
  }

  /**
   * For every node j <= i, point k of segment i lies beyond R_j, and its two contributions are
   * the point's weight / sqrt(r^2 - R_j^2) and that times sigma(r)^2.
   */
  lemma PointTerms(inp: ProjectionInput, R: seq<real>, i: nat, k: nat)
    requires ValidProjection(inp) && CheckedUpTo(R, i) && i < |R| && k < GLORDER
    ensures forall j :: 0 <= j <= i ==>
      Pow2(RPoint(R, inp.gl.nodes[k], i)) - Pow2(R[j]) > 0.0 &&
      inp.sqrt(Pow2(RPoint(R, inp.gl.nodes[k], i)) - Pow2(R[j])) > 0.0 &&
      SigmaTerm(inp, R, i, k, j) == Contribution(inp.sqrt, RPoint(R, inp.gl.nodes[k], i), R[j], RWeight(inp, R, i, k)) &&
      VelSqTerm(inp, R, i, k, j) == VelContribution(inp.sqrt, RPoint(R, inp.gl.nodes[k], i), R[j], RWeight(inp, R, i, k),
                                                    Pow2(inp.velDisp(RPoint(R, inp.gl.nodes[k], i))))
  {
    forall j | 0 <= j <= i
      ensures Pow2(RPoint(R, inp.gl.nodes[k], i)) - Pow2(R[j]) > 0.0 &&
        inp.sqrt(Pow2(RPoint(R, inp.gl.nodes[k], i)) - Pow2(R[j])) > 0.0 &&
        SigmaTerm(inp, R, i, k, j) == Contribution(inp.sqrt, RPoint(R, inp.gl.nodes[k], i), R[j], RWeight(inp, R, i, k)) &&
        VelSqTerm(inp, R, i, k, j) == VelContribution(inp.sqrt, RPoint(R, inp.gl.nodes[k], i), R[j], RWeight(inp, R, i, k),
                                                      Pow2(inp.velDisp(RPoint(R, inp.gl.nodes[k], i))))
    {
      PointContribution(inp, R, i, k, j);
    }
  }

  /**
   * The loop over the nodes j <= i: with r^2 - R_j^2 positive, as the library asserts, entry j
   * receives the point's contribution, and that times velsq.
   */
  method AddProjectedEntries(sqrt: real -> real, R: seq<real>, i: nat, r: real, weight: real, velsq: real,
                             proj: array<real>, projVel: array<real>)
    requires i < |R| && forall j :: 0 <= j <= i ==> Pow2(r) - Pow2(R[j]) > 0.0 && sqrt(Pow2(r) - Pow2(R[j])) > 0.0
    requires proj.Length == projVel.Length == |R| && proj != projVel
    modifies proj, projVel
    ensures forall j :: 0 <= j < |R| ==>
      proj[j] == old(proj[j]) + (if j <= i then Contribution(sqrt, r, R[j], weight) else 0.0) &&
      projVel[j] == old(projVel[j]) + (if j <= i then VelContribution(sqrt, r, R[j], weight, velsq) else 0.0)
  {
    for j := 0 to i + 1
      invariant forall j' :: 0 <= j' < |R| ==>
        proj[j'] == old(proj[j']) + (if j' < j then Contribution(sqrt, r, R[j'], weight) else 0.0) &&
        projVel[j'] == old(projVel[j']) + (if j' < j then VelContribution(sqrt, r, R[j'], weight, velsq) else 0.0)
    {
      var dif := Pow2(r) - Pow2(R[j]);
      var val := weight / sqrt(dif);
      AddAt(proj, projVel, j, val, val * velsq);
    }
  }

  /** a[j] += x and b[j] += y. */
  method AddAt(a: array<real>, b: array<real>, j: nat, x: real, y: real)
    requires a != b && j < a.Length == b.Length
    modifies a, b
    ensures forall j' :: 0 <= j' < a.Length ==>
      a[j'] == old(a[j']) + (if j' == j then x else 0.0) && b[j'] == old(b[j']) + (if j' == j then y else 0.0)
  {
    a[j] := a[j] + x;
    b[j] := b[j] + y;
  }

  /** Integrates segment i with the GLORDER points of the rule. */
  method AddProjectedSegment(inp: ProjectionInput, R: seq<real>, i: nat, proj: array<real>, projVel: array<real>)
    requires ValidProjection(inp) && CheckedUpTo(R, i) && i < |R|
    requires proj.Length == projVel.Length == |R| && proj != projVel
    modifies proj, projVel
    ensures forall j :: 0 <= j < |R| ==>
      proj[j] == old(proj[j]) + (if j <= i then SegmentSum(SigmaTerms(inp, R), i, GLORDER, j) else 0.0) &&
      projVel[j] == old(projVel[j]) + (if j <= i then SegmentSum(VelSqTerms(inp, R), i, GLORDER, j) else 0.0)
  {
    for k := 0 to GLORDER
      invariant forall j :: 0 <= j < |R| ==>
        proj[j] == old(proj[j]) + (if j <= i then SegmentSum(SigmaTerms(inp, R), i, k, j) else 0.0) &&
        projVel[j] == old(projVel[j]) + (if j <= i then SegmentSum(VelSqTerms(inp, R), i, k, j) else 0.0)
    {
      AddProjectedPoint(inp, R, i, k, proj, projVel);
    }
  }

  /** With the integrals over segments 0 .. i-1 in proj and projVel, adds those over segment i. */
  method AccumulateSegment(inp: ProjectionInput, R: seq<real>, i: nat, proj: array<real>, projVel: array<real>)
    requires ValidProjection(inp) && CheckedUpTo(R, i) && i < |R|
    requires proj.Length == projVel.Length == |R| && proj != projVel
    requires forall j :: 0 <= j < |R| ==>
      proj[j] == Upto(SigmaTerms(inp, R), GLORDER, i, j) && projVel[j] == Upto(VelSqTerms(inp, R), GLORDER, i, j)
    modifies proj, projVel
    ensures forall j :: 0 <= j < |R| ==>
      proj[j] == Upto(SigmaTerms(inp, R), GLORDER, i + 1, j) && projVel[j] == Upto(VelSqTerms(inp, R), GLORDER, i + 1, j)
  {
    AddProjectedSegment(inp, R, i, proj, projVel);
  }

  /** The result of ProjectedDensity from the two accumulated integrals. */
  lemma ProjectedDensityOf(inp: ProjectionInput, R: seq<real>, sigma: seq<real>, vel: seq<real>)
    requires ValidProjection(inp) && RGridOk(R) && |sigma| == |vel| == |R|
    requires forall j :: 0 <= j < |R| ==> sigma[j] == Upto(SigmaTerms(inp, R), GLORDER, |R|, j)
    requires forall j :: 0 <= j < |R| ==> vel[j] == Upto(VelSqTerms(inp, R), GLORDER, |R|, j)
    ensures ProjectedDensity(inp, R) ==
      Success(ProjectedProfile(sigma, seq(|R|, j requires 0 <= j < |R| => ProjVelDispEntry(inp.sqrt, sigma[j], vel[j]))))
  {
    var n := |R|;
    assert sigma == seq(n, j requires 0 <= j < n => Upto(SigmaTerms(inp, R), GLORDER, n, j));
    assert vel == seq(n, j requires 0 <= j < n => Upto(VelSqTerms(inp, R), GLORDER, n, j));
  }

  /**
   * computeProjectedDensity, with the check R_0 >= 0 made first: each segment is checked before
   * it is integrated, and the first one of non-positive length throws.
   */
  method ComputeProjectedDensity(inp: ProjectionInput, R: seq<real>) returns (r: Result<ProjectedProfile, GridError>)
    requires ValidProjection(inp)
    ensures r == ProjectedDensity(inp, R)
  {
    var n := |R|;
    if n > 0 && R[0] < 0.0 {
      ProjectedDensityRejects(inp, R, 0);
      return Failure(NegativeRadius);
    }
    var proj := new real[n](_ => 0.0);
    var projVel := new real[n](_ => 0.0);
    ghost var cs, cv := SigmaTerms(inp, R), VelSqTerms(inp, R);
    var i := 0;
    while i < n
      invariant 0 <= i <= n
      invariant forall i' :: 0 <= i' < i ==> RDelta(R, i') > 0.0
      invariant forall j :: 0 <= j < n ==> proj[j] == Upto(cs, GLORDER, i, j) && projVel[j] == Upto(cv, GLORDER, i, j)
    {
      var last := i == n - 1;
      var deltar := if last then R[i] else R[i + 1] - R[i];
      if deltar <= 0.0 {
        ProjectedDensityRejects(inp, R, i);
        return Failure(GridNotIncreasing);
      }
      AccumulateSegment(inp, R, i, proj, projVel);
      i := i + 1;
    }
    var sigma := proj[..];
    var vel := projVel[..];
    var velDisp := ProjVelDispEntries(inp.sqrt, sigma, vel);
    ProjectedDensityOf(inp, R, sigma, vel);
    return Success(ProjectedProfile(sigma, velDisp));
  }

  /** A grid starting below zero, or with segment i of non-positive length, is rejected. */
  lemma ProjectedDensityRejects(inp: ProjectionInput, R: seq<real>, i: nat)
    requires ValidProjection(inp) && i < |R|
    ensures R[0] < 0.0 ==> ProjectedDensity(inp, R) == Failure(NegativeRadius)
    ensures R[0] >= 0.0 && RDelta(R, i) <= 0.0 ==> ProjectedDensity(inp, R) == Failure(GridNotIncreasing)
  {
  }

  /** The last loop: sqrt(V_j / Sigma_j) at every node, None where Sigma_j is zero. */
  method ProjVelDispEntries(sqrt: real -> real, sigma: seq<real>, vel: seq<real>) returns (v: seq<Option<real>>)
    requires |sigma| == |vel|
    ensures v == seq(|sigma|, j requires 0 <= j < |sigma| => ProjVelDispEntry(sqrt, sigma[j], vel[j]))
  {
    var n := |sigma|;
    var velDisp := new Option<real>[n](_ => None);
    for j := 0 to n
      invariant forall j' :: 0 <= j' < j ==> velDisp[j'] == ProjVelDispEntry(sqrt, sigma[j'], vel[j'])
    {
      velDisp[j] := ProjVelDispEntry(sqrt, sigma[j], vel[j]);
    }
    v := velDisp[..];
  }

  // ---- properties ----

  /** The check as the library writes it passes exactly on strictly increasing grids ending at a positive radius. */
  lemma RGridAcceptedIff(R: seq<real>)
    ensures RGridAccepted(R) <==>
      (forall a, b :: 0 <= a < b < |R| ==> R[a] < R[b]) && (|R| > 0 ==> R[|R| - 1] > 0.0)
  {
    if RGridAccepted(R) {
      forall a, b | 0 <= a < b < |R|
        ensures R[a] < R[b]
      {
        CheckedRadiiIncrease(R, b, a + 1);
        assert RDelta(R, a) > 0.0;
      }
      if |R| > 0 {
        assert RDelta(R, |R| - 1) > 0.0;
      }
    }
    if (forall a, b :: 0 <= a < b < |R| ==> R[a] < R[b]) && (|R| > 0 ==> R[|R| - 1] > 0.0) {
      forall i | 0 <= i < |R|
        ensures RDelta(R, i) > 0.0
      {
        if i < |R| - 1 {
          assert R[i] < R[i + 1];
        }
      }
    }
  }

  /** The points of the first segment of [-1, 3]: -1 + 4 y^2. */
  lemma FirstSegmentPoint(y: real)
    requires 0.0 < y < 1.0
    ensures RPoint([-1.0, 3.0], y, 0) == -1.0 + y * y * 4.0
  {
    assert RDelta([-1.0, 3.0], 0) == 4.0;
  }

  /** For a node y < 0.7 that point lies strictly inside radius 1. */
  lemma FirstSegmentInside(y: real)
    requires 0.0 < y < 0.7
    ensures Pow2(-1.0 + y * y * 4.0) < Pow2(-1.0)
  {
    assert 2.0 - 4.0 * y * y > 0.0 by {
      MulPos(0.7 - y, y);
    }
    MulPos(y, 2.0 - 4.0 * y * y);
    MulPos(y, y * (2.0 - 4.0 * y * y));
  }

  /**
   * The check as written accepts the grid [-1, 3], and every point of its first segment with
   * node y < 0.7 lies inside radius 1, so r^2 - R_0^2 < 0 there: the assertion dif > 0 fails, and
   * without it sqrt(dif) is NaN. The corrected check rejects the grid.
   */
  lemma NegativeRadiusBreaksAssertion(y: real)
    requires 0.0 < y < 0.7
    ensures RGridAccepted([-1.0, 3.0]) && ProjDif([-1.0, 3.0], y, 0, 0) < 0.0
    ensures !RGridOk([-1.0, 3.0])
  {
    var R := [-1.0, 3.0];
    assert RDelta(R, 0) == 4.0 && RDelta(R, 1) == 3.0;
    FirstSegmentPoint(y);
    FirstSegmentInside(y);
  }

  lemma SigmaWeightSign(w: real, c: real, d: real, f: real, r: real)
    requires w > 0.0 && c > 0.0 && d > 0.0 && f >= 0.0 && r > 0.0
    ensures w * c * d * f * 2.0 * r >= 0.0
  {
    MulPos(w, c);
    MulPos(w * c, d);
    MulNonNeg(w * c * d, f);
    MulNonNeg(w * c * d * f * 2.0, r);
  }

  /** dr/dy is positive on both kinds of segment. */
  lemma JacobianPositive(y: real, last: bool)
    requires 0.0 < y < 1.0
    ensures (if last then 2.0 * y / (1.0 - y * y) / (1.0 - y * y) else 2.0 * y) > 0.0
  {
    UnitSquare(y);
    if last {
      DivPos(2.0 * y, 1.0 - y * y);
      DivPos(2.0 * y / (1.0 - y * y), 1.0 - y * y);
    }
  }

  /** With rho >= 0 the weight of every point of a checked segment is non-negative. */
  lemma RWeightNonNegative(inp: ProjectionInput, R: seq<real>, i: nat, k: nat)
    requires ValidProjection(inp) && (forall x :: inp.dens(x) >= 0.0)
    requires CheckedUpTo(R, i) && i < |R| && k < GLORDER
    ensures RWeight(inp, R, i, k) >= 0.0
  {
    var y := inp.gl.nodes[k];
    ProjDifPositive(R, y, i, 0);
    var r := RPoint(R, y, i);
    JacobianPositive(y, i == |R| - 1);
    var f := inp.dens(r);
    assert f >= 0.0;
    assert RDelta(R, i) > 0.0;
    SigmaWeightSign(inp.gl.weights[k], if i == |R| - 1 then 2.0 * y / (1.0 - y * y) / (1.0 - y * y) else 2.0 * y,
      RDelta(R, i), f, r);
  }

  /** With rho >= 0 every contribution to Sigma and to the dispersion integral is non-negative. */
  lemma ProjTermsNonNegative(inp: ProjectionInput, R: seq<real>, i: nat, k: nat, j: nat)
    requires ValidProjection(inp) && (forall x :: inp.dens(x) >= 0.0)
    requires CheckedUpTo(R, i) && j <= i < |R| && k < GLORDER
    ensures SigmaTerm(inp, R, i, k, j) >= 0.0 && VelSqTerm(inp, R, i, k, j) >= 0.0
  {
    var y := inp.gl.nodes[k];
    ProjDifPositive(R, y, i, j);
    RWeightNonNegative(inp, R, i, k);
    DivNonNeg(RWeight(inp, R, i, k), inp.sqrt(ProjDif(R, y, i, j)));
    MulNonNeg(SigmaTerm(inp, R, i, k, j), Pow2(inp.velDisp(RPoint(R, y, i))));
  }

  /**
   * On a grid that passes the corrected check, with rho >= 0, positive weights, nodes in (0,1)
   * and a true square root, Sigma is non-negative at every node, and the projected dispersion is
   * defined (and non-negative) exactly where Sigma is positive.
   */
  lemma ProjectedNonNegative(inp: ProjectionInput, R: seq<real>)
    requires ValidProjection(inp) && (forall x :: inp.dens(x) >= 0.0) && RGridOk(R)
    ensures var p := ProjectedDensity(inp, R);
      p.Success? && |p.value.sigma| == |p.value.velDisp| == |R| &&
      forall j :: 0 <= j < |R| ==>
        p.value.sigma[j] >= 0.0 && (p.value.velDisp[j].Some? <==> p.value.sigma[j] > 0.0) &&
        (p.value.velDisp[j].Some? ==> p.value.velDisp[j].value >= 0.0)
  {
    var n := |R|;
    var cs, cv := SigmaTerms(inp, R), VelSqTerms(inp, R);
    forall j | 0 <= j < n
      ensures Upto(cs, GLORDER, n, j) >= 0.0 && Upto(cv, GLORDER, n, j) >= 0.0
    {
      forall i': nat, k: nat | j <= i' < n && k < GLORDER
        ensures cs(i', k, j) >= 0.0 && cv(i', k, j) >= 0.0
      {
        ProjTermsNonNegative(inp, R, i', k, j);
      }
      UptoNonNegative(cs, GLORDER, n, j);
      UptoNonNegative(cv, GLORDER, n, j);
    }
    forall j | 0 <= j < n && Upto(cs, GLORDER, n, j) > 0.0
      ensures Upto(cv, GLORDER, n, j) / Upto(cs, GLORDER, n, j) >= 0.0
    {
      DivNonNeg(Upto(cv, GLORDER, n, j), Upto(cs, GLORDER, n, j));
    }
  }
}
