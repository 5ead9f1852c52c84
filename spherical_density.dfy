/**
 * computeDensity: rho(Phi_j) and the velocity dispersion at the nodes of a grid in Phi, from a
 * DF f(h) and the phase volume h(Phi). Every grid segment (the last one runs up to Phi = 0) is
 * integrated with the Gauss-Legendre rule of order GLORDER in the variable y, Phi = Phi_i + y^2
 * (Phi_{i+1} - Phi_i), and each point adds to all nodes at or below its segment.
 */
module SphericalDensity {
  import opened Wrappers
  import opened Numerics
  import opened TriangularSums

  /** The numerics computeDensity calls: f(h), h(Phi), the Gauss-Legendre rule and sqrt. */
  datatype DensityInput = DensityInput(df: real -> real, h: real -> real, gl: QuadRule, sqrt: real -> real)

  /** The exception thrown when a grid segment has non-positive length. */
  datatype GridError = GridNotIncreasing | NegativeRadius

  /**
   * rho at the grid nodes and, when the caller asks for it, the velocity dispersion at each
   * node; a dispersion of None is the NaN of a division by a zero density.
   */
  datatype DensityProfile = DensityProfile(rho: seq<real>, velDisp: Option<seq<Option<real>>>)

  /** The rule has GLORDER nodes and weights. */
  predicate RuleSized(gl: QuadRule)
  {
    |gl.nodes| == GLORDER && |gl.weights| == GLORDER
  }

  /** The length of segment i in Phi: up to the next node, and up to Phi = 0 for the last one. */
  function PhiDelta(grid: seq<real>, i: nat): real
    requires i < |grid|
  {
    (if i < |grid| - 1 then grid[i + 1] else 0.0) - grid[i]
  }

  /** The check made before each segment is integrated: every segment has positive length. */
  predicate PhiGridOk(grid: seq<real>)
  {
    forall i :: 0 <= i < |grid| ==> PhiDelta(grid, i) > 0.0
  }

  /** Quadrature point k of segment i. */
  function PhiPoint(inp: DensityInput, grid: seq<real>, i: nat, k: nat): real
    requires RuleSized(inp.gl) && i < |grid| && k < GLORDER
  {
    var y := inp.gl.nodes[k];
    grid[i] + y * y * PhiDelta(grid, i)
  }

  /** The quadrature weight of point k of segment i times dPhi/dy, f(h(Phi)) and 4 pi sqrt(2). */
  function PhiWeight(inp: DensityInput, grid: seq<real>, i: nat, k: nat): real
    requires RuleSized(inp.gl) && i < |grid| && k < GLORDER
  {
    var y := inp.gl.nodes[k];
    inp.gl.weights[k] * 2.0 * y * PhiDelta(grid, i) * inp.df(inp.h(PhiPoint(inp, grid, i, k))) * (4.0 * PI * SQRT2)
  }

  /** The contribution of point k of segment i to rho at node j: sqrt(Phi - Phi_j) times the weight. */
  function RhoTerm(inp: DensityInput, grid: seq<real>, i: nat, k: nat, j: nat): real
    requires RuleSized(inp.gl) && i < |grid| && k < GLORDER && j < |grid|
  {
    var dif := PhiPoint(inp, grid, i, k) - grid[j];
    if dif > 0.0 then inp.sqrt(dif) * PhiWeight(inp, grid, i, k) else 0.0
  }

  /** The contribution of the same point to the integral behind the velocity dispersion. */
  function VelTerm(inp: DensityInput, grid: seq<real>, i: nat, k: nat, j: nat): real
    requires RuleSized(inp.gl) && i < |grid| && k < GLORDER && j < |grid|
  {
    RhoTerm(inp, grid, i, k, j) * (PhiPoint(inp, grid, i, k) - grid[j])
  }

  function RhoTerms(inp: DensityInput, grid: seq<real>): (nat, nat, nat) -> real
    requires RuleSized(inp.gl)
  {
    (i: nat, k: nat, j: nat) => if i < |grid| && k < GLORDER && j < |grid| then RhoTerm(inp, grid, i, k, j) else 0.0
  }

  function VelTerms(inp: DensityInput, grid: seq<real>): (nat, nat, nat) -> real
    requires RuleSized(inp.gl)
  {
    (i: nat, k: nat, j: nat) => if i < |grid| && k < GLORDER && j < |grid| then VelTerm(inp, grid, i, k, j) else 0.0
  }

  /** sqrt(2/3 V / rho), None where rho is zero. */
  function VelDispEntry(sqrt: real -> real, rho: real, v: real): Option<real>
  {
    if rho == 0.0 then None else Some(sqrt(2.0 / 3.0 * v / rho))
  }

  /** What computeDensity returns, or the exception it throws. */
  function Density(inp: DensityInput, grid: seq<real>, wantVelDisp: bool): Result<DensityProfile, GridError>
    requires RuleSized(inp.gl)
  {
    if !PhiGridOk(grid) then Failure(GridNotIncreasing)
    else
      var n := |grid|;
      var rho := seq(n, j requires 0 <= j < n => Upto(RhoTerms(inp, grid), GLORDER, n, j));
      var vel := seq(n, j requires 0 <= j < n => Upto(VelTerms(inp, grid), GLORDER, n, j));
      var velDisp := seq(n, j requires 0 <= j < n => VelDispEntry(inp.sqrt, rho[j], vel[j]));
      Success(DensityProfile(rho, if wantVelDisp then Some(velDisp) else None))
  }

  // ---- the imperative computation ----

  lemma SquareTimesNonNeg(y: real, d: real)
    requires d >= 0.0
    ensures y * y * d >= 0.0
  {
    if y >= 0.0 {
      MulNonNeg(y, y);
    } else {
      MulNonNeg(-y, -y);
    }
    MulNonNeg(y * y, d);
  }

  /** Once the segments up to i have passed the check, the nodes up to i increase. */
  lemma {:induction false} CheckedPrefixIncreases(grid: seq<real>, i: nat, j: nat)
    requires i < |grid| && j <= i
    requires forall i' :: 0 <= i' < i ==> PhiDelta(grid, i') > 0.0
    ensures grid[j] <= grid[i]
    decreases i - j
  {
    if j < i {
      CheckedPrefixIncreases(grid, i, j + 1);
      assert PhiDelta(grid, j) > 0.0;
    }
  }

  /** Adds point k of segment i to the entries j <= i; the difference Phi - Phi_j is never negative. */
  method AddDensityPoint(inp: DensityInput, grid: seq<real>, i: nat, k: nat, result: array<real>, velSum: array<real>)
    requires RuleSized(inp.gl) && i < |grid| && k < GLORDER
    requires result.Length == velSum.Length == |grid| && result != velSum
    requires forall i' :: 0 <= i' <= i ==> PhiDelta(grid, i') > 0.0
    modifies result, velSum
    ensures forall j :: 0 <= j < |grid| ==>
      result[j] == old(result[j]) + (if j <= i then RhoTerm(inp, grid, i, k, j) else 0.0) &&
      velSum[j] == old(velSum[j]) + (if j <= i then VelTerm(inp, grid, i, k, j) else 0.0)
  {
    var y := inp.gl.nodes[k];
    SquareTimesNonNeg(y, PhiDelta(grid, i));
    var Phi := PhiPoint(inp, grid, i, k);
    var weight := PhiWeight(inp, grid, i, k);
    for j := 0 to i + 1
      invariant forall j' :: 0 <= j' < |grid| ==>
        result[j'] == old(result[j']) + (if j' < j then RhoTerm(inp, grid, i, k, j') else 0.0) &&
        velSum[j'] == old(velSum[j']) + (if j' < j then VelTerm(inp, grid, i, k, j') else 0.0)
    {
      var dif := Phi - grid[j];
      CheckedPrefixIncreases(grid, i, j);
      assert dif >= 0.0;
      var val := if dif > 0.0 then inp.sqrt(dif) * weight else 0.0;
      result[j] := result[j] + val;
      velSum[j] := velSum[j] + val * dif;
    }
  }

  /** Integrates segment i with the GLORDER points of the rule. */
  method AddDensitySegment(inp: DensityInput, grid: seq<real>, i: nat, result: array<real>, velSum: array<real>)
    requires RuleSized(inp.gl) && i < |grid|
    requires result.Length == velSum.Length == |grid| && result != velSum
    requires forall i' :: 0 <= i' <= i ==> PhiDelta(grid, i') > 0.0
    modifies result, velSum
    ensures forall j :: 0 <= j < |grid| ==>
      result[j] == old(result[j]) + (if j <= i then SegmentSum(RhoTerms(inp, grid), i, GLORDER, j) else 0.0) &&
      velSum[j] == old(velSum[j]) + (if j <= i then SegmentSum(VelTerms(inp, grid), i, GLORDER, j) else 0.0)
  {
    ghost var cr, cv := RhoTerms(inp, grid), VelTerms(inp, grid);
    for k := 0 to GLORDER
      invariant forall j :: 0 <= j < |grid| ==>
        result[j] == old(result[j]) + (if j <= i then SegmentSum(cr, i, k, j) else 0.0) &&
        velSum[j] == old(velSum[j]) + (if j <= i then SegmentSum(cv, i, k, j) else 0.0)
    {
      AddDensityPoint(inp, grid, i, k, result, velSum);
    }
  }

  /**
   * computeDensity: checks each segment before integrating it and throws at the first one of
   * non-positive length; then divides the two integrals into the velocity dispersion when asked.
   */
  method ComputeDensity(inp: DensityInput, grid: seq<real>, wantVelDisp: bool)
    returns (r: Result<DensityProfile, GridError>)
    requires RuleSized(inp.gl)
    ensures r == Density(inp, grid, wantVelDisp)
  {
    var n := |grid|;
    var result := new real[n](_ => 0.0);
    var velSum := new real[n](_ => 0.0);
    ghost var cr, cv := RhoTerms(inp, grid), VelTerms(inp, grid);
    var i := 0;
    while i < n
      invariant 0 <= i <= n
      invariant forall i' :: 0 <= i' < i ==> PhiDelta(grid, i') > 0.0
      invariant forall j :: 0 <= j < n ==> result[j] == Upto(cr, GLORDER, i, j) && velSum[j] == Upto(cv, GLORDER, i, j)
    {
      var deltaPhi := (if i < n - 1 then grid[i + 1] else 0.0) - grid[i];
      if deltaPhi <= 0.0 {
        assert !(PhiDelta(grid, i) > 0.0);
        return Failure(GridNotIncreasing);
      }
      AddDensitySegment(inp, grid, i, result, velSum);
      i := i + 1;
    }
    var rho := result[..];
    var vel := velSum[..];
    var velDisp := VelDispEntries(inp.sqrt, rho, vel);
    DensityOf(inp, grid, wantVelDisp, rho, vel);
    return Success(DensityProfile(rho, if wantVelDisp then Some(velDisp) else None));
  }

  /** The last loop: sqrt(2/3 V_j / rho_j) at every node, None where rho_j is zero. */
  method VelDispEntries(sqrt: real -> real, rho: seq<real>, vel: seq<real>) returns (v: seq<Option<real>>)
    requires |rho| == |vel|
    ensures v == seq(|rho|, j requires 0 <= j < |rho| => VelDispEntry(sqrt, rho[j], vel[j]))
  {
    var n := |rho|;
    var velDisp := new Option<real>[n](_ => None);
    for j := 0 to n
      invariant forall j' :: 0 <= j' < j ==> velDisp[j'] == VelDispEntry(sqrt, rho[j'], vel[j'])
    {
      velDisp[j] := VelDispEntry(sqrt, rho[j], vel[j]);
    }
    v := velDisp[..];
  }

  /** The result of Density from the two accumulated integrals. */
  lemma DensityOf(inp: DensityInput, grid: seq<real>, wantVelDisp: bool, rho: seq<real>, vel: seq<real>)
    requires RuleSized(inp.gl) && PhiGridOk(grid) && |rho| == |vel| == |grid|
    requires forall j :: 0 <= j < |grid| ==> rho[j] == Upto(RhoTerms(inp, grid), GLORDER, |grid|, j)
    requires forall j :: 0 <= j < |grid| ==> vel[j] == Upto(VelTerms(inp, grid), GLORDER, |grid|, j)
    ensures Density(inp, grid, wantVelDisp) ==
      Success(DensityProfile(rho, if wantVelDisp
        then Some(seq(|grid|, j requires 0 <= j < |grid| => VelDispEntry(inp.sqrt, rho[j], vel[j])))
        else None))
  {
    var n := |grid|;
    assert rho == seq(n, j requires 0 <= j < n => Upto(RhoTerms(inp, grid), GLORDER, n, j));
    assert vel == seq(n, j requires 0 <= j < n => Upto(VelTerms(inp, grid), GLORDER, n, j));
  }

  // ---- properties ----

  /** The check passes exactly on grids that increase strictly and stay below Phi = 0. */
  lemma PhiGridOkIff(grid: seq<real>)
    ensures PhiGridOk(grid) <==>
      (forall a, b :: 0 <= a < b < |grid| ==> grid[a] < grid[b]) && (forall a :: 0 <= a < |grid| ==> grid[a] < 0.0)
  {
    if PhiGridOk(grid) {
      forall a, b | 0 <= a < b < |grid|
        ensures grid[a] < grid[b]
      {
        CheckedPrefixIncreases(grid, b, a + 1);
        assert PhiDelta(grid, a) > 0.0;
      }
      forall a | 0 <= a < |grid|
        ensures grid[a] < 0.0
      {
        CheckedPrefixIncreases(grid, |grid| - 1, a);
        assert PhiDelta(grid, |grid| - 1) > 0.0;
      }
    }
  }

  lemma WeightNonNeg(w: real, y: real, d: real, f: real, c: real)
    requires w > 0.0 && y > 0.0 && d > 0.0 && f >= 0.0 && c > 0.0
    ensures w * 2.0 * y * d * f * c >= 0.0
  {
    MulPos(w * 2.0, y);
    MulPos(w * 2.0 * y, d);
    MulNonNeg(w * 2.0 * y * d, f);
    MulNonNeg(w * 2.0 * y * d * f, c);
  }

  /** With f >= 0, a valid rule and a true square root, every contribution is non-negative. */
  lemma TermsNonNegative(inp: DensityInput, grid: seq<real>, i: nat, k: nat, j: nat)
    requires RuleSized(inp.gl) && ValidRule(inp.gl, GLORDER) && SqrtLike(inp.sqrt) && (forall x :: inp.df(x) >= 0.0)
    requires PhiGridOk(grid) && i < |grid| && k < GLORDER && j < |grid|
    ensures RhoTerm(inp, grid, i, k, j) >= 0.0 && VelTerm(inp, grid, i, k, j) >= 0.0
  {
    var dif := PhiPoint(inp, grid, i, k) - grid[j];
    var z := inp.h(PhiPoint(inp, grid, i, k));
    assert inp.df(z) >= 0.0;
    if dif > 0.0 {
      MulPos(4.0 * PI, SQRT2);
      WeightNonNeg(inp.gl.weights[k], inp.gl.nodes[k], PhiDelta(grid, i), inp.df(z), 4.0 * PI * SQRT2);
      MulNonNeg(inp.sqrt(dif), PhiWeight(inp, grid, i, k));
      MulNonNeg(RhoTerm(inp, grid, i, k, j), dif);
    }
  }

  /**
   * On an accepted grid, with f >= 0, positive weights, nodes in (0,1) and a true square root,
   * the result has one entry per node and every density is non-negative; the dispersion is
   * defined (and non-negative) exactly where the density is positive.
   */
  lemma DensityNonNegative(inp: DensityInput, grid: seq<real>, wantVelDisp: bool)
    requires RuleSized(inp.gl) && ValidRule(inp.gl, GLORDER) && SqrtLike(inp.sqrt) && (forall x :: inp.df(x) >= 0.0)
    requires PhiGridOk(grid)
    ensures var r := Density(inp, grid, wantVelDisp);
      r.Success? && |r.value.rho| == |grid| && (forall j :: 0 <= j < |grid| ==> r.value.rho[j] >= 0.0) &&
      (r.value.velDisp.Some? <==> wantVelDisp)
    ensures var r := Density(inp, grid, wantVelDisp);
      wantVelDisp ==>
        |r.value.velDisp.value| == |grid| &&
        forall j :: 0 <= j < |grid| ==>
          (r.value.velDisp.value[j].Some? <==> r.value.rho[j] > 0.0) &&
          (r.value.velDisp.value[j].Some? ==> r.value.velDisp.value[j].value >= 0.0)
  {
    var n := |grid|;
    var cr, cv := RhoTerms(inp, grid), VelTerms(inp, grid);
    forall j | 0 <= j < n
      ensures Upto(cr, GLORDER, n, j) >= 0.0 && Upto(cv, GLORDER, n, j) >= 0.0
    {
      forall i': nat, k: nat | j <= i' < n && k < GLORDER
        ensures cr(i', k, j) >= 0.0 && cv(i', k, j) >= 0.0
      {
        TermsNonNegative(inp, grid, i', k, j);
      }
      UptoNonNegative(cr, GLORDER, n, j);
      UptoNonNegative(cv, GLORDER, n, j);
    }
    forall j | 0 <= j < n && Upto(cr, GLORDER, n, j) > 0.0
      ensures 2.0 / 3.0 * Upto(cv, GLORDER, n, j) / Upto(cr, GLORDER, n, j) >= 0.0
    {
      DivNonNeg(2.0 / 3.0 * Upto(cv, GLORDER, n, j), Upto(cr, GLORDER, n, j));
    }
  }
}
