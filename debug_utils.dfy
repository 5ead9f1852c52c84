/**
 * Test helpers of the library (src/debug_utils.h): component-wise tolerance
 * comparisons of coordinates, gradients and Hessians, the running
 * mean/dispersion accumulator for actions, and the angle-unwrapping append.
 */
module DebugUtils {

  function Abs(x: real): (r: real)
    ensures r >= 0.0 && (r == x || r == -x)
  {
    if x < 0.0 then -x else x
  }

  /** fabs(a-b) < eps, the building block of every comparison below. */
  predicate Close(a: real, b: real, eps: real)
  {
    Abs(a - b) < eps
  }

  lemma CloseProperties(a: real, b: real, eps: real)
    ensures Close(a, b, eps) == Close(b, a, eps)
    ensures eps <= 0.0 ==> !Close(a, b, eps)
    ensures eps > 0.0 ==> Close(a, a, eps)
  {
  }

  // ---- coordinate, gradient and Hessian records ----

  datatype PosCar = PosCar(x: real, y: real, z: real)
  datatype PosCyl = PosCyl(R: real, z: real, phi: real)
  datatype PosSph = PosSph(r: real, theta: real, phi: real)

  datatype PosVelCar = PosVelCar(x: real, y: real, z: real, vx: real, vy: real, vz: real)
  datatype PosVelCyl = PosVelCyl(R: real, z: real, phi: real, vR: real, vz: real, vphi: real)
  datatype PosVelSph = PosVelSph(r: real, theta: real, phi: real, vr: real, vtheta: real, vphi: real)

  datatype GradCar = GradCar(dx: real, dy: real, dz: real)
  datatype GradCyl = GradCyl(dR: real, dz: real, dphi: real)
  datatype GradSph = GradSph(dr: real, dtheta: real, dphi: real)

  datatype HessCar = HessCar(dx2: real, dy2: real, dz2: real, dxdy: real, dydz: real, dxdz: real)
  datatype HessCyl = HessCyl(dR2: real, dphi2: real, dz2: real, dRdphi: real, dzdphi: real, dRdz: real)
  datatype HessSph = HessSph(dr2: real, dtheta2: real, dphi2: real, drdtheta: real, drdphi: real, dthetadphi: real)

  // ---- equalPos ----

  function EqualPosCar(p1: PosCar, p2: PosCar, eps: real): (r: bool)
    ensures r <==> (Abs(p1.x - p2.x) < eps && Abs(p1.y - p2.y) < eps && Abs(p1.z - p2.z) < eps)
    ensures eps <= 0.0 ==> !r
    ensures eps > 0.0 && p1 == p2 ==> r
  {
    Close(p1.x, p2.x, eps) && Close(p1.y, p2.y, eps) && Close(p1.z, p2.z, eps)
  }

  function EqualPosCyl(p1: PosCyl, p2: PosCyl, eps: real): (r: bool)
    ensures r <==> (Abs(p1.R - p2.R) < eps && Abs(p1.z - p2.z) < eps && Abs(p1.phi - p2.phi) < eps)
    ensures eps <= 0.0 ==> !r
    ensures eps > 0.0 && p1 == p2 ==> r
  {
    Close(p1.R, p2.R, eps) && Close(p1.z, p2.z, eps) && Close(p1.phi, p2.phi, eps)
  }

  function EqualPosSph(p1: PosSph, p2: PosSph, eps: real): (r: bool)
    ensures r <==> (Abs(p1.r - p2.r) < eps && Abs(p1.theta - p2.theta) < eps && Abs(p1.phi - p2.phi) < eps)
    ensures eps <= 0.0 ==> !r
    ensures eps > 0.0 && p1 == p2 ==> r
  {
    Close(p1.r, p2.r, eps) && Close(p1.theta, p2.theta, eps) && Close(p1.phi, p2.phi, eps)
  }

  /** Every equalPos overload is symmetric in its two points. */
  lemma EqualPosSymmetric(c1: PosCar, c2: PosCar, y1: PosCyl, y2: PosCyl, s1: PosSph, s2: PosSph, eps: real)
    ensures EqualPosCar(c1, c2, eps) == EqualPosCar(c2, c1, eps)
    ensures EqualPosCyl(y1, y2, eps) == EqualPosCyl(y2, y1, eps)
    ensures EqualPosSph(s1, s2, eps) == EqualPosSph(s2, s1, eps)
  {
    CloseProperties(c1.x, c2.x, eps);
    CloseProperties(c1.y, c2.y, eps);
    CloseProperties(c1.z, c2.z, eps);
    CloseProperties(y1.R, y2.R, eps);
    CloseProperties(y1.z, y2.z, eps);
    CloseProperties(y1.phi, y2.phi, eps);
    CloseProperties(s1.r, s2.r, eps);
    CloseProperties(s1.theta, s2.theta, eps);
    CloseProperties(s1.phi, s2.phi, eps);
  }

  // ---- equalPosVel, as written: the first velocity component of p2 is compared with itself ----

  function EqualPosVelCar(p1: PosVelCar, p2: PosVelCar, eps: real): (r: bool)
    ensures r <==> (Abs(p1.x - p2.x) < eps && Abs(p1.y - p2.y) < eps && Abs(p1.z - p2.z) < eps &&
                    0.0 < eps && Abs(p1.vy - p2.vy) < eps && Abs(p1.vz - p2.vz) < eps)
  {
    Close(p1.x, p2.x, eps) && Close(p1.y, p2.y, eps) && Close(p1.z, p2.z, eps) &&
    Close(p2.vx, p2.vx, eps) && Close(p1.vy, p2.vy, eps) && Close(p1.vz, p2.vz, eps)
  }

  function EqualPosVelCyl(p1: PosVelCyl, p2: PosVelCyl, eps: real): (r: bool)
    ensures r <==> (Abs(p1.R - p2.R) < eps && Abs(p1.z - p2.z) < eps && Abs(p1.phi - p2.phi) < eps &&
                    0.0 < eps && Abs(p1.vz - p2.vz) < eps && Abs(p1.vphi - p2.vphi) < eps)
  {
    Close(p1.R, p2.R, eps) && Close(p1.z, p2.z, eps) && Close(p1.phi, p2.phi, eps) &&
    Close(p2.vR, p2.vR, eps) && Close(p1.vz, p2.vz, eps) && Close(p1.vphi, p2.vphi, eps)
  }

  function EqualPosVelSph(p1: PosVelSph, p2: PosVelSph, eps: real): (r: bool)
    ensures r <==> (Abs(p1.r - p2.r) < eps && Abs(p1.theta - p2.theta) < eps && Abs(p1.phi - p2.phi) < eps &&
                    0.0 < eps && Abs(p1.vtheta - p2.vtheta) < eps && Abs(p1.vphi - p2.vphi) < eps)
  {
    Close(p1.r, p2.r, eps) && Close(p1.theta, p2.theta, eps) && Close(p1.phi, p2.phi, eps) &&
    Close(p2.vr, p2.vr, eps) && Close(p1.vtheta, p2.vtheta, eps) && Close(p1.vphi, p2.vphi, eps)
  }

  /** The as-written comparisons never look at the first velocity component of either point. */
  lemma EqualPosVelIgnoresFirstVelocity(c1: PosVelCar, c2: PosVelCar, y1: PosVelCyl, y2: PosVelCyl,
                                        s1: PosVelSph, s2: PosVelSph, a: real, b: real, eps: real)
    ensures EqualPosVelCar(c1.(vx := a), c2.(vx := b), eps) == EqualPosVelCar(c1, c2, eps)
    ensures EqualPosVelCyl(y1.(vR := a), y2.(vR := b), eps) == EqualPosVelCyl(y1, y2, eps)
    ensures EqualPosVelSph(s1.(vr := a), s2.(vr := b), eps) == EqualPosVelSph(s1, s2, eps)
  {
  }

  /** A concrete pair of Cartesian points whose velocities differ by 1 in vx but compare equal at tolerance 1/2. */
  lemma EqualPosVelCarMissesVx()
    ensures EqualPosVelCar(PosVelCar(0.0, 0.0, 0.0, 1.0, 0.0, 0.0), PosVelCar(0.0, 0.0, 0.0, 0.0, 0.0, 0.0), 0.5)
    ensures !EqualPosVelCarIntended(PosVelCar(0.0, 0.0, 0.0, 1.0, 0.0, 0.0), PosVelCar(0.0, 0.0, 0.0, 0.0, 0.0, 0.0), 0.5)
  {
  }

  // ---- equalPosVel, as evidently intended: p1's velocity against p2's ----

  function EqualPosVelCarIntended(p1: PosVelCar, p2: PosVelCar, eps: real): (r: bool)
    ensures r <==> (Abs(p1.x - p2.x) < eps && Abs(p1.y - p2.y) < eps && Abs(p1.z - p2.z) < eps &&
                    Abs(p1.vx - p2.vx) < eps && Abs(p1.vy - p2.vy) < eps && Abs(p1.vz - p2.vz) < eps)
    ensures eps <= 0.0 ==> !r
    ensures eps > 0.0 && p1 == p2 ==> r
  {
    Close(p1.x, p2.x, eps) && Close(p1.y, p2.y, eps) && Close(p1.z, p2.z, eps) &&
    Close(p1.vx, p2.vx, eps) && Close(p1.vy, p2.vy, eps) && Close(p1.vz, p2.vz, eps)
  }

  function EqualPosVelCylIntended(p1: PosVelCyl, p2: PosVelCyl, eps: real): (r: bool)
    ensures r <==> (Abs(p1.R - p2.R) < eps && Abs(p1.z - p2.z) < eps && Abs(p1.phi - p2.phi) < eps &&
                    Abs(p1.vR - p2.vR) < eps && Abs(p1.vz - p2.vz) < eps && Abs(p1.vphi - p2.vphi) < eps)
    ensures eps <= 0.0 ==> !r
    ensures eps > 0.0 && p1 == p2 ==> r
  {
    Close(p1.R, p2.R, eps) && Close(p1.z, p2.z, eps) && Close(p1.phi, p2.phi, eps) &&
    Close(p1.vR, p2.vR, eps) && Close(p1.vz, p2.vz, eps) && Close(p1.vphi, p2.vphi, eps)
  }

  function EqualPosVelSphIntended(p1: PosVelSph, p2: PosVelSph, eps: real): (r: bool)
    ensures r <==> (Abs(p1.r - p2.r) < eps && Abs(p1.theta - p2.theta) < eps && Abs(p1.phi - p2.phi) < eps &&
                    Abs(p1.vr - p2.vr) < eps && Abs(p1.vtheta - p2.vtheta) < eps && Abs(p1.vphi - p2.vphi) < eps)
    ensures eps <= 0.0 ==> !r
    ensures eps > 0.0 && p1 == p2 ==> r
  {
    Close(p1.r, p2.r, eps) && Close(p1.theta, p2.theta, eps) && Close(p1.phi, p2.phi, eps) &&
    Close(p1.vr, p2.vr, eps) && Close(p1.vtheta, p2.vtheta, eps) && Close(p1.vphi, p2.vphi, eps)
  }

  /**
   * The as-written comparison agrees with the intended one exactly when the first
   * velocity component of p1 is replaced by that of p2; the intended one is symmetric.
   */
  lemma EqualPosVelAsWrittenVersusIntended(c1: PosVelCar, c2: PosVelCar, y1: PosVelCyl, y2: PosVelCyl,
                                           s1: PosVelSph, s2: PosVelSph, eps: real)
    ensures EqualPosVelCar(c1, c2, eps) == EqualPosVelCarIntended(c1.(vx := c2.vx), c2, eps)
    ensures EqualPosVelCyl(y1, y2, eps) == EqualPosVelCylIntended(y1.(vR := y2.vR), y2, eps)
    ensures EqualPosVelSph(s1, s2, eps) == EqualPosVelSphIntended(s1.(vr := s2.vr), s2, eps)
    ensures EqualPosVelCarIntended(c1, c2, eps) == EqualPosVelCarIntended(c2, c1, eps)
    ensures EqualPosVelCylIntended(y1, y2, eps) == EqualPosVelCylIntended(y2, y1, eps)
    ensures EqualPosVelSphIntended(s1, s2, eps) == EqualPosVelSphIntended(s2, s1, eps)
    ensures EqualPosVelCarIntended(c1, c2, eps) ==> EqualPosVelCar(c1, c2, eps)
  {
    CarAsWrittenVersusIntended(c1, c2, eps);
    CylAsWrittenVersusIntended(y1, y2, eps);
    SphAsWrittenVersusIntended(s1, s2, eps);
  }

  lemma CarAsWrittenVersusIntended(c1: PosVelCar, c2: PosVelCar, eps: real)
    ensures EqualPosVelCar(c1, c2, eps) == EqualPosVelCarIntended(c1.(vx := c2.vx), c2, eps)
    ensures EqualPosVelCarIntended(c1, c2, eps) == EqualPosVelCarIntended(c2, c1, eps)
    ensures EqualPosVelCarIntended(c1, c2, eps) ==> EqualPosVelCar(c1, c2, eps)
  {
    CloseProperties(c1.vx, c2.vx, eps);
  }

  lemma CylAsWrittenVersusIntended(y1: PosVelCyl, y2: PosVelCyl, eps: real)
    ensures EqualPosVelCyl(y1, y2, eps) == EqualPosVelCylIntended(y1.(vR := y2.vR), y2, eps)
    ensures EqualPosVelCylIntended(y1, y2, eps) == EqualPosVelCylIntended(y2, y1, eps)
  {
    CloseProperties(y1.vR, y2.vR, eps);
  }

  lemma SphAsWrittenVersusIntended(s1: PosVelSph, s2: PosVelSph, eps: real)
    ensures EqualPosVelSph(s1, s2, eps) == EqualPosVelSphIntended(s1.(vr := s2.vr), s2, eps)
    ensures EqualPosVelSphIntended(s1, s2, eps) == EqualPosVelSphIntended(s2, s1, eps)
  {
    CloseProperties(s1.vr, s2.vr, eps);
  }

  // ---- equalGrad / equalHess ----

  function EqualGradCar(g1: GradCar, g2: GradCar, eps: real): (r: bool)
    ensures r <==> (Abs(g1.dx - g2.dx) < eps && Abs(g1.dy - g2.dy) < eps && Abs(g1.dz - g2.dz) < eps)
    ensures eps <= 0.0 ==> !r
    ensures eps > 0.0 && g1 == g2 ==> r
  {
    Close(g1.dx, g2.dx, eps) && Close(g1.dy, g2.dy, eps) && Close(g1.dz, g2.dz, eps)
  }

  function EqualGradCyl(g1: GradCyl, g2: GradCyl, eps: real): (r: bool)
    ensures r <==> (Abs(g1.dR - g2.dR) < eps && Abs(g1.dphi - g2.dphi) < eps && Abs(g1.dz - g2.dz) < eps)
    ensures eps <= 0.0 ==> !r
    ensures eps > 0.0 && g1 == g2 ==> r
  {
    Close(g1.dR, g2.dR, eps) && Close(g1.dphi, g2.dphi, eps) && Close(g1.dz, g2.dz, eps)
  }

  function EqualGradSph(g1: GradSph, g2: GradSph, eps: real): (r: bool)
    ensures r <==> (Abs(g1.dr - g2.dr) < eps && Abs(g1.dtheta - g2.dtheta) < eps && Abs(g1.dphi - g2.dphi) < eps)
    ensures eps <= 0.0 ==> !r
    ensures eps > 0.0 && g1 == g2 ==> r
  {
    Close(g1.dr, g2.dr, eps) && Close(g1.dtheta, g2.dtheta, eps) && Close(g1.dphi, g2.dphi, eps)
  }

  function EqualHessCar(h1: HessCar, h2: HessCar, eps: real): (r: bool)
    ensures r <==> (Abs(h1.dx2 - h2.dx2) < eps && Abs(h1.dy2 - h2.dy2) < eps && Abs(h1.dz2 - h2.dz2) < eps &&
                    Abs(h1.dxdy - h2.dxdy) < eps && Abs(h1.dydz - h2.dydz) < eps && Abs(h1.dxdz - h2.dxdz) < eps)
    ensures eps <= 0.0 ==> !r
    ensures eps > 0.0 && h1 == h2 ==> r
  {
    Close(h1.dx2, h2.dx2, eps) && Close(h1.dy2, h2.dy2, eps) && Close(h1.dz2, h2.dz2, eps) &&
    Close(h1.dxdy, h2.dxdy, eps) && Close(h1.dydz, h2.dydz, eps) && Close(h1.dxdz, h2.dxdz, eps)
  }

  function EqualHessCyl(h1: HessCyl, h2: HessCyl, eps: real): (r: bool)
    ensures r <==> (Abs(h1.dR2 - h2.dR2) < eps && Abs(h1.dphi2 - h2.dphi2) < eps && Abs(h1.dz2 - h2.dz2) < eps &&
                    Abs(h1.dRdphi - h2.dRdphi) < eps && Abs(h1.dzdphi - h2.dzdphi) < eps && Abs(h1.dRdz - h2.dRdz) < eps)
    ensures eps <= 0.0 ==> !r
    ensures eps > 0.0 && h1 == h2 ==> r
  {
    Close(h1.dR2, h2.dR2, eps) && Close(h1.dphi2, h2.dphi2, eps) && Close(h1.dz2, h2.dz2, eps) &&
    Close(h1.dRdphi, h2.dRdphi, eps) && Close(h1.dzdphi, h2.dzdphi, eps) && Close(h1.dRdz, h2.dRdz, eps)
  }

  function EqualHessSph(h1: HessSph, h2: HessSph, eps: real): (r: bool)
    ensures r <==> (Abs(h1.dr2 - h2.dr2) < eps && Abs(h1.dtheta2 - h2.dtheta2) < eps && Abs(h1.dphi2 - h2.dphi2) < eps &&
                    Abs(h1.drdtheta - h2.drdtheta) < eps && Abs(h1.drdphi - h2.drdphi) < eps &&
                    Abs(h1.dthetadphi - h2.dthetadphi) < eps)
    ensures eps <= 0.0 ==> !r
    ensures eps > 0.0 && h1 == h2 ==> r
  {
    Close(h1.dr2, h2.dr2, eps) && Close(h1.dtheta2, h2.dtheta2, eps) && Close(h1.dphi2, h2.dphi2, eps) &&
    Close(h1.drdtheta, h2.drdtheta, eps) && Close(h1.drdphi, h2.drdphi, eps) && Close(h1.dthetadphi, h2.dthetadphi, eps)
  }

  /** equalGrad is symmetric in its two arguments. */
  lemma EqualGradSymmetric(a1: GradCar, a2: GradCar, b1: GradCyl, b2: GradCyl, c1: GradSph, c2: GradSph, eps: real)
    ensures EqualGradCar(a1, a2, eps) == EqualGradCar(a2, a1, eps)
    ensures EqualGradCyl(b1, b2, eps) == EqualGradCyl(b2, b1, eps)
    ensures EqualGradSph(c1, c2, eps) == EqualGradSph(c2, c1, eps)
  {
  }

  /** equalHess is symmetric in its two arguments. */
  lemma EqualHessSymmetric(d1: HessCar, d2: HessCar, e1: HessCyl, e2: HessCyl, f1: HessSph, f2: HessSph, eps: real)
    ensures EqualHessCar(d1, d2, eps) == EqualHessCar(d2, d1, eps)
    ensures EqualHessCyl(e1, e2, eps) == EqualHessCyl(e2, e1, eps)
    ensures EqualHessSph(f1, f2, eps) == EqualHessSph(f2, f1, eps)
  {
  }

  // ---- actionstat ----

  datatype Actions = Actions(Jr: real, Jz: real, Jphi: real)

  /** Sums of the three action components and of their squares over a sequence of samples. */
  function SumActions(s: seq<Actions>): (r: Actions)
    ensures s == [] ==> r == Actions(0.0, 0.0, 0.0)
  {
    if s == [] then Actions(0.0, 0.0, 0.0)
    else var t := SumActions(s[..|s| - 1]); var a := s[|s| - 1];
      Actions(t.Jr + a.Jr, t.Jz + a.Jz, t.Jphi + a.Jphi)
  }

  function Squares(a: Actions): Actions
  {
    Actions(a.Jr * a.Jr, a.Jz * a.Jz, a.Jphi * a.Jphi)
  }

  function SumSquares(s: seq<Actions>): (r: Actions)
    ensures s == [] ==> r == Actions(0.0, 0.0, 0.0)
  {
    if s == [] then Actions(0.0, 0.0, 0.0)
    else var t := SumSquares(s[..|s| - 1]); var a := Squares(s[|s| - 1]);
      Actions(t.Jr + a.Jr, t.Jz + a.Jz, t.Jphi + a.Jphi)
  }

  /** max(0, mean of squares - square of mean): the argument of sqrt in actionstat::finish. */
  function VarianceArg(sumSq: real, mean: real, n: int): (r: real)
    requires n > 0
    ensures r >= 0.0
    ensures sumSq / n as real - mean * mean >= 0.0 ==> r == sumSq / n as real - mean * mean
  {
    var v := sumSq / n as real - mean * mean;
    if v > 0.0 then v else 0.0
  }

  /** Helper class accumulating the mean and dispersion of actions (actionstat). */
  class ActionStat {
    var avg: Actions
    var disp: Actions
    var N: int
    /** the samples added so far */
    ghost var samples: seq<Actions>

    /** While accumulating, avg and disp hold the plain sums and sums of squares. */
    ghost predicate Valid()
      reads this
    {
      N == |samples| && avg == SumActions(samples) && disp == SumSquares(samples)
    }

    constructor ()
      ensures Valid() && samples == []
      ensures avg == Actions(0.0, 0.0, 0.0) && disp == avg && N == 0
    {
      avg := Actions(0.0, 0.0, 0.0);
      disp := Actions(0.0, 0.0, 0.0);
      N := 0;
      samples := [];
    }

    method Add(act: Actions)
      requires Valid()
      modifies this
      ensures Valid() && samples == old(samples) + [act]
      ensures N == old(N) + 1
      ensures avg == Actions(old(avg).Jr + act.Jr, old(avg).Jz + act.Jz, old(avg).Jphi + act.Jphi)
      ensures disp == Actions(old(disp).Jr + act.Jr * act.Jr, old(disp).Jz + act.Jz * act.Jz,
                              old(disp).Jphi + act.Jphi * act.Jphi)
    {
      avg := Actions(avg.Jr + act.Jr, avg.Jz + act.Jz, avg.Jphi + act.Jphi);
      disp := Actions(disp.Jr + act.Jr * act.Jr, disp.Jz + act.Jz * act.Jz, disp.Jphi + act.Jphi * act.Jphi);
      N := N + 1;
      samples := samples + [act];
      assert samples[..|samples| - 1] == old(samples);
    }

    /**
     * Turns the sums into means and the sums of squares into dispersions;
     * sqrt is the library's square root, applied only to non-negative arguments.
     */
    method Finish(sqrt: real -> real)
      requires Valid() && N > 0
      modifies this
      ensures N == old(N) && samples == old(samples)
      ensures avg == Actions(old(avg).Jr / N as real, old(avg).Jz / N as real, old(avg).Jphi / N as real)
      ensures avg == Actions(SumActions(samples).Jr / N as real, SumActions(samples).Jz / N as real,
                             SumActions(samples).Jphi / N as real)
      ensures disp == Actions(sqrt(VarianceArg(old(disp).Jr, avg.Jr, N)),
                              sqrt(VarianceArg(old(disp).Jz, avg.Jz, N)),
                              sqrt(VarianceArg(old(disp).Jphi, avg.Jphi, N)))
    {
      var n := N as real;
      avg := Actions(avg.Jr / n, avg.Jz / n, avg.Jphi / n);
      disp := Actions(sqrt(VarianceArg(disp.Jr, avg.Jr, N)),
                      sqrt(VarianceArg(disp.Jz, avg.Jz, N)),
                      sqrt(VarianceArg(disp.Jphi, avg.Jphi, N)));
    }
  }

  // ---- add_unwrap ----

  /**
   * Appends val to vec, unwrapped relative to the last element by the library's
   * unwrapAngle (a parameter here); an empty vector receives val itself.
   */
  method AddUnwrap(val: real, vec: seq<real>, unwrapAngle: (real, real) -> real) returns (r: seq<real>)
    ensures |r| == |vec| + 1 && r[..|vec|] == vec
    ensures vec == [] ==> r == [val]
    ensures vec != [] ==> r[|vec|] == unwrapAngle(val, vec[|vec| - 1])
  {
    r := vec;
    if |r| == 0 {
      r := r + [val];
    } else {
      r := r + [unwrapAngle(val, r[|r| - 1])];
    }
  }
}
