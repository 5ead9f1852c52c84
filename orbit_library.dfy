/**
 * sampleOrbitLibrary: an N-body snapshot drawn from an orbit library. Each orbit receives a share
 * of the N particles proportional to its weight (the boundaries of the shares are the rounded-down
 * cumulative weight fractions), and its particles are points of its recorded trajectory taken in
 * the order of a random permutation. All particles have the same mass, total weight / N.
 */
module OrbitLibrary {
  import opened Wrappers
  import opened Numerics

  /** One phase-space point: x, y, z, vx, vy, vz. */
  type Point = seq<real>

  /** An element of 'traj': an array of L points (shape L x 6), or anything else. */
  datatype Trajectory = Points(points: seq<Point>) | NotLx6

  /**
   * The 'traj' argument: an object array whose (first column or only column of) elements are the
   * trajectories, or an argument that is not such an array.
   */
  datatype TrajArg = TrajArray(elems: seq<Trajectory>) | InvalidTrajArg

  datatype SampleError = NonPositiveCount | EmptyWeights | NonPositiveTotal | BadTrajArray | BadTrajectory

  /**
   * The two results of a completed run: the particles and their masses, or the orbits that had
   * fewer trajectory points than particles to give and how many each had to give.
   */
  datatype Outcome = Sampled(posvel: seq<Point>, mass: seq<real>)
                   | Insufficient(indices: seq<int>, counts: seq<int>)

  /**
   * The random permutation drawn for an orbit: perm(orb, L, i) is its i-th index. It is a
   * parameter of the model, constrained only to be a permutation of 0 .. L-1.
   */
  ghost predicate IsPermutation(perm: (nat, nat, nat) -> nat)
  {
    (forall orb: nat, len: nat, i: nat :: i < len ==> perm(orb, len, i) < len) &&
    (forall orb: nat, len: nat, i: nat, j: nat :: i < j < len ==> perm(orb, len, i) != perm(orb, len, j))
  }

  // ---------------------------------------------------------------------------------------------
  // The share of each orbit
  // ---------------------------------------------------------------------------------------------

  /** The weight of the first k orbits. */
  function Cumul(w: seq<real>, k: nat): real
    requires k <= |w|
  {
    if k == 0 then 0.0 else Cumul(w, k - 1) + w[k - 1]
  }

  predicate NonNegative(w: seq<real>)
  {
    forall j :: 0 <= j < |w| ==> w[j] >= 0.0
  }

  /** Weights the routine accepts: non-empty, none negative, with a positive sum. */
  predicate ValidWeights(w: seq<real>)
  {
    |w| > 0 && NonNegative(w) && Cumul(w, |w|) > 0.0
  }

  /** The particle index at which the orbits from k on start: the rounded-down weight fraction of N. */
  function Boundary(w: seq<real>, n: int, k: nat): int
    requires ValidWeights(w) && k <= |w|
  {
    (Cumul(w, k) / Cumul(w, |w|) * n as real).Floor
  }

  /** The boundaries of all orbits' shares, from the first orbit's start to the last one's end. */
  function Shares(w: seq<real>, n: int): (b: seq<int>)
    requires ValidWeights(w)
    ensures |b| == |w| + 1
  {
    seq(|w| + 1, k requires 0 <= k <= |w| => Boundary(w, n, k))
  }

  /**
   * Share boundaries that tile the particles 0 .. N-1: they start at 0, never decrease and end at
   * N, so orbit k owns the particles b[k] .. b[k+1]-1.
   */
  predicate Tiling(b: seq<int>, n: int)
  {
    |b| >= 1 && b[0] == 0 && b[|b| - 1] == n && forall j, k :: 0 <= j <= k < |b| ==> b[j] <= b[k]
  }

  lemma {:induction false} CumulMonotone(w: seq<real>, j: nat, k: nat)
    requires NonNegative(w) && j <= k <= |w|
    ensures 0.0 <= Cumul(w, j) <= Cumul(w, k)
    decreases k
  {
    if k > 0 {
      if j < k {
        CumulMonotone(w, j, k - 1);
      } else {
        CumulMonotone(w, k - 1, k - 1);
      }
    }
  }

  /** The boundaries never decrease, so no orbit is asked for a negative number of particles. */
  lemma BoundaryMonotone(w: seq<real>, n: int, j: nat, k: nat)
    requires ValidWeights(w) && n > 0 && j <= k <= |w|
    ensures 0 <= Boundary(w, n, j) <= Boundary(w, n, k)
  {
    CumulMonotone(w, j, k);
    var t := Cumul(w, |w|);
    FractionMonotone(Cumul(w, j), Cumul(w, k), t, n as real);
    FloorMonotone(Cumul(w, j) / t * n as real, Cumul(w, k) / t * n as real);
  }

  lemma FloorMonotone(u: real, v: real)
    requires 0.0 <= u <= v
    ensures 0 <= u.Floor <= v.Floor
  {
  }

  lemma FractionMonotone(a: real, b: real, t: real, n: real)
    requires 0.0 <= a <= b && t > 0.0 && n >= 0.0
    ensures 0.0 <= a / t * n <= b / t * n
  {
    DivNonNeg(a, t);
    DivNonNeg(b - a, t);
    assert b / t - a / t == (b - a) / t;
    MulNonNeg(a / t, n);
    MulNonNeg(b / t - a / t, n);
    assert b / t * n - a / t * n == (b / t - a / t) * n;
  }

  /**
   * The shares of valid weights tile the N particles; in particular the last orbit ends at
   * particle N, the assertion the routine makes after its loop.
   */
  lemma SharesTile(w: seq<real>, n: int)
    requires ValidWeights(w) && n > 0
    ensures Tiling(Shares(w, n), n)
  {
    var b := Shares(w, n);
    var t := Cumul(w, |w|);
    assert t / t == 1.0;
    assert b[0] == 0 && b[|w|] == n;
    forall j, k | 0 <= j <= k < |b|
      ensures b[j] <= b[k]
    {
      BoundaryMonotone(w, n, j, k);
    }
  }

  /** The index the routine computes from its running sums is the share boundary. */
  lemma ShareIndex(w: seq<real>, n: int, k: nat, cumulMass: real, total: real)
    requires ValidWeights(w) && k <= |w| && cumulMass == Cumul(w, k) && total == Cumul(w, |w|)
    ensures (cumulMass / total * n as real).Floor == Shares(w, n)[k]
  {
  }

  // ---------------------------------------------------------------------------------------------
  // Tiling the particles
  // ---------------------------------------------------------------------------------------------

  /** The number of particles orbit k has to give. */
  function Count(b: seq<int>, k: nat): int
    requires k + 1 < |b|
  {
    b[k + 1] - b[k]
  }

  /** The counts of the first k orbits added up. */
  function CountsUpTo(b: seq<int>, k: nat): int
    requires k < |b|
  {
    if k == 0 then 0 else CountsUpTo(b, k - 1) + Count(b, k - 1)
  }

  /** Every count is non-negative, and the counts of all orbits add up to N. */
  lemma {:induction false} CountsSumToN(b: seq<int>, n: int, k: nat)
    requires Tiling(b, n) && k < |b|
    ensures CountsUpTo(b, k) == b[k]
    ensures k + 1 < |b| ==> Count(b, k) >= 0
    ensures k == |b| - 1 ==> CountsUpTo(b, k) == n
  {
    if k > 0 {
      CountsSumToN(b, n, k - 1);
    }
  }

  /** Particle p is one of orbit k's. */
  predicate InShare(b: seq<int>, k: nat, p: int)
    requires k + 1 < |b|
  {
    b[k] <= p < b[k + 1]
  }

  /** Every particle 0 <= p < N belongs to exactly one orbit. */
  lemma SlotHasOneOrbit(b: seq<int>, n: int, p: int)
    requires Tiling(b, n) && 0 <= p < n
    ensures exists k :: 0 <= k < |b| - 1 && InShare(b, k, p)
    ensures forall k, k' :: 0 <= k < k' < |b| - 1 && InShare(b, k, p) ==> !InShare(b, k', p)
  {
    SlotFound(b, n, p, |b| - 1);
  }

  lemma {:induction false} SlotFound(b: seq<int>, n: int, p: int, m: nat)
    requires Tiling(b, n) && 0 <= p && m < |b| && p < b[m]
    ensures exists k :: 0 <= k < m && InShare(b, k, p)
    decreases m
  {
    if m == 0 {
      assert false;
    } else if b[m - 1] <= p {
      assert InShare(b, m - 1, p);
    } else {
      SlotFound(b, n, p, m - 1);
    }
  }

  // ---------------------------------------------------------------------------------------------
  // The orbits that cannot give their share, and the particles drawn from the others
  // ---------------------------------------------------------------------------------------------

  function PointsOf(t: Trajectory): seq<Point>
  {
    if t.Points? then t.points else []
  }

  /** The (orbit, required count) pairs of the first k orbits whose trajectory is too short. */
  function BadOrbits(b: seq<int>, trajs: seq<Trajectory>, k: nat): seq<(int, int)>
    requires |b| == |trajs| + 1 && k <= |trajs|
  {
    if k == 0 then []
    else if |PointsOf(trajs[k - 1])| < Count(b, k - 1) then BadOrbits(b, trajs, k - 1) + [(k - 1, Count(b, k - 1))]
    else BadOrbits(b, trajs, k - 1)
  }

  /** The particles orbit k gives: its first Count(k) trajectory points in permutation order. */
  function Draw(b: seq<int>, trajs: seq<Trajectory>, perm: (nat, nat, nat) -> nat, k: nat) : (d: seq<Point>)
    requires |b| == |trajs| + 1 && k < |trajs| && IsPermutation(perm)
    requires 0 <= Count(b, k) <= |PointsOf(trajs[k])|
    ensures |d| == Count(b, k)
  {
    var pts := PointsOf(trajs[k]);
    seq(Count(b, k), i requires 0 <= i < Count(b, k) => pts[perm(k, |pts|, i)])
  }

  /**
   * The particles of the first k orbits, in order, when none of them is bad (a bad orbit's share
   * is never written, and the routine then returns no particles).
   */
  function Draws(b: seq<int>, n: int, trajs: seq<Trajectory>, perm: (nat, nat, nat) -> nat, k: nat)
    : (d: seq<Point>)
    requires Tiling(b, n) && |b| == |trajs| + 1 && k <= |trajs| && IsPermutation(perm)
    requires |BadOrbits(b, trajs, k)| == 0
    ensures |d| == b[k]
  {
    if k == 0 then []
    else (
      assert b[k - 1] <= b[k];
      Draws(b, n, trajs, perm, k - 1) + Draw(b, trajs, perm, k - 1))
  }

  /** No orbit is bad exactly when every trajectory is at least as long as its orbit's share. */
  lemma {:induction false} BadOrbitsEmptyIff(b: seq<int>, trajs: seq<Trajectory>, k: nat)
    requires |b| == |trajs| + 1 && k <= |trajs|
    ensures |BadOrbits(b, trajs, k)| == 0 <==>
      forall j :: 0 <= j < k ==> |PointsOf(trajs[j])| >= Count(b, j)
  {
    if k > 0 {
      BadOrbitsEmptyIff(b, trajs, k - 1);
    }
  }

  /** An entry of the bad-orbit list of the first k orbits: an orbit and the share it could not give. */
  predicate BadEntry(b: seq<int>, trajs: seq<Trajectory>, k: nat, e: (int, int))
    requires |b| == |trajs| + 1 && k <= |trajs|
  {
    0 <= e.0 < k && e.1 == Count(b, e.0) && e.1 > |PointsOf(trajs[e.0])| && e.1 >= 1
  }

  /**
   * The list of bad orbits names orbits in increasing order, each with the share it could not
   * give, which is at least one particle and more than its trajectory holds.
   */
  lemma {:induction false} BadOrbitsListed(b: seq<int>, trajs: seq<Trajectory>, k: nat)
    requires |b| == |trajs| + 1 && k <= |trajs|
    ensures forall i :: 0 <= i < |BadOrbits(b, trajs, k)| ==> BadEntry(b, trajs, k, BadOrbits(b, trajs, k)[i])
    ensures forall i, j :: 0 <= i < j < |BadOrbits(b, trajs, k)| ==>
      BadOrbits(b, trajs, k)[i].0 < BadOrbits(b, trajs, k)[j].0
  {
    if k > 0 {
      BadOrbitsListed(b, trajs, k - 1);
      var prev := BadOrbits(b, trajs, k - 1);
      var bad := BadOrbits(b, trajs, k);
      assert forall i :: 0 <= i < |prev| ==> BadEntry(b, trajs, k - 1, prev[i]);
      if |PointsOf(trajs[k - 1])| < Count(b, k - 1) {
        assert bad == prev + [(k - 1, Count(b, k - 1))];
        forall i | 0 <= i < |bad|
          ensures BadEntry(b, trajs, k, bad[i])
        {
          if i < |prev| {
            assert bad[i] == prev[i];
            assert BadEntry(b, trajs, k - 1, prev[i]);
          }
        }
        forall i, j | 0 <= i < j < |bad|
          ensures bad[i].0 < bad[j].0
        {
          assert bad[i] == prev[i];
          assert BadEntry(b, trajs, k - 1, prev[i]);
          if j < |prev| {
            assert bad[j] == prev[j];
          }
        }
      } else {
        assert bad == prev;
        forall i | 0 <= i < |bad|
          ensures BadEntry(b, trajs, k, bad[i])
        {
          assert BadEntry(b, trajs, k - 1, prev[i]);
        }
      }
    }
  }

  /** The particles of m orbits are those of m-1 orbits followed by orbit m-1's. */
  lemma DrawsUnfold(b: seq<int>, n: int, trajs: seq<Trajectory>, perm: (nat, nat, nat) -> nat, m: nat)
    requires Tiling(b, n) && |b| == |trajs| + 1 && 1 <= m <= |trajs| && IsPermutation(perm)
    requires |BadOrbits(b, trajs, m)| == 0
    ensures |BadOrbits(b, trajs, m - 1)| == 0 && 0 <= Count(b, m - 1) <= |PointsOf(trajs[m - 1])|
    ensures Draws(b, n, trajs, perm, m) == Draws(b, n, trajs, perm, m - 1) + Draw(b, trajs, perm, m - 1)
  {
    assert BadOrbits(b, trajs, m) == BadOrbits(b, trajs, m - 1);
  }

  /**
   * Particle b[k] + i of the snapshot is point perm(k, L, i) of orbit k's trajectory of length L,
   * for every i below orbit k's share.
   */
  lemma {:induction false} DrawsSlot(b: seq<int>, n: int, trajs: seq<Trajectory>, perm: (nat, nat, nat) -> nat,
                                     m: nat, k: nat, i: int)
    requires Tiling(b, n) && |b| == |trajs| + 1 && m <= |trajs| && IsPermutation(perm)
    requires |BadOrbits(b, trajs, m)| == 0
    requires k < m && 0 <= i < Count(b, k) <= |PointsOf(trajs[k])|
    ensures b[k] + i < |Draws(b, n, trajs, perm, m)|
    ensures Draws(b, n, trajs, perm, m)[b[k] + i] == PointsOf(trajs[k])[perm(k, |PointsOf(trajs[k])|, i)]
    decreases m
  {
    DrawsUnfold(b, n, trajs, perm, m);
    var prefix, last := Draws(b, n, trajs, perm, m - 1), Draw(b, trajs, perm, m - 1);
    assert |prefix| == b[m - 1];
    if k < m - 1 {
      assert b[k + 1] <= b[m - 1];
      DrawsSlot(b, n, trajs, perm, m - 1, k, i);
      assert (prefix + last)[b[k] + i] == prefix[b[k] + i];
    } else {
      assert (prefix + last)[b[k] + i] == last[i];
    }
  }

  // ---------------------------------------------------------------------------------------------
  // The routine
  // ---------------------------------------------------------------------------------------------

  /** The sum the weight loop computes: minus infinity once a weight is negative. */
  method TotalWeight(weights: seq<real>) returns (total: ExtReal)
    ensures total == if NonNegative(weights) then Finite(Cumul(weights, |weights|)) else MinusInfinity
  {
    total := Finite(0.0);
    var orb := 0;
    while orb < |weights|
      invariant orb <= |weights|
      invariant total == if NonNegative(weights[..orb]) then Finite(Cumul(weights, orb)) else MinusInfinity
    {
      if weights[orb] >= 0.0 {
        if total.Finite? {
          total := Finite(total.v + weights[orb]);
        }
      } else {
        total := MinusInfinity;
      }
      assert weights[..orb + 1][orb] == weights[orb];
      assert forall j :: 0 <= j < orb ==> weights[..orb + 1][j] == weights[..orb][j];
      orb := orb + 1;
    }
    assert weights[..orb] == weights;
  }

  /**
   * sampleOrbitLibrary(n, traj, weights) with the random permutation of each orbit given as perm.
   * The errors come in the routine's order; a trajectory that is not L x 6 aborts the run. A run
   * that completes returns the snapshot exactly when no orbit is bad, and the bad orbits otherwise.
   */
  method SampleOrbitLibrary(n: int, traj: TrajArg, weights: seq<real>, perm: (nat, nat, nat) -> nat)
    returns (r: Result<Outcome, SampleError>)
    requires IsPermutation(perm)
    ensures n <= 0 ==> r == Failure(NonPositiveCount)
    ensures n > 0 && |weights| == 0 ==> r == Failure(EmptyWeights)
    ensures n > 0 && |weights| > 0 && !ValidWeights(weights) ==> r == Failure(NonPositiveTotal)
    ensures n > 0 && ValidWeights(weights) && (traj.InvalidTrajArg? || |traj.elems| != |weights|) ==>
      r == Failure(BadTrajArray)
    ensures n > 0 && ValidWeights(weights) && traj.TrajArray? && |traj.elems| == |weights| ==>
      (r == Failure(BadTrajectory) <==> exists k :: 0 <= k < |weights| && traj.elems[k].NotLx6?) &&
      (r.Success? ==>
        var b := Shares(weights, n);
        var bad := BadOrbits(b, traj.elems, |weights|);
        Tiling(b, n) &&
        (r.value.Sampled? <==> |bad| == 0) &&
        (r.value.Sampled? ==>
          |bad| == 0 &&
          r.value.posvel == Draws(b, n, traj.elems, perm, |weights|) &&
          r.value.mass == seq(n, _ => Cumul(weights, |weights|) / n as real)) &&
        (r.value.Insufficient? ==>
          |r.value.indices| == |r.value.counts| == |bad| &&
          forall i :: 0 <= i < |bad| ==> r.value.indices[i] == bad[i].0 && r.value.counts[i] == bad[i].1))
  {
    if n <= 0 {
      return Failure(NonPositiveCount);
    }
    var numOrbits := |weights|;
    if numOrbits <= 0 {
      return Failure(EmptyWeights);
    }
    var totalMass := TotalWeight(weights);
    if !(totalMass.Finite? && totalMass.v > 0.0) {
      return Failure(NonPositiveTotal);
    }
    if traj.InvalidTrajArg? || |traj.elems| != numOrbits {
      return Failure(BadTrajArray);
    }
    r := SampleOrbits(n, traj.elems, weights, totalMass.v, perm);
  }

  /**
   * The loop of sampleOrbitLibrary over the orbits, once the arguments have passed the checks:
   * every orbit's trajectory is checked, and its share is drawn from it or it is listed as bad.
   */
  method SampleOrbits(n: int, trajs: seq<Trajectory>, weights: seq<real>, total: real, perm: (nat, nat, nat) -> nat)
    returns (r: Result<Outcome, SampleError>)
    requires n > 0 && ValidWeights(weights) && |trajs| == |weights| && IsPermutation(perm)
    requires total == Cumul(weights, |weights|)
    ensures r.Failure? ==> r.error == BadTrajectory
    ensures r.Failure? <==> exists k :: 0 <= k < |weights| && trajs[k].NotLx6?
    ensures r.Success? ==>
      var b := Shares(weights, n);
      var bad := BadOrbits(b, trajs, |weights|);
      Tiling(b, n) &&
      (r.value.Sampled? <==> |bad| == 0) &&
      (r.value.Sampled? ==>
        |bad| == 0 &&
        r.value.posvel == Draws(b, n, trajs, perm, |weights|) &&
        r.value.mass == seq(n, _ => total / n as real)) &&
      (r.value.Insufficient? ==>
        |r.value.indices| == |r.value.counts| == |bad| &&
        forall i :: 0 <= i < |bad| ==> r.value.indices[i] == bad[i].0 && r.value.counts[i] == bad[i].1)
  {
    var numOrbits := |weights|;
    ghost var b := Shares(weights, n);
    SharesTile(weights, n);
    var particleMass := total / n as real;

    var posvel := new Point[n](_ => []);
    var mass := new real[n](_ => 0.0);
    var badOrbits: seq<(int, int)> := [];
    var cumulMass := 0.0;
    var outPointIndex := 0;
    var orb := 0;
    while orb < numOrbits
      invariant orb <= numOrbits
      invariant cumulMass == Cumul(weights, orb)
      invariant outPointIndex == b[orb]
      invariant badOrbits == BadOrbits(b, trajs, orb)
      invariant forall k :: 0 <= k < orb ==> trajs[k].Points?
      invariant |badOrbits| == 0 ==> posvel[..outPointIndex] == Draws(b, n, trajs, perm, orb)
      invariant |badOrbits| == 0 ==> forall p :: 0 <= p < outPointIndex ==> mass[p] == particleMass
    {
      cumulMass := cumulMass + weights[orb];
      var newPointIndex := (cumulMass / total * n as real).Floor;
      ShareIndex(weights, n, orb + 1, cumulMass, total);
      var pointsToSample := newPointIndex - outPointIndex;
      if trajs[orb].NotLx6? {
        return Failure(BadTrajectory);
      }
      var pts := trajs[orb].points;
      if |pts| >= pointsToSample {
        SampleOrbit(posvel, mass, b, n, trajs, perm, orb, badOrbits, particleMass, outPointIndex, pointsToSample);
      } else {
        badOrbits := badOrbits + [(orb, pointsToSample)];
      }
      outPointIndex := newPointIndex;
      orb := orb + 1;
    }
    if |badOrbits| == 0 {
      assert posvel[..] == posvel[..outPointIndex];
      return Success(Sampled(posvel[..], mass[..]));
    }
    var indices, trajsizes := SplitPairs(badOrbits);
    return Success(Insufficient(indices, trajsizes));
  }

  /** The two output arrays of the failure case: the orbit indices and the required counts. */
  method SplitPairs(badOrbits: seq<(int, int)>) returns (indices: seq<int>, trajsizes: seq<int>)
    ensures |indices| == |trajsizes| == |badOrbits|
    ensures forall i :: 0 <= i < |badOrbits| ==> indices[i] == badOrbits[i].0 && trajsizes[i] == badOrbits[i].1
  {
    var size := |badOrbits|;
    var ind := new int[size];
    var sizes := new int[size];
    var i := 0;
    while i < size
      invariant i <= size
      invariant forall j :: 0 <= j < i ==> ind[j] == badOrbits[j].0 && sizes[j] == badOrbits[j].1
    {
      ind[i] := badOrbits[i].0;
      sizes[i] := badOrbits[i].1;
      i := i + 1;
    }
    return ind[..], sizes[..];
  }

  /**
   * The inner loop for an orbit with enough points: its share of particles is written from its
   * trajectory in permutation order, each with the particle mass; while no orbit so far was bad,
   * the particles written are the draws of the orbits up to this one.
   */
  method SampleOrbit(posvel: array<Point>, mass: array<real>, ghost b: seq<int>, n: int, trajs: seq<Trajectory>,
                     perm: (nat, nat, nat) -> nat, orb: nat, ghost badOrbits: seq<(int, int)>, particleMass: real,
                     outPointIndex: int, pointsToSample: int)
    requires Tiling(b, n) && |b| == |trajs| + 1 && orb < |trajs| && IsPermutation(perm)
    requires outPointIndex == b[orb] && pointsToSample == Count(b, orb)
    requires posvel.Length == n && mass.Length == n && posvel != mass as object
    requires trajs[orb].Points? && 0 <= Count(b, orb) <= |trajs[orb].points|
    requires badOrbits == BadOrbits(b, trajs, orb)
    requires |badOrbits| == 0 ==> posvel[..b[orb]] == Draws(b, n, trajs, perm, orb)
    requires |badOrbits| == 0 ==> forall p :: 0 <= p < b[orb] ==> mass[p] == particleMass
    modifies posvel, mass
    ensures |badOrbits| == 0 ==> |BadOrbits(b, trajs, orb + 1)| == 0
    ensures |badOrbits| == 0 ==> posvel[..b[orb + 1]] == Draws(b, n, trajs, perm, orb + 1)
    ensures |badOrbits| == 0 ==> forall p :: 0 <= p < b[orb + 1] ==> mass[p] == particleMass
  {
    var pts := trajs[orb].points;
    assert b[orb] <= b[orb + 1] <= b[|b| - 1];
    ghost var drawn := posvel[..outPointIndex] + Draw(b, trajs, perm, orb);
    var i := 0;
    while i < pointsToSample
      invariant 0 <= i <= pointsToSample
      invariant forall p :: 0 <= p < outPointIndex + i ==> posvel[p] == drawn[p]
      invariant forall p :: 0 <= p < outPointIndex ==> mass[p] == old(mass[p])
      invariant forall p :: outPointIndex <= p < outPointIndex + i ==> mass[p] == particleMass
    {
      posvel[outPointIndex + i] := pts[perm(orb, |pts|, i)];
      mass[outPointIndex + i] := particleMass;
      i := i + 1;
    }
    assert posvel[..b[orb + 1]] == drawn;
    if |badOrbits| == 0 {
      assert BadOrbits(b, trajs, orb + 1) == badOrbits;
      DrawsUnfold(b, n, trajs, perm, orb + 1);
    }
  }
}
