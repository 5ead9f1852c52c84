# ABGal spherical isotropic model, Python-binding bookkeeping and test helpers in Dafny

This project models three pieces of the ABGal galaxy-modelling library:

- **The spherical isotropic model** (`src/galaxymodel_spherical.cpp`). This covers four parts:
  - the `SphericalIsotropicModel` constructor, which tabulates f(h) on a grid in log h, validates it, and accumulates the integrals of f, f·g, f·h and f·g·E;
  - the queries built on its splines (`evalDeriv`, `I0`, `cumulMass`, `cumulEkin`, `cumulEtotal`, `difCoefEnergy`);
  - `computeDensity` and `computeProjectedDensity`;
  - the extended local model (`SphericalIsotropicModelLocal::init`, `evalLocal`, `sampleVelocity`, `density`, `velDisp`).
- **The discrete logic of the Python binding** (`src/py_wrapper.cpp`): `sampleOrbitLibrary`, `StackedMatrix::at`/`elem`/`size`, `stackVectors`, the shape and index logic of `ghmoments`, the argument checks of `setUnits`, `nonuniformGrid`, `symmetricGrid` and `parseLowerUpperBounds`, and `outputLength`/`formatOutputArr`.
- **The test helpers** (`src/debug_utils.h`): the tolerance predicates `equalPos`, `equalPosVel`, `equalGrad` and `equalHess`, the `actionstat` accumulator, and `add_unwrap`.

All arithmetic is over `real`. The numerical primitives are parameters of the model:
- the distribution function, the phase volume h(E) and its inverse;
- g = dh/dE;
- `exp`, `log` and `sqrt`;
- the Gauss-Legendre tables;
- spline construction and evaluation, `gamma`, `hypergeom2F1` and `findRoot`.

Ghost predicates state only the sign facts the code relies on:
- f ≥ 0, g > 0 and E < 0;
- positive weights and nodes in (0, 1);
- exp > 0 and increasing;
- sqrt > 0 on positive arguments;
- splines that reproduce their nodes and node derivatives.

Each imperative routine of the source is a `method` over arrays or sequences. It is proved equal to a specification function, and lemmas state the properties of that function: monotone cumulative sums, contributions only to lower indices, first-failure scans, error cases, the tiling of the output slots.

Modules:
- `Wrappers` — `Option`/`Result`.
- `Numerics` — the numeric parameters and their sign predicates.
- `CumulativeSums` — in-place prefix and suffix sums.
- `TriangularSums` — the j ≤ i accumulation pattern.
- `SphericalModel` — the constructor as functions.
- `SphericalConstruction` — the constructor as methods over arrays.
- `SphericalProperties`, `SphericalQueries`.
- `SphericalDensity`, `SphericalProjection`, `SphericalLocal`.
- `OrbitLibrary`, `StackedMatrices`, `GhMoments`, `ArgumentChecks`, `OutputFormat`.
- `DebugUtils`.

## Model

| member | source | states |
|---|---|---|
| SphericalModel.NodesOf | src/galaxymodel_spherical.cpp:250-260 | the node arrays have the grid's length; H = exp(log h) > 0, F = f(H), G > 0, E < 0 at every node |
| SphericalModel.FirstNegative | src/galaxymodel_spherical.cpp:251-256 | the first node with f < 0 at or after `from`, with every earlier node f ≥ 0; None iff every node has f ≥ 0 |
| SphericalModel.BoundarySlopes | src/galaxymodel_spherical.cpp:263-290 | succeeds iff each end that is above MIN_VALUE_ROUNDOFF has an inner slope > −1 or an outer slope < −1; an end at or below it gets f and slope 0; failures are "rises too rapidly" / "falls off too slowly" |
| SphericalModel.EnergySlopes | src/galaxymodel_spherical.cpp:301-321 | fails with WeirdPotential iff not Phi(0) < E(h_min) < E(h_max) < 0; never with WeirdEnergyAtInfinity, since E(h_max) < 0 makes outerEslope negative; once the first check passes, fails with InfiniteTotalEnergy iff innerEslope + innerFslope ≤ −1 and succeeds otherwise; on success outerEslope < 0, outerRatio = outerFslope/outerEslope, and innerE is shifted by Phi(0) exactly when Phi(0) is finite, which is exactly when innerEslope > 0 |
| SphericalModel.Point | src/galaxymodel_spherical.cpp:338-344 | a quadrature point of a segment has h > 0, g > 0, E < 0 and a positive weight |
| SphericalModel.FirstBadInSegment | src/galaxymodel_spherical.cpp:338-347 | None iff every quadrature point of the segment from k on has f ≥ 0; otherwise one of those points with f < 0 |
| SphericalModel.FirstBadFrom | src/galaxymodel_spherical.cpp:332-358 | None iff every quadrature point of every segment from i on has f ≥ 0 |
| SphericalModel.AddTail | src/galaxymodel_spherical.cpp:383-385 | only the last entry changes, by the tail when there is one |
| SphericalModel.FintTail | src/galaxymodel_spherical.cpp:363 | the analytic outer tail of ∫f dE is non-negative for f ≥ 0 and E < 0 |
| SphericalModel.Segments | src/galaxymodel_spherical.cpp:332-358 | one accumulated quadruple per interior segment, equal to that segment's quadrature total |
| SphericalModel.OuterRatioNonNegative | src/galaxymodel_spherical.cpp:313-314 | once the slope and energy checks pass, outerFslope/outerEslope ≥ 0 |
| SphericalModel.InnerTermsDefined | src/galaxymodel_spherical.cpp:370-375 | the denominators of the analytic inner terms are positive, and innerEslope ≥ 0 only with a finite Phi(0) |
| SphericalModel.IntegralsOf | src/galaxymodel_spherical.cpp:360-385 | the four integral arrays have the grid's length; the tail is finite iff 1 + outerEslope + outerFslope ≠ 0 |
| SphericalConstruction.EvalNodes | src/galaxymodel_spherical.cpp:250-260 | stops with the error for the first node with f < 0; otherwise the four node arrays hold H, F, G, E |
| SphericalConstruction.FillNodes | src/galaxymodel_spherical.cpp:251-260 | the node loop writes each node or reports the first node with f < 0 |
| SphericalConstruction.AddPoint | src/galaxymodel_spherical.cpp:352-356 | one quadrature point adds f·h·w/g, f·h·w, f·h·w·h/g and −f·h·w·E to the four accumulators; a point with f ≥ 0, h > 0, w > 0 and E < 0 decreases none of them |
| SphericalConstruction.IntegrateSegment | src/galaxymodel_spherical.cpp:333-357 | the Gauss-Legendre loop over one segment, of order GLORDER1 below GLDELTA in log h and GLORDER2 otherwise, reports the segment's first point with f < 0, or else returns the segment's total |
| SphericalConstruction.IntegrateSegments | src/galaxymodel_spherical.cpp:332-358 | the segment loop stops at the first point with f < 0 anywhere; otherwise every segment has been added to its array slots |
| SphericalConstruction.ScanHTransition | src/galaxymodel_spherical.cpp:392-394 | the scan's result is the htransition specification on the arrays |
| SphericalConstruction.NodeDerivatives | src/galaxymodel_spherical.cpp:398-413 | ok iff the derivative test passes at every node; then the four derivative arrays, with the last three zeroed at the outer node |
| SphericalConstruction.FintPass | src/galaxymodel_spherical.cpp:363-366 | gridFint becomes the suffix sums of the segment terms followed by the outer tail |
| SphericalConstruction.FGPass | src/galaxymodel_spherical.cpp:370-384 | gridFGint becomes the prefix sums from the inner term, with the outer tail added to the last entry |
| SphericalConstruction.FHPass | src/galaxymodel_spherical.cpp:371-385 | gridFHint likewise, with the tail added only when it is finite |
| SphericalConstruction.FEPass | src/galaxymodel_spherical.cpp:372-385 | gridFEint likewise, with the tail added only when it is finite |
| SphericalConstruction.CumulativePasses | src/galaxymodel_spherical.cpp:360-385 | all four passes together |
| SphericalConstruction.ComputeIntegrals | src/galaxymodel_spherical.cpp:329-385 | fresh arrays holding the four integrals, or the first quadrature point with f < 0 |
| SphericalConstruction.FinishModel | src/galaxymodel_spherical.cpp:386-431 | the totalMass > 0 check, the htransition scan, the derivative check and the splines agree with the specification |
| SphericalConstruction.IntegrateAndFinish | src/galaxymodel_spherical.cpp:323-431 | the stages after the energy checks agree with the specification |
| SphericalConstruction.ConstructModel | src/galaxymodel_spherical.cpp:232-431 | the constructor, as a method over arrays, returns exactly the model or error of the specification `Construct` |
| CumulativeSums.PrefixSumInPlace | src/galaxymodel_spherical.cpp:377-381 | the in-place loop leaves the prefix sums of the old contents |
| CumulativeSums.SuffixSumInPlace | src/galaxymodel_spherical.cpp:364-366 | the in-place loop leaves the suffix sums of the old contents |
| CumulativeSums.PrefixSumsMonotone | src/galaxymodel_spherical.cpp:377-381 | prefix sums of terms that are non-negative after the first are non-decreasing |
| CumulativeSums.SuffixSumsMonotone | src/galaxymodel_spherical.cpp:364-366 | suffix sums of non-negative terms are non-negative and non-increasing |
| CumulativeSums.PrefixSumsNonNegative | src/galaxymodel_spherical.cpp:377-381 | prefix sums of non-negative terms are non-negative and non-decreasing |
| CumulativeSums.LastPrefixSum | src/galaxymodel_spherical.cpp:386 | the last prefix sum is the sum of all terms, the quantity taken as totalMass |
| TriangularSums.UptoBelowEntry | src/galaxymodel_spherical.cpp:172-179 | segments at or below node i contribute nothing to node j ≥ i: contributions flow only to lower nodes |
| TriangularSums.SegmentSumNonNegative | src/galaxymodel_spherical.cpp:163-179 | a segment's contribution is non-negative when each of its points contributes a non-negative amount |
| TriangularSums.UptoNonNegative | src/galaxymodel_spherical.cpp:159-181 | the accumulated value at a node is non-negative when every contribution to it is |
| SphericalProperties.SnappedEnds | src/galaxymodel_spherical.cpp:277-290 | after the slope checks each end has f = 0 or f > 0 with the admissible slope; innerFslope > −1; outerFslope = 0 or < −1 |
| SphericalProperties.OuterTailsNonNegative | src/galaxymodel_spherical.cpp:363-385 | all four analytic outer tails are non-negative when they are finite |
| SphericalProperties.InnerTermsNonNegative | src/galaxymodel_spherical.cpp:370-375 | the three analytic inner terms are non-negative |
| SphericalProperties.SegmentsNonNegative | src/galaxymodel_spherical.cpp:338-357 | with f ≥ 0 at every quadrature point, every segment's four totals are non-negative |
| SphericalProperties.IntegralsShape | src/galaxymodel_spherical.cpp:360-385 | gridFint is non-increasing and non-negative; gridFGint, gridFHint and gridFEint are non-decreasing and non-negative |
| SphericalProperties.FintShape | src/galaxymodel_spherical.cpp:363-366 | gridFint is non-increasing and non-negative |
| SphericalProperties.FGShape | src/galaxymodel_spherical.cpp:370-384 | gridFGint is non-decreasing and non-negative |
| SphericalProperties.FHShape | src/galaxymodel_spherical.cpp:371-385 | gridFHint is non-decreasing and non-negative |
| SphericalProperties.FEShape | src/galaxymodel_spherical.cpp:372-385 | gridFEint is non-decreasing and non-negative |
| SphericalProperties.AddTailKeepsShape | src/galaxymodel_spherical.cpp:383-385 | adding a non-negative tail to the last entry keeps a non-decreasing non-negative array so |
| SphericalProperties.HTransitionIsLastBelow | src/galaxymodel_spherical.cpp:392-394 | htransition = H[k] with k ≤ n−2 and gridFGint[j] < 0.999·M for 2 ≤ j ≤ k+1; the scan stops at the first j with gridFGint[j] ≥ 0.999·M, and on a non-decreasing array every later j is at or above that bound |
| SphericalProperties.DerivativeTestOnlyTail | src/galaxymodel_spherical.cpp:398-406 | with f ≥ 0, g > 0, E < 0 the derivative test passes iff the integrals are finite |
| SphericalProperties.SnappedNonNegative | src/galaxymodel_spherical.cpp:277-285 | after snapping, f is non-negative at every node |
| SphericalProperties.DerivativesOkIffFiniteTail | src/galaxymodel_spherical.cpp:398-406 | on a constructed grid the "cannot construct valid interpolators" check fails iff the outer tail is not finite |
| SphericalProperties.ConstructAcceptsOnlyNonNegative | src/galaxymodel_spherical.cpp:251-347 | a successful construction has f ≥ 0 at every node and every quadrature point |
| SphericalProperties.ConstructRejectsNegativeNode | src/galaxymodel_spherical.cpp:251-256 | a node with f < 0 makes the constructor fail with a negative-f error |
| SphericalProperties.ConstructedModelShape | src/galaxymodel_spherical.cpp:386-431 | a constructed model has four splines on the node H, totalMass = the last gridFGint > 0, gridFint non-increasing and the other three non-decreasing, all non-negative |
| SphericalProperties.InvalidInterpolatorsOnlyFromTail | src/galaxymodel_spherical.cpp:386-406 | after the energy checks the model fails with "cannot construct valid interpolators" iff the quadrature passed, totalMass > 0 and 1 + outerEslope + outerFslope = 0 |
| SphericalProperties.ConstructedHTransition | src/galaxymodel_spherical.cpp:392-394 | in a constructed model htransition = H[k] where gridFGint is below 0.999·totalMass for j in 2..k+1 and at or above it for every later j |
| SphericalQueries.SuccessStages | src/galaxymodel_spherical.cpp:232-431 | a successful construction passed every stage, and its splines are built from the specification's integrals and derivatives |
| SphericalQueries.ModelSplines | src/galaxymodel_spherical.cpp:392-431 | the intf/intfg splines of a constructed model, its htransition index and the snapped node values |
| SphericalQueries.EvalDerivAtNode | src/galaxymodel_spherical.cpp:433-454 | at a node, both branches of evalDeriv (intfg below htransition, −g·intf′ otherwise) give back F at that node |
| SphericalQueries.EvalDerivReproducesDF | src/galaxymodel_spherical.cpp:433-454 | evalDeriv of a constructed model at a grid node returns the snapped f at that node |
| SphericalQueries.CumulMassAtNodes | src/galaxymodel_spherical.cpp:461-466 | cumulMass is non-negative and non-decreasing over the nodes; cumulMass(∞) = totalMass > 0 equals its value at the last node |
| SphericalQueries.EnergiesAtNodes | src/galaxymodel_spherical.cpp:456-476 | over the nodes I0 is non-negative and non-increasing, cumulEkin = 1.5·intfh is non-negative and non-decreasing, and cumulEtotal = −intfE is non-positive and non-increasing |
| SphericalQueries.DifCoefEnergyAtNode | src/galaxymodel_spherical.cpp:704-714 | for E whose h is a node, IFH = (2/3)·cumulEkin(h) is the node's gridFHint and ⟨ΔE²⟩ ≥ 0 |
| SphericalQueries.DifCoefAtSplineNode | src/galaxymodel_spherical.cpp:704-714 | the same, for any model whose splines hold non-negative node values |
| SphericalDensity.AddDensityPoint | src/galaxymodel_spherical.cpp:163-179 | one quadrature point adds its term to every result[j] and gridVelDisp[j] with j ≤ i, and to nothing above i |
| SphericalDensity.AddDensitySegment | src/galaxymodel_spherical.cpp:163-180 | one segment adds its segment sum to every node j ≤ i, and nothing above |
| SphericalDensity.ComputeDensity | src/galaxymodel_spherical.cpp:150-186 | the loops return exactly `Density`: the grid-check failure, or the accumulated density and the optional dispersion |
| SphericalDensity.VelDispEntries | src/galaxymodel_spherical.cpp:182-184 | the dispersion at each node is sqrt(2/3·V/rho), and None where rho = 0 |
| SphericalDensity.DensityOf | src/galaxymodel_spherical.cpp:150-186 | on an accepted grid, the density profile is the triangular sums of the point terms |
| SphericalDensity.PhiGridOkIff | src/galaxymodel_spherical.cpp:159-162 | the check accepts the grid iff it is strictly increasing and every node is < 0 |
| SphericalDensity.TermsNonNegative | src/galaxymodel_spherical.cpp:163-178 | with f ≥ 0 every point's density and dispersion terms are non-negative |
| SphericalDensity.DensityNonNegative | src/galaxymodel_spherical.cpp:150-186 | on an accepted grid the result has the grid's length and is non-negative everywhere; the dispersion exists iff asked for, and exists at a node iff rho > 0, where it is ≥ 0 |
| SphericalProjection.ProjDifPositive | src/galaxymodel_spherical.cpp:210-218 | on a checked grid starting at R ≥ 0, every point lies beyond every node at or below its segment, so r² − R_j² > 0 |
| SphericalProjection.PointContribution | src/galaxymodel_spherical.cpp:209-221 | a point's contributions are weight/sqrt(r² − R_j²) and that times sigma(r)², with a positive denominator |
| SphericalProjection.AddProjectedEntries | src/galaxymodel_spherical.cpp:215-221 | the inner loop adds weight/sqrt(r² − R_j²) to Sigma and that times sigma(r)² to the dispersion sum at every node j ≤ i, leaving the nodes above i unchanged |
| SphericalProjection.AddProjectedPoint | src/galaxymodel_spherical.cpp:205-222 | one point adds its term to every node j ≤ i, and nothing above |
| SphericalProjection.AddProjectedSegment | src/galaxymodel_spherical.cpp:205-223 | one segment adds its segment sum to every node j ≤ i, and nothing above |
| SphericalProjection.AccumulateSegment | src/galaxymodel_spherical.cpp:200-223 | after segment i every node j holds the sums of the point terms of segments j..i, so the triangular sums advance by one segment |
| SphericalProjection.ComputeProjectedDensity | src/galaxymodel_spherical.cpp:191-227 | the loops return exactly `ProjectedDensity`: an error, or the triangular sums and the projected dispersion |
| SphericalProjection.ProjectedDensityOf | src/galaxymodel_spherical.cpp:191-227 | on an accepted grid, the profile is the triangular sums of the point terms |
| SphericalProjection.RGridAcceptedIff | src/galaxymodel_spherical.cpp:200-204 | the source's check accepts the grid iff it is strictly increasing with a positive last node |
| SphericalProjection.NegativeRadiusBreaksAssertion | src/galaxymodel_spherical.cpp:200-218 | the grid [−1, 3] passes the source's check, yet for y < 0.7 the first point gives r² − R_0² < 0 |
| SphericalProjection.RWeightNonNegative | src/galaxymodel_spherical.cpp:213 | with rho ≥ 0 every point's weight is non-negative, on finite and on the last segment |
| SphericalProjection.ProjTermsNonNegative | src/galaxymodel_spherical.cpp:213-221 | with rho ≥ 0 every contribution is non-negative |
| SphericalProjection.ProjectedNonNegative | src/galaxymodel_spherical.cpp:191-227 | on a grid that also starts at R ≥ 0, the result succeeds and Sigma is non-negative; the dispersion exists at a node iff Sigma > 0, where it is ≥ 0 |
| SphericalLocal.LogGrid | src/galaxymodel_spherical.cpp:487-491 | log of every given h |
| SphericalLocal.TrimmedIsMaximalPrefix | src/galaxymodel_spherical.cpp:492-493 | the trimmed grid is a prefix of the original, whose last node has f > MIN_VALUE_ROUNDOFF and whose removed nodes all have f ≤ it |
| SphericalLocal.TrimmedIdempotent | src/galaxymodel_spherical.cpp:492-493 | trimming twice is trimming once |
| SphericalLocal.TrimGrid | src/galaxymodel_spherical.cpp:492-493 | the pop_back loop computes the trimmed grid |
| SphericalLocal.AsymptoticsOf | src/galaxymodel_spherical.cpp:502-531 | succeeds iff the outer slope of f is finite and < −1 (else "falls off too slowly"); a finite-difference slope over two equal last nodes (0/0) always fails; on success outerRatio > 0, outerEslope < 0, outerE < 0 |
| SphericalLocal.FallingStepOntoZero | src/galaxymodel_spherical.cpp:506-517 | with no derivative of f, a falling last step onto a node where f = 0 gives the slope −∞, which passes the test slope < −1; the model then fails with "falls off too slowly" (see Left out) |
| SphericalLocal.WeirdPhaseVolumeUnreachable | src/galaxymodel_spherical.cpp:518-525 | once the slope is < −1, outerRatio > 0, so the "weird asymptotic behaviour of phase volume" error cannot occur |
| SphericalLocal.Ratios | src/galaxymodel_spherical.cpp:551-602 | the tabulated J1/J0 and J3/J0 are positive; column 0 holds the limits 2/3 and 2/5 |
| SphericalLocal.RatiosFailSafe | src/galaxymodel_spherical.cpp:590-600 | the computed ratios are kept iff they are finite and positive; otherwise they are replaced by 2/3 and 2/5 |
| SphericalLocal.Advance | src/galaxymodel_spherical.cpp:553-589 | the J accumulators after column j: the first-segment rule at j = 1, the running sums after that, the analytic values in the last row |
| SphericalLocal.RatiosAt | src/galaxymodel_spherical.cpp:590-600 | the ratios stored at (i, j) |
| SphericalLocal.ComputeRow | src/galaxymodel_spherical.cpp:547-603 | the row of log-ratios for X node i, for all 100 Y nodes |
| SphericalLocal.WriteRow | src/galaxymodel_spherical.cpp:551-602 | writes row i of both tables and no other row |
| SphericalLocal.FillTables | src/galaxymodel_spherical.cpp:534-604 | the filled tables are the specification tables |
| SphericalLocal.TablesAreLogsOfPositiveRatios | src/galaxymodel_spherical.cpp:551-602 | every table entry is the log of a positive ratio, and column 0 is log(2/3), log(2/5) |
| SphericalLocal.InitLocal | src/galaxymodel_spherical.cpp:480-625 | init, on any given grid (increasing or not) or on the automatic one, returns exactly `LocalInit` |
| SphericalLocal.LocalInitShape | src/galaxymodel_spherical.cpp:480-625 | for any given grid, init fails with "nowhere positive" iff fewer than 3 nodes survive trimming, and never with "weird phase volume"; on success the 2d splines share the trimmed X grid of ≥ 3 nodes and a 100-node Y grid |
| SphericalLocal.Clamp | src/galaxymodel_spherical.cpp:639-640 | the clamped value lies in [lo, hi] and is x itself when x already does |
| SphericalLocal.CorrectionPositive | src/galaxymodel_spherical.cpp:644-648 | the correction factor is positive, and is 1/sqrt(1 − E/Phi) for E ≥ 0 |
| SphericalLocal.LocalIntegralsNonNegative | src/galaxymodel_spherical.cpp:636-648 | J1 and J3 are non-negative, with J0 clamped at 0 |
| SphericalLocal.EvalLocalSigns | src/galaxymodel_spherical.cpp:627-658 | evalLocal throws iff not (Phi < 0 and h(E) ≥ h(Phi)); otherwise ⟨Δv∥⟩ ≤ 0 and ⟨Δv∥²⟩ ≥ 0 |
| SphericalLocal.LocalDensityNonNegative | src/galaxymodel_spherical.cpp:681-690 | density throws iff Phi ≥ 0 and is non-negative otherwise |
| SphericalLocal.LocalVelDispPositive | src/galaxymodel_spherical.cpp:692-700 | velDisp throws iff Phi ≥ 0 and is positive otherwise |
| SphericalLocal.SampleVelocityGuards | src/galaxymodel_spherical.cpp:660-679 | sampleVelocity throws iff Phi ≥ 0; a negative root gives 0; otherwise sqrt(2(E − Phi)), non-negative when E ≥ Phi |
| OrbitLibrary.TotalWeight | src/py_wrapper.cpp:4650-4656 | the weight sum, or −∞ when any weight is negative |
| OrbitLibrary.SampleOrbitLibrary | src/py_wrapper.cpp:4628-4745 | rejects n ≤ 0, empty weights, a negative or non-positive total, a bad traj array and a non-Lx6 trajectory, each with its own error; otherwise the flag is True iff no orbit is short, the particles are the draws and every mass is T/n, or the short orbits are listed as (index, count) |
| OrbitLibrary.SampleOrbits | src/py_wrapper.cpp:4689-4744 | the orbit loop on valid arguments: the same outcome, or the error for the first trajectory that is not Lx6 |
| OrbitLibrary.SampleOrbit | src/py_wrapper.cpp:4697-4728 | while no orbit so far is short, the output holds the draws of orbits 0..orb and their masses after this orbit |
| OrbitLibrary.SplitPairs | src/py_wrapper.cpp:4734-4740 | the bad-orbit pairs split into an index array and a count array of equal length |
| OrbitLibrary.BoundaryMonotone | src/py_wrapper.cpp:4692-4693 | ⌊C_k/T·N⌋ is non-negative and non-decreasing in k |
| OrbitLibrary.CumulMonotone | src/py_wrapper.cpp:4692 | the running weight sum is non-negative and non-decreasing |
| OrbitLibrary.SharesTile | src/py_wrapper.cpp:4689-4730 | the slot boundaries start at 0, end at N and never decrease, so every count is ≥ 0 |
| OrbitLibrary.CountsSumToN | src/py_wrapper.cpp:4695-4730 | the counts up to orbit k add up to the boundary, and all of them add up to N |
| OrbitLibrary.SlotHasOneOrbit | src/py_wrapper.cpp:4689-4730 | every output slot in [0, N) belongs to exactly one orbit's range |
| OrbitLibrary.BadOrbitsEmptyIff | src/py_wrapper.cpp:4710-4731 | no orbit is listed as bad iff every trajectory has at least its count of points |
| OrbitLibrary.BadOrbitsListed | src/py_wrapper.cpp:4724-4727 | each listed pair is (k, count_k) for a short orbit k, in increasing order of k |
| OrbitLibrary.DrawsSlot | src/py_wrapper.cpp:4710-4723 | slot b_k + i of the output holds point perm(i) of orbit k's trajectory |
| StackedMatrices.At | src/py_wrapper.cpp:4877-4893 | the lookup loop returns exactly `AtValue` |
| StackedMatrices.AtContract | src/py_wrapper.cpp:4877-4893 | out_of_range iff row ≥ rows or col ≥ cols; otherwise block k with prefix_k ≤ row < prefix_{k+1} at local row row − prefix_k, and with a known data type the value of the stacked matrix at (row, col) |
| StackedMatrices.LocateReads | src/py_wrapper.cpp:4881-4886 | the loop's block and local row hold the stacked row |
| StackedMatrices.Elem | src/py_wrapper.cpp:4895-4900 | row·cols + col = index with col < cols, and the value is `at(row, col)` |
| StackedMatrices.ElemInside | src/py_wrapper.cpp:4875-4900 | for an index below size() = rows·cols, elem never reports out_of_range |
| StackedMatrices.FirstMismatch | src/py_wrapper.cpp:4851-4854 | the first item whose length differs from nRow, with every earlier one matching |
| StackedMatrices.StackVectors | src/py_wrapper.cpp:4843-4858 | NULL gives true and an empty output; a count mismatch gives false and an empty output; otherwise ok iff no item mismatches, and the output is the concatenation of the items before the first mismatch |
| StackedMatrices.StackVectorsLength | src/py_wrapper.cpp:4843-4858 | on success the output has Σ nRow values |
| GhMoments.GhLayoutContract | src/py_wrapper.cpp:4103-4154 | accepted iff ghorder ≥ 2, 0 ≤ degree ≤ 3, gridv has ≥ 2 nodes, a 1d/2d matrix whose last dimension is a multiple of numBasisFnc = (number of gridv nodes) + degree − 1, and a 3-column ghexp with numApertures rows if given; the output width is ghorder+1 per aperture with ghexp, ghorder+4 without |
| GhMoments.GroupIndexInside | src/py_wrapper.cpp:4182-4193 | a·w + b stays below n·w and splits back into a and b |
| GhMoments.FlatIndexDecomposes | src/py_wrapper.cpp:4208-4215 | ar splits into row ar / numApertures < numComponents and aperture ar % numApertures |
| GhMoments.Segment | src/py_wrapper.cpp:4182-4185 | aperture a's slice of a row holds the entries a·nb + b |
| GhMoments.ExpansionRowCell | src/py_wrapper.cpp:4169-4195 | output cell c is moment c % w of aperture c / w |
| GhMoments.MomentsWithExpansion | src/py_wrapper.cpp:4164-4204 | the loops fill every cell of the output with the specification row |
| GhMoments.BestFitRowCell | src/py_wrapper.cpp:4212-4248 | output cell c is entry c % (ghorder+4) of the best fit of aperture c / (ghorder+4): gamma, center and sigma in velocity units, then the coefficients |
| GhMoments.MomentsBestFit | src/py_wrapper.cpp:4205-4249 | the loop over ar fills every cell with the specification row |
| ArgumentChecks.SetUnitsContract | src/py_wrapper.cpp:354-380 | succeeds iff no argument is negative, mass > 0 and exactly two of length, velocity and time are given; the units are positive, the given ones are kept, and a given time is length unit / velocity unit |
| ArgumentChecks.NonuniformGridContract | src/py_wrapper.cpp:5431-5436 | with xmax: accepted iff nnodes ≥ 2, xmin > 0 and xmax > xmin; without: iff nnodes ≥ 3 and xmin > 0, xmax defaulting to (nnodes−1)·xmin |
| ArgumentChecks.SymmetricGridContract | src/py_wrapper.cpp:5466-5469 | accepted iff nnodes ≥ 2, xmin > 0 and any given xmax > xmin; it differs from nonuniformGrid exactly for nnodes = 2 without xmax |
| ArgumentChecks.ParseLowerUpperBoundsContract | src/py_wrapper.cpp:5522-5576 | succeeds iff a positive dimension count comes without upper (the unit cube) or two 1d arrays of equal length are given (kept as they are) |
| OutputFormat.Parts | src/py_wrapper.cpp:533-546 | each kind has one to three output arrays of width 1, 3 or 6 |
| OutputFormat.OutputLength | src/py_wrapper.cpp:652-663 | the per-point buffer length lies between 1 and 10 |
| OutputFormat.OutputLengthIsTotalWidth | src/py_wrapper.cpp:652-663 | outputLength is the sum of the kind's array widths |
| OutputFormat.FormatRowsSplitsBuffer | src/py_wrapper.cpp:787-884 | formatOutputArr cuts the buffer into rows of the kind's widths, which together are the buffer's first outputLength values in order |
| OutputFormat.FormatOutputArr | src/py_wrapper.cpp:787-884 | each output array gets its row written at index, and no other row changes |
| DebugUtils.EqualPosCar | src/debug_utils.h:17-18 | true iff all three differences are below eps; false for eps ≤ 0; true on equal points for eps > 0 |
| DebugUtils.EqualPosCyl | src/debug_utils.h:19-20 | the same for cylindrical positions |
| DebugUtils.EqualPosSph | src/debug_utils.h:21-22 | the same for spherical positions |
| DebugUtils.EqualPosSymmetric | src/debug_utils.h:17-22 | equalPos is symmetric in its arguments |
| DebugUtils.EqualPosVelCar | src/debug_utils.h:24-26 | as written: positions, vy and vz within eps and eps > 0, with vx not compared |
| DebugUtils.EqualPosVelCyl | src/debug_utils.h:27-29 | as written: vR is not compared |
| DebugUtils.EqualPosVelSph | src/debug_utils.h:30-32 | as written: vr is not compared |
| DebugUtils.EqualPosVelIgnoresFirstVelocity | src/debug_utils.h:24-32 | the result never depends on either point's first velocity component |
| DebugUtils.EqualPosVelCarMissesVx | src/debug_utils.h:24-26 | points differing only by vx = 1 compare equal at eps = 0.5, while the intended comparison says they differ |
| DebugUtils.EqualPosVelCarIntended | src/debug_utils.h:24-26 | corrected: all six differences are below eps |
| DebugUtils.EqualPosVelCylIntended | src/debug_utils.h:27-29 | corrected: all six differences are below eps |
| DebugUtils.EqualPosVelSphIntended | src/debug_utils.h:30-32 | corrected: all six differences are below eps |
| DebugUtils.EqualPosVelAsWrittenVersusIntended | src/debug_utils.h:24-32 | the code as written is the corrected test with p1's first velocity replaced by p2's; the corrected tests are symmetric and imply the written one |
| DebugUtils.CarAsWrittenVersusIntended | src/debug_utils.h:24-26 | the same for Cartesian points |
| DebugUtils.CylAsWrittenVersusIntended | src/debug_utils.h:27-29 | the same for cylindrical points |
| DebugUtils.SphAsWrittenVersusIntended | src/debug_utils.h:30-32 | the same for spherical points |
| DebugUtils.EqualGradCar | src/debug_utils.h:34-35 | true iff all three differences are below eps; false for eps ≤ 0; true on equal gradients for eps > 0 |
| DebugUtils.EqualGradCyl | src/debug_utils.h:36-37 | the same for cylindrical gradients |
| DebugUtils.EqualGradSph | src/debug_utils.h:38-39 | the same for spherical gradients |
| DebugUtils.EqualHessCar | src/debug_utils.h:41-43 | true iff all six differences are below eps; false for eps ≤ 0; true on equal Hessians for eps > 0 |
| DebugUtils.EqualHessCyl | src/debug_utils.h:44-46 | the same for cylindrical Hessians |
| DebugUtils.EqualHessSph | src/debug_utils.h:47-49 | the same for spherical Hessians |
| DebugUtils.EqualGradSymmetric | src/debug_utils.h:34-39 | equalGrad is symmetric in its arguments |
| DebugUtils.EqualHessSymmetric | src/debug_utils.h:41-49 | equalHess is symmetric in its arguments |
| DebugUtils.VarianceArg | src/debug_utils.h:127-129 | the argument of sqrt is never negative, and is mean-square − mean² whenever that is ≥ 0 |
| DebugUtils.ActionStat.constructor | src/debug_utils.h:116 | zero sums, zero count, no samples |
| DebugUtils.ActionStat.Add | src/debug_utils.h:117-122 | N grows by one, each component is added to avg and its square to disp |
| DebugUtils.ActionStat.Finish | src/debug_utils.h:123-130 | avg becomes the mean of the added samples, and disp becomes sqrt(max(0, mean-square − mean²)) per component |
| DebugUtils.AddUnwrap | src/debug_utils.h:133-139 | appends exactly one element, leaving the others: val on an empty vector, otherwise val unwrapped against the last element |

## Left out

- Floating point is not modelled: rounding, NaN and infinities, overflow, `float` storage of particle data. Where the source tests for NaN or infinity, the model says so by name:
  - a NaN ratio is an `Option`;
  - −∞ is an `ExtReal`;
  - a NaN-rejecting test such as `!(f >= 0)` keeps its real-valued meaning.
- The numerical primitives are parameters constrained only by sign facts, so no quadrature, spline or special-function value is computed. These are the Gauss-Legendre tables, `LogLogSpline`, `CubicSpline2d`, `gamma`, `hypergeom2F1`, `findRoot`, `exp`, `log`, `sqrt` and the phase volume. `createNonuniformGrid` is `LocalInput.nonuniformGrid`. It is only promised to return 100 nodes, even for the non-positive extent logHmax − logHmin (lines 498-500) that a grid not ending above its first node produces.
- `createInterpolationGrid` is not part of this model: the constructor takes a given, strictly increasing grid of at least two nodes; init falls back to an opaque automatic grid.
- The log-ratio slopes at lines 273-275 and 511-512 apply the `log` parameter only to a ratio of two positive values. Where f is 0 at one of the two nodes, the model gives the infinity the source computes:
  - `RawInnerSlope` is −∞ when f(h_1) = 0;
  - `RawOuterSlope` is +∞ when f(h_{n−2}) = 0, since the constructor's grid increases;
  - `OuterFslope` is +∞ over a rising last step and −∞ over a falling one.

  A negative f at the previous node, or two equal last nodes, give NaN in the source. `OuterFslope` writes that as +∞, and both fail the slope test.
- SphericalLocal.AsymptoticsOf: init's finite-difference slope can be −∞: no derivative of f, a falling last step and f(h_{n−2}) = 0 exactly. That slope passes the test at line 514, and the source goes on with outerRatio = +∞ and outerJ1 = ∞/∞. What the last row of the tables then holds depends on `gamma` and `hypergeom2F1` at an infinite parameter. Those routines are not part of this model, and their values cannot be held in a `real`. The model stops with "falls off too slowly" on that input instead (`FallingStepOntoZero`).
- `samplePosVel`, the random number in `sampleVelocity` and the random permutation in `sampleOrbitLibrary` become parameters: a fraction and a family of permutations.
- `difCoefLosscone` and `writeSphericalIsotropicModel` are file output and orbit integration over unseen routines.
- OpenMP parallel loops, and the Python C-API: argument parsing, NumPy conversion, reference counting, the global unit state. Python objects are sequences and datatypes. The parallel `ghmoments` loops are sequential loops writing the same cells.
- The debug log files of the constructor and of init, and the `operator<<` printers and `anglestat` in `debug_utils.h`.
- `OrbitLibrary.SampleOrbitLibrary`:
  - The 2-column `traj` variant (timestamps in the first column) is not distinguished: the model receives the trajectory column.
  - The output arrays are uninitialised in the source but start zeroed in the model. Slots of a short orbit, which the source leaves unwritten, are therefore not described; on that path the arrays are discarded anyway.
  - In exact reals the last boundary ⌊T/T·N⌋ is exactly N, so the assertion at line 4730 is proved rather than assumed.
- `SphericalLocal.FillTables`: `gridJ1`/`gridJ3` are filled row by row. Each row is computed as a sequence and then copied into the two tables, rather than written cell by cell.
- `DebugUtils.ActionStat.Finish`: the dispersion is stated through `VarianceArg`, which clamps at 0 as the source does. That mean-square − mean² is itself non-negative (Cauchy–Schwarz) is not proved.
- `SphericalDensity.ComputeDensity`, `SphericalProjection.ComputeProjectedDensity`: a dispersion at a node where the density is 0 is 0/0 = NaN in the source, and `None` in the model.
- SphericalProjection.ComputeProjectedDensity: adds the check R_0 ≥ 0 (see Findings) and fails with NegativeRadius on every grid with R_0 < 0. That includes grids such as [−10⁻⁶, 1], on which every r² − R_j² the source computes is positive and the source returns a finite profile. The model does not describe the source's result on those grids. The source's own check is kept as `RGridAccepted`.
- SphericalLocal.InitLocal: the given grid need not increase, as in the source. The model then builds its `Spline2d` values on whatever trimmed grid remains. Whether the library's 2d spline constructor rejects an X grid that is not increasing is not modelled: that constructor is not part of this model.
- DebugUtils.ActionStat.Finish: requires at least one added sample. With N = 0 the source divides 0 by 0, leaving NaN means, and `std::max(0, NaN)` leaves zero dispersions. A `real` field cannot hold NaN, so that call is not described.

## Findings

| source | as written | input that shows it | evidently intended | confidence | as-written member | corrected member |
|---|---|---|---|---|---|---|
| src/debug_utils.h:24-32 | the first velocity term compares `p2.vx - p2.vx` (resp. `vR`, `vr`): the point with itself, so that component is never compared and the term is just 0 < eps | p1 = (0,0,0, vx=1, 0,0), p2 = all zeros, eps = 0.5: reported equal | compare `p1.vx - p2.vx` like the other five components | high (not executed) | DebugUtils.EqualPosVelCarMissesVx | DebugUtils.EqualPosVelCarIntended |
| src/galaxymodel_spherical.cpp:200-218 | the grid check demands only positive segment lengths, so a grid starting at a negative radius R_0 passes it. If some Gauss-Legendre point r = R_0 + y²·(R_1 − R_0) of the first segment lies strictly between R_0 and −R_0, which happens when y_min²·(R_1 − R_0) < −2·R_0, then r² − R_0² < 0 there. This breaks `assert(dif>0)` and takes the sqrt of a negative number. Grids whose negative R_0 is small enough, such as [−10⁻⁶, 1], keep every difference positive | gridR = [−1, 3], Gauss-Legendre node y < 0.7: r = −1 + 4y² gives r² < 1 | also reject gridR[0] < 0 | medium (not executed) | SphericalProjection.NegativeRadiusBreaksAssertion | SphericalProjection.ProjectedNonNegative |
