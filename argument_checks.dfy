/**
 * Argument validation done by the Python entry points before they call into the library:
 * setUnits, nonuniformGrid, symmetricGrid and the bounds parser of integrateNdim/sampleNdim.
 */
module ArgumentChecks {
  import opened Wrappers

  // ---------------------------------------------------------------------------------------------
  // setUnits
  // ---------------------------------------------------------------------------------------------

  /** The library's conversion constants (Kpc, km/s, Myr, solar mass in internal units). */
  datatype UnitScales = UnitScales(kpc: real, kms: real, myr: real, msun: real)

  predicate ValidScales(s: UnitScales)
  {
    s.kpc > 0.0 && s.kms > 0.0 && s.myr > 0.0 && s.msun > 0.0
  }

  /** The three independent units handed to the unit converter. */
  datatype ExternalUnits = ExternalUnits(lengthUnit: real, velocityUnit: real, massUnit: real)

  datatype UnitsError = NegativeArgument | ThreeUnitsGiven | MassMissing | NotTwoUnits

  /**
   * setUnits(mass, length, velocity, time); an argument that is not given is 0. Length, velocity
   * and time are in kpc, km/s and Myr.
   */
  function SetUnits(s: UnitScales, mass: real, length: real, velocity: real, time: real)
    : Result<ExternalUnits, UnitsError>
    requires ValidScales(s)
  {
    if mass < 0.0 || length < 0.0 || velocity < 0.0 || time < 0.0 then Failure(NegativeArgument)
    else if length > 0.0 && velocity > 0.0 && time > 0.0 then Failure(ThreeUnitsGiven)
    else if mass == 0.0 then Failure(MassMissing)
    else if length > 0.0 && time > 0.0 then
      Success(ExternalUnits(length * s.kpc, length / time * s.kpc / s.myr, mass * s.msun))
    else if length > 0.0 && velocity > 0.0 then
      Success(ExternalUnits(length * s.kpc, velocity * s.kms, mass * s.msun))
    else if time > 0.0 && velocity > 0.0 then
      Success(ExternalUnits(velocity * time * s.kms * s.myr, velocity * s.kms, mass * s.msun))
    else Failure(NotTwoUnits)
  }

  /** The number of the three scales length, velocity and time that are given (positive). */
  function Given(length: real, velocity: real, time: real): nat
  {
    (if length > 0.0 then 1 else 0) + (if velocity > 0.0 then 1 else 0) + (if time > 0.0 then 1 else 0)
  }

  /**
   * setUnits succeeds exactly when no argument is negative, the mass is positive and exactly two
   * of length, velocity and time are given. The units it sets are positive, the given ones are
   * taken as they are, and whenever a time is given the implied time unit length/velocity is it.
   */
  lemma SetUnitsContract(s: UnitScales, mass: real, length: real, velocity: real, time: real)
    requires ValidScales(s)
    ensures var r := SetUnits(s, mass, length, velocity, time);
      (r.Success? <==>
        mass > 0.0 && length >= 0.0 && velocity >= 0.0 && time >= 0.0 && Given(length, velocity, time) == 2) &&
      (r.Success? ==>
        r.value.lengthUnit > 0.0 && r.value.velocityUnit > 0.0 && r.value.massUnit == mass * s.msun &&
        (length > 0.0 ==> r.value.lengthUnit == length * s.kpc) &&
        (velocity > 0.0 ==> r.value.velocityUnit == velocity * s.kms) &&
        (time > 0.0 ==> r.value.lengthUnit / r.value.velocityUnit == time * s.myr))
  {
    var r := SetUnits(s, mass, length, velocity, time);
    if r.Success? {
      var u := r.value;
      if length > 0.0 && time > 0.0 {
        assert length / time > 0.0;
        assert length / time * s.kpc > 0.0;
        assert u.velocityUnit > 0.0;
        assert u.velocityUnit * (time * s.myr) == length * s.kpc;
      } else if length > 0.0 && velocity > 0.0 {
        assert u.lengthUnit > 0.0 && u.velocityUnit > 0.0;
      } else {
        assert velocity * time > 0.0;
        assert velocity * time * s.kms > 0.0;
        assert u.lengthUnit > 0.0;
        assert u.lengthUnit == (velocity * s.kms) * (time * s.myr);
      }
    }
  }

  // ---------------------------------------------------------------------------------------------
  // nonuniformGrid and symmetricGrid
  // ---------------------------------------------------------------------------------------------

  /** The arguments handed on to the grid constructor once they pass the checks. */
  datatype GridArgs = GridArgs(nnodes: int, xmin: real, xmax: real)

  /**
   * nonuniformGrid(nnodes, xmin, xmax); xmax is None when it is not given or not finite, and then
   * defaults to (nnodes-1) xmin, the outer node of a uniform grid.
   */
  function NonuniformGridArgs(nnodes: int, xmin: real, xmax: Option<real>): Option<GridArgs>
  {
    var outer := if xmax.Some? then xmax.value else (nnodes - 1) as real * xmin;
    if nnodes < 2 || xmin <= 0.0 || outer <= xmin then None
    else Some(GridArgs(nnodes, xmin, outer))
  }

  /**
   * nonuniformGrid accepts exactly nnodes >= 2, xmin > 0 and an outer node beyond xmin, given or
   * defaulted; without xmax that means nnodes >= 3, so nnodes = 2 is refused.
   */
  lemma NonuniformGridContract(nnodes: int, xmin: real, xmax: Option<real>)
    ensures var r := NonuniformGridArgs(nnodes, xmin, xmax);
      (xmax.Some? ==> (r.Some? <==> nnodes >= 2 && xmin > 0.0 && xmax.value > xmin)) &&
      (xmax.None? ==> (r.Some? <==> nnodes >= 3 && xmin > 0.0)) &&
      (r.Some? ==> r.value.nnodes == nnodes && r.value.xmin == xmin && r.value.xmin < r.value.xmax) &&
      (r.Some? && xmax.None? ==> r.value.xmax == (nnodes - 1) as real * xmin)
  {
    if xmax.None? && xmin > 0.0 {
      if nnodes >= 3 {
        assert (nnodes - 1) as real >= 2.0;
        assert (nnodes - 1) as real * xmin >= 2.0 * xmin;
      } else if nnodes == 2 {
        assert (nnodes - 1) as real * xmin == xmin;
      }
    }
  }

  /**
   * symmetricGrid(nnodes, xmin, xmax); a missing xmax is NaN, which passes the comparison with
   * xmin and is handed on as missing.
   */
  function SymmetricGridArgs(nnodes: int, xmin: real, xmax: Option<real>): Option<(int, real, Option<real>)>
  {
    if nnodes < 2 || xmin <= 0.0 || (xmax.Some? && xmax.value <= xmin) then None
    else Some((nnodes, xmin, xmax))
  }

  /**
   * symmetricGrid applies the same checks but accepts a missing xmax; it differs from
   * nonuniformGrid exactly in the case nnodes = 2 without xmax.
   */
  lemma SymmetricGridContract(nnodes: int, xmin: real, xmax: Option<real>)
    ensures var r := SymmetricGridArgs(nnodes, xmin, xmax);
      (r.Some? <==> nnodes >= 2 && xmin > 0.0 && (xmax.Some? ==> xmax.value > xmin)) &&
      (r.Some? ==> r.value == (nnodes, xmin, xmax)) &&
      (r.Some? != NonuniformGridArgs(nnodes, xmin, xmax).Some? <==> nnodes == 2 && xmin > 0.0 && xmax.None?)
  {
    NonuniformGridContract(nnodes, xmin, xmax);
  }

  // ---------------------------------------------------------------------------------------------
  // parseLowerUpperBounds
  // ---------------------------------------------------------------------------------------------

  /** A Python argument as the parser sees it: absent, an integer, a 1d float array, or neither. */
  datatype Arg = Missing | IntArg(n: int) | ArrayArg(values: seq<real>) | OtherArg

  datatype BoundsError = LowerMissing | InvalidDimension | UpperNotAllowed | InvalidLower | UpperMissing
                       | InvalidUpper

  /**
   * parseLowerUpperBounds: an integer lower is the number of dimensions of the unit cube; otherwise
   * lower and upper must both be 1d arrays of equal length. An integer upper is not a 1d array.
   */
  function ParseLowerUpperBounds(lower: Arg, upper: Arg): Result<(seq<real>, seq<real>), BoundsError>
  {
    if lower.Missing? then Failure(LowerMissing)
    else if lower.IntArg? then
      if lower.n < 1 then Failure(InvalidDimension)
      else if !upper.Missing? then Failure(UpperNotAllowed)
      else Success((seq(lower.n, _ => 0.0), seq(lower.n, _ => 1.0)))
    else if !lower.ArrayArg? then Failure(InvalidLower)
    else if upper.Missing? then Failure(UpperMissing)
    else if !upper.ArrayArg? || |upper.values| != |lower.values| then Failure(InvalidUpper)
    else Success((lower.values, upper.values))
  }

  /**
   * The parser succeeds exactly for a positive dimension count without upper, or for two arrays
   * of equal length; the bounds then have equal lengths, are the unit cube for a count, and are
   * the arrays themselves otherwise.
   */
  lemma ParseLowerUpperBoundsContract(lower: Arg, upper: Arg)
    ensures var r := ParseLowerUpperBounds(lower, upper);
      (r.Success? <==>
        (lower.IntArg? && lower.n >= 1 && upper.Missing?) ||
        (lower.ArrayArg? && upper.ArrayArg? && |lower.values| == |upper.values|)) &&
      (r.Success? ==> |r.value.0| == |r.value.1|) &&
      (r.Success? && lower.IntArg? ==>
        |r.value.0| == lower.n && forall d :: 0 <= d < lower.n ==> r.value.0[d] == 0.0 && r.value.1[d] == 1.0) &&
      (r.Success? && lower.ArrayArg? ==> r.value == (lower.values, upper.values))
  {
  }
}
