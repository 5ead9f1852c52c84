/**
 * ghmoments: Gauss-Hermite moments of line-of-sight velocity distributions given by their
 * B-spline amplitudes. Each row of the input matrix (a model component, e.g. an orbit) holds
 * numApertures groups of numBasisFnc amplitudes; each row of the output holds numApertures
 * groups of moments. The moment computation itself belongs to the library and is passed in.
 */
module GhMoments {
  import opened Wrappers

  /** The 'matrix' argument: a NumPy array with these dimensions, or something that is not one. */
  datatype MatArg = MatArray(dims: seq<nat>) | NotAnArray

  /** The optional 'ghexp' argument: absent, an array with these dimensions, or not an array. */
  datatype GhArg = NoGhexp | GhArray(dims: seq<nat>) | GhInvalid

  datatype GhError = OrderTooLow | DegreeOutOfRange | GridTooShort | BadMatrixShape | BadGhexpShape

  /**
   * The shape of the computation: the input and output arrays have ndim dimensions,
   * numComponents rows, numApertures groups of numBasisFnc input columns and width output columns.
   */
  datatype Layout = Layout(ndim: nat, numComponents: nat, numApertures: nat, numBasisFnc: nat, width: nat)

  /** The argument checks of ghmoments, in the order it makes them. */
  function GhLayout(degree: int, ghorder: int, gridvSize: nat, mat: MatArg, gh: GhArg): Result<Layout, GhError>
  {
    if ghorder < 2 then Failure(OrderTooLow)
    else if degree < 0 || degree > 3 then Failure(DegreeOutOfRange)
    else if gridvSize < 2 then Failure(GridTooShort)
    else
      var numBasisFnc: nat := gridvSize + degree - 1;
      if mat.NotAnArray? || !(|mat.dims| == 1 || |mat.dims| == 2) then Failure(BadMatrixShape)
      else
        var last := mat.dims[|mat.dims| - 1];
        var numApertures := last / numBasisFnc;
        if numApertures * numBasisFnc != last then Failure(BadMatrixShape)
        else if gh.GhInvalid? || (gh.GhArray? && (|gh.dims| != 2 || gh.dims[0] != numApertures || gh.dims[1] != 3))
        then Failure(BadGhexpShape)
        else
          var numComponents := if |mat.dims| == 1 then 1 else mat.dims[0];
          Success(Layout(|mat.dims|, numComponents, numApertures, numBasisFnc,
                         if gh.GhArray? then ghorder + 1 else ghorder + 4))
  }

  /**
   * ghmoments accepts exactly ghorder >= 2, degree in 0..3, at least two velocity nodes, a 1d or
   * 2d matrix whose last dimension is a multiple (0 included) of numBasisFnc = |gridv| + degree - 1,
   * and a ghexp that is absent or has one row of three numbers per aperture. The output has
   * ghorder+1 moments per aperture with ghexp and ghorder+4 numbers per aperture without.
   */
  lemma GhLayoutContract(degree: int, ghorder: int, gridvSize: nat, mat: MatArg, gh: GhArg)
    ensures var r := GhLayout(degree, ghorder, gridvSize, mat, gh);
      (r.Success? <==>
        ghorder >= 2 && 0 <= degree <= 3 && gridvSize >= 2 && mat.MatArray? && 1 <= |mat.dims| <= 2 &&
        mat.dims[|mat.dims| - 1] % (gridvSize + degree - 1) == 0 &&
        (gh.GhArray? ==> gh.dims == [mat.dims[|mat.dims| - 1] / (gridvSize + degree - 1), 3]) &&
        !gh.GhInvalid?) &&
      (r.Success? ==>
        r.value.numBasisFnc == gridvSize + degree - 1 && r.value.numBasisFnc >= 1 &&
        r.value.numApertures * r.value.numBasisFnc == mat.dims[|mat.dims| - 1] &&
        r.value.ndim == |mat.dims| &&
        r.value.numComponents == (if |mat.dims| == 1 then 1 else mat.dims[0]) &&
        r.value.width == (if gh.GhArray? then ghorder + 1 else ghorder + 4))
  {
    if ghorder >= 2 && 0 <= degree <= 3 && gridvSize >= 2 && mat.MatArray? && 1 <= |mat.dims| <= 2 {
      var nb := gridvSize + degree - 1;
      var last := mat.dims[|mat.dims| - 1];
      assert last == (last / nb) * nb + last % nb;
      if gh.GhArray? && |gh.dims| == 2 {
        assert gh.dims == [gh.dims[0], gh.dims[1]];
      }
    }
  }

  // ---------------------------------------------------------------------------------------------
  // Index arithmetic
  // ---------------------------------------------------------------------------------------------

  lemma MulAtLeast(d: int, w: nat)
    requires d >= 1
    ensures d * w >= w
  {
    assert d * w == (d - 1) * w + w;
  }

  /** Division with remainder has one answer: q*w + r with r < w is divided back into q and r. */
  lemma DivModUnique(i: nat, w: nat, q: nat, r: nat)
    requires r < w && i == q * w + r
    ensures i / w == q && i % w == r
  {
    var q', r' := i / w, i % w;
    assert q' * w + r' == i && r' < w;
    GroupGap(q', q, w);
    GroupGap(q, q', w);
  }

  /** A later group of width w starts at least w further on. */
  lemma GroupGap(a: int, b: int, w: nat)
    ensures a < b ==> a * w + w <= b * w
  {
    if a < b {
      assert b * w == (a + 1) * w + (b - a - 1) * w;
      assert (a + 1) * w == a * w + w;
    }
  }

  /** The next group of width w starts w columns further on. */
  lemma NextGroup(a: nat, w: nat)
    ensures (a + 1) * w == a * w + w
  {
  }

  /** Group a, position b of groups of width w sits at a*w + b, inside n groups. */
  lemma GroupIndexInside(a: nat, b: nat, n: nat, w: nat)
    requires a < n && b < w
    ensures a * w + b < n * w
    ensures (a * w + b) / w == a && (a * w + b) % w == b
  {
    assert n * w == a * w + (n - a) * w;
    MulAtLeast(n - a, w);
    DivModUnique(a * w + b, w, a, b);
  }

  /**
   * The flat loop over ar in [0, numApertures * numComponents) visits row ar / numApertures and
   * aperture ar % numApertures, a pair inside the shape whose row-major position is ar.
   */
  lemma FlatIndexDecomposes(ar: nat, numApertures: nat, numComponents: nat)
    requires ar < numApertures * numComponents
    ensures numApertures > 0
    ensures ar / numApertures < numComponents && ar % numApertures < numApertures
    ensures (ar / numApertures) * numApertures + ar % numApertures == ar
  {
  }

  // ---------------------------------------------------------------------------------------------
  // The two output loops
  // ---------------------------------------------------------------------------------------------

  /** The amplitudes of aperture a in one input row (srcrow in the library). */
  function Segment(row: seq<real>, a: nat, nb: nat): (s: seq<real>)
    ensures a * nb + nb <= |row| ==> |s| == nb && forall b :: 0 <= b < nb ==> s[b] == row[a * nb + b]
  {
    if a * nb + nb <= |row| then row[a * nb .. a * nb + nb] else []
  }

  function Dot(u: seq<real>, v: seq<real>): real
    requires |u| == |v|
  {
    if |u| == 0 then 0.0 else Dot(u[..|u| - 1], v[..|v| - 1]) + u[|u| - 1] * v[|v| - 1]
  }

  /** Moment m of aperture a from its amplitudes: row m of that aperture's conversion matrix times them. */
  function Moment(ghMatrix: nat -> seq<seq<real>>, a: nat, src: seq<real>, m: nat): real
  {
    if m < |ghMatrix(a)| && |ghMatrix(a)[m]| == |src| then Dot(ghMatrix(a)[m], src) else 0.0
  }

  /** dstrow of the ghexp branch for aperture a: the ghorder+1 moments of its amplitudes src. */
  function MomentRow(ghMatrix: nat -> seq<seq<real>>, a: nat, src: seq<real>, w: nat): (row: seq<real>)
    ensures |row| == w
  {
    seq(w, m requires 0 <= m => Moment(ghMatrix, a, src, m))
  }

  /** The first n aperture groups of output row r in the ghexp branch, one after another. */
  function ExpansionRow(mat: seq<seq<real>>, nb: nat, w: nat, ghMatrix: nat -> seq<seq<real>>, r: nat, n: nat)
    : (row: seq<real>)
    requires r < |mat|
    ensures |row| == n * w
  {
    if n == 0 then []
    else ExpansionRow(mat, nb, w, ghMatrix, r, n - 1) + MomentRow(ghMatrix, n - 1, Segment(mat[r], n - 1, nb), w)
  }

  /** Group a of the row holds the moments of aperture a. */
  lemma {:induction false} ExpansionRowGroup(mat: seq<seq<real>>, nb: nat, w: nat, ghMatrix: nat -> seq<seq<real>>,
                                             r: nat, n: nat, a: nat)
    requires r < |mat| && a < n
    ensures forall c :: a * w <= c < a * w + w ==>
      c < n * w && ExpansionRow(mat, nb, w, ghMatrix, r, n)[c] == MomentRow(ghMatrix, a, Segment(mat[r], a, nb), w)[c - a * w]
  {
    if a < n - 1 {
      ExpansionRowGroup(mat, nb, w, ghMatrix, r, n - 1, a);
    }
    assert n * w == (n - 1) * w + w;
    if a < n - 1 {
      assert a * w + w <= (n - 1) * w by {
        MulAtLeast(n - 1 - a, w);
        assert (n - 1) * w == a * w + (n - 1 - a) * w;
      }
    }
  }

  /**
   * Cell c of the row is moment c % w of aperture c / w, computed from that aperture's amplitudes
   * (columns (c/w)*nb .. (c/w)*nb + nb - 1 of input row r).
   */
  lemma ExpansionRowCell(mat: seq<seq<real>>, nb: nat, w: nat, ghMatrix: nat -> seq<seq<real>>, r: nat, n: nat, c: nat)
    requires r < |mat| && c < n * w
    ensures w > 0
    ensures ExpansionRow(mat, nb, w, ghMatrix, r, n)[c] ==
      Moment(ghMatrix, c / w, Segment(mat[r], c / w, nb), c % w)
  {
    assert c < w * n;
    FlatIndexDecomposes(c, w, n);
    var a, m := c / w, c % w;
    var base := a * w;
    assert base + m == c && m < w;
    ExpansionRowGroup(mat, nb, w, ghMatrix, r, n, a);
    assert ExpansionRow(mat, nb, w, ghMatrix, r, n)[c] == MomentRow(ghMatrix, a, Segment(mat[r], a, nb), w)[c - base];
    assert c - base == m;
  }

  /**
   * The innermost loop of both branches: the numbers of one aperture go to row r from column
   * base on, and no other cell changes.
   */
  method WriteGroup(output: array2<real>, r: nat, base: nat, dstrow: seq<real>)
    requires r < output.Length0 && base + |dstrow| <= output.Length1
    modifies output
    ensures forall r', c :: 0 <= r' < output.Length0 && 0 <= c < output.Length1 ==>
      output[r', c] == if r' == r && base <= c < base + |dstrow| then dstrow[c - base] else old(output[r', c])
  {
    var m := 0;
    while m < |dstrow|
      invariant 0 <= m <= |dstrow|
      invariant forall r', c :: 0 <= r' < output.Length0 && 0 <= c < output.Length1 ==>
        output[r', c] == if r' == r && base <= c < base + m then dstrow[c - base] else old(output[r', c])
    {
      output[r, base + m] := dstrow[m];
      m := m + 1;
    }
  }

  /**
   * One step of the ghexp branch: the moments of row r, aperture a, written from column
   * base = a*(ghorder+1); no other cell changes.
   */
  method ExpandAperture(output: array2<real>, mat: seq<seq<real>>, numApertures: nat, numBasisFnc: nat, w: nat,
                        ghMatrix: nat -> seq<seq<real>>, r: nat, a: nat, base: nat)
    requires r < |mat| && a < numApertures && base == a * w
    requires output.Length0 == |mat| && output.Length1 == numApertures * w
    modifies output
    ensures base + w <= output.Length1
    ensures forall r', c :: 0 <= r' < output.Length0 && 0 <= c < output.Length1 ==>
      output[r', c] == if r' == r && base <= c < base + w
        then ExpansionRow(mat, numBasisFnc, w, ghMatrix, r, numApertures)[c]
        else old(output[r', c])
  {
    if w > 0 {
      GroupIndexInside(a, w - 1, numApertures, w);
    }
    var src := Segment(mat[r], a, numBasisFnc);
    var dstrow := MomentRow(ghMatrix, a, src, w);
    WriteGroup(output, r, base, dstrow);
    ExpansionRowGroup(mat, numBasisFnc, w, ghMatrix, r, numApertures, a);
  }

  /**
   * The branch with ghexp given: for each aperture a and each row r, dstrow is the conversion
   * matrix of the aperture times the row's amplitudes, written from column a*(ghorder+1). Every
   * cell is written, so output row r is ExpansionRow (see ExpansionRowCell for cell by cell).
   */
  method MomentsWithExpansion(mat: seq<seq<real>>, numApertures: nat, numBasisFnc: nat, ghorder: nat,
                              ghMatrix: nat -> seq<seq<real>>) returns (output: array2<real>)
    requires forall r :: 0 <= r < |mat| ==> |mat[r]| == numApertures * numBasisFnc
    ensures output.Length0 == |mat| && output.Length1 == numApertures * (ghorder + 1)
    ensures forall r, c :: 0 <= r < |mat| && 0 <= c < output.Length1 ==>
      output[r, c] == ExpansionRow(mat, numBasisFnc, ghorder + 1, ghMatrix, r, numApertures)[c]
  {
    var w := ghorder + 1;
    output := new real[|mat|, numApertures * w];
    var a := 0;
    var base := 0;
    while a < numApertures
      invariant 0 <= a <= numApertures && base == a * w && base <= output.Length1
      invariant a == numApertures ==> base == output.Length1
      invariant forall r, c :: 0 <= r < |mat| && 0 <= c < base ==>
        output[r, c] == ExpansionRow(mat, numBasisFnc, w, ghMatrix, r, numApertures)[c]
    {
      GroupIndexInside(a, w - 1, numApertures, w);
      var r := 0;
      while r < |mat|
        invariant 0 <= r <= |mat| && base + w <= output.Length1
        invariant forall r', c :: 0 <= r' < |mat| && 0 <= c < (if r' < r then base + w else base) ==>
          output[r', c] == ExpansionRow(mat, numBasisFnc, w, ghMatrix, r', numApertures)[c]
      {
        ExpandAperture(output, mat, numApertures, numBasisFnc, w, ghMatrix, r, a, base);
        r := r + 1;
      }
      NextGroup(a, w);
      a := a + 1;
      base := base + w;
    }
  }

  /** The best-fit expansion of one aperture: gamma, centre, width and the moments h_0 .. h_ghorder. */
  datatype GhFit = GhFit(gamma: real, center: real, sigma: real, coefs: seq<real>)

  /** dstrow of the best-fit branch: gamma, centre and width in the caller's velocity unit, then the moments. */
  function FitRow(f: GhFit, velocityUnit: real): seq<real>
    requires velocityUnit != 0.0
  {
    [f.gamma, f.center / velocityUnit, f.sigma / velocityUnit] + f.coefs
  }

  /** The first n aperture groups of output row r in the best-fit branch. */
  function BestFitRow(mat: seq<seq<real>>, nb: nat, ghorder: nat, fit: seq<real> -> GhFit, velocityUnit: real,
                      r: nat, n: nat): (row: seq<real>)
    requires r < |mat| && velocityUnit != 0.0
    requires forall src :: |fit(src).coefs| == ghorder + 1
    ensures |row| == n * (ghorder + 4)
  {
    if n == 0 then []
    else BestFitRow(mat, nb, ghorder, fit, velocityUnit, r, n - 1) + FitRow(fit(Segment(mat[r], n - 1, nb)), velocityUnit)
  }

  /** Group a of the row is the fit to aperture a. */
  lemma {:induction false} BestFitRowGroup(mat: seq<seq<real>>, nb: nat, ghorder: nat, fit: seq<real> -> GhFit,
                                           velocityUnit: real, r: nat, n: nat, a: nat)
    requires r < |mat| && velocityUnit != 0.0 && a < n
    requires forall src :: |fit(src).coefs| == ghorder + 1
    ensures var w := ghorder + 4;
      forall c :: a * w <= c < a * w + w ==>
        c < n * w && BestFitRow(mat, nb, ghorder, fit, velocityUnit, r, n)[c] ==
        FitRow(fit(Segment(mat[r], a, nb)), velocityUnit)[c - a * w]
  {
    var w := ghorder + 4;
    if a < n - 1 {
      BestFitRowGroup(mat, nb, ghorder, fit, velocityUnit, r, n - 1, a);
    }
    assert n * w == (n - 1) * w + w;
    if a < n - 1 {
      assert a * w + w <= (n - 1) * w by {
        MulAtLeast(n - 1 - a, w);
        assert (n - 1) * w == a * w + (n - 1 - a) * w;
      }
    }
  }

  /** Cell c of the row is number c % (ghorder+4) of the fit to aperture c / (ghorder+4). */
  lemma BestFitRowCell(mat: seq<seq<real>>, nb: nat, ghorder: nat, fit: seq<real> -> GhFit, velocityUnit: real,
                       r: nat, n: nat, c: nat)
    requires r < |mat| && velocityUnit != 0.0 && c < n * (ghorder + 4)
    requires forall src :: |fit(src).coefs| == ghorder + 1
    ensures BestFitRow(mat, nb, ghorder, fit, velocityUnit, r, n)[c] ==
      FitRow(fit(Segment(mat[r], c / (ghorder + 4), nb)), velocityUnit)[c % (ghorder + 4)]
  {
    var w := ghorder + 4;
    FlatIndexDecomposes(c, w, n);
    BestFitRowGroup(mat, nb, ghorder, fit, velocityUnit, r, n, c / w);
    assert (c / w) * w <= c < (c / w) * w + w;
  }

  /**
   * One step of the flat loop: fit an expansion to the amplitudes of row r, aperture a, and
   * write its ghorder+4 numbers from column base = a*(ghorder+4); no other cell changes.
   */
  method FitAperture(output: array2<real>, mat: seq<seq<real>>, numApertures: nat, numBasisFnc: nat, ghorder: nat,
                     fit: seq<real> -> GhFit, velocityUnit: real, r: nat, a: nat, base: nat)
    requires r < |mat| && a < numApertures && base == a * (ghorder + 4)
    requires output.Length0 == |mat| && output.Length1 == numApertures * (ghorder + 4)
    requires forall src :: |fit(src).coefs| == ghorder + 1
    requires velocityUnit != 0.0
    modifies output
    ensures base + ghorder + 4 <= output.Length1
    ensures forall r', c :: 0 <= r' < output.Length0 && 0 <= c < output.Length1 ==>
      output[r', c] == if r' == r && base <= c < base + ghorder + 4
        then BestFitRow(mat, numBasisFnc, ghorder, fit, velocityUnit, r, numApertures)[c]
        else old(output[r', c])
  {
    var w := ghorder + 4;
    GroupIndexInside(a, w - 1, numApertures, w);
    var dstrow := FitRow(fit(Segment(mat[r], a, numBasisFnc)), velocityUnit);
    WriteGroup(output, r, base, dstrow);
    BestFitRowGroup(mat, numBasisFnc, ghorder, fit, velocityUnit, r, numApertures, a);
  }

  /**
   * The branch without ghexp: the flat loop over ar = 0 .. numApertures*numComponents - 1 handles
   * row ar / numApertures and aperture ar % numApertures, fitting an expansion to its amplitudes
   * and writing its ghorder+4 numbers from column a*(ghorder+4). Every cell is written, so output
   * row r is BestFitRow (see BestFitRowCell for cell by cell).
   */
  method MomentsBestFit(mat: seq<seq<real>>, numApertures: nat, numBasisFnc: nat, ghorder: nat,
                        fit: seq<real> -> GhFit, velocityUnit: real) returns (output: array2<real>)
    requires forall r :: 0 <= r < |mat| ==> |mat[r]| == numApertures * numBasisFnc
    requires forall src :: |fit(src).coefs| == ghorder + 1
    requires velocityUnit != 0.0
    ensures output.Length0 == |mat| && output.Length1 == numApertures * (ghorder + 4)
    ensures forall r, c :: 0 <= r < |mat| && 0 <= c < output.Length1 ==>
      output[r, c] == BestFitRow(mat, numBasisFnc, ghorder, fit, velocityUnit, r, numApertures)[c]
  {
    var w := ghorder + 4;
    output := new real[|mat|, numApertures * w];
    var count := numApertures * |mat|;
    var ar := 0;
    ghost var gr: nat, ga: nat, gc: nat := 0, 0, 0;
    while ar < count
      invariant 0 <= ar <= count
      invariant numApertures > 0 ==> gr * numApertures + ga == ar && ga < numApertures
      invariant gc == ga * w
      invariant forall r, c :: 0 <= r < |mat| && 0 <= c < output.Length1 && (r < gr || (r == gr && c < gc)) ==>
        output[r, c] == BestFitRow(mat, numBasisFnc, ghorder, fit, velocityUnit, r, numApertures)[c]
    {
      FlatIndexDecomposes(ar, numApertures, |mat|);
      var r, a := ar / numApertures, ar % numApertures;
      DivModUnique(ar, numApertures, gr, ga);
      var base := a * w;
      FitAperture(output, mat, numApertures, numBasisFnc, ghorder, fit, velocityUnit, r, a, base);
      NextGroup(a, w);
      if a + 1 < numApertures {
        gr, ga, gc := r, a + 1, base + w;
      } else {
        NextGroup(r, numApertures);
        assert output.Length1 == base + w;
        gr, ga, gc := r + 1, 0, 0;
      }
      ar := ar + 1;
    }
    if numApertures > 0 {
      DivModUnique(count, numApertures, |mat|, 0);
      DivModUnique(count, numApertures, gr, ga);
    }
  }
}
