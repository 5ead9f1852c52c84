/**
 * The output formats of the vectorised Python entry points: a routine computes a flat block of
 * numbers for each input point, and the format decides how that block is cut into the rows of
 * one, two or three output arrays.
 */
module OutputFormat {

  /** The output kinds; the name lists the width of each output array (1 = scalar array). */
  datatype OutputKind =
    | Single | Triplet | Sextet
    | SingleAndSingle | SingleAndTriplet | SingleAndSextet
    | TripletAndTriplet | TripletAndSextet
    | SingleAndSingleAndSingle | SingleAndSingleAndSextet | SingleAndTripletAndSextet
    | TripletAndTripletAndTriplet

  /** The width of each output array, in the order the arrays appear in the output tuple. */
  function Parts(k: OutputKind): (r: seq<nat>)
    ensures 1 <= |r| <= 3
    ensures forall i :: 0 <= i < |r| ==> r[i] in {1, 3, 6}
  {
    match k
    case Single => [1]
    case Triplet => [3]
    case Sextet => [6]
    case SingleAndSingle => [1, 1]
    case SingleAndTriplet => [1, 3]
    case SingleAndSextet => [1, 6]
    case TripletAndTriplet => [3, 3]
    case TripletAndSextet => [3, 6]
    case SingleAndSingleAndSingle => [1, 1, 1]
    case SingleAndSingleAndSextet => [1, 1, 6]
    case SingleAndTripletAndSextet => [1, 3, 6]
    case TripletAndTripletAndTriplet => [3, 3, 3]
  }

  function SumOf(s: seq<nat>): nat
  {
    if |s| == 0 then 0 else s[0] + SumOf(s[1..])
  }

  /** outputLength: the number of values computed for one input point. */
  function OutputLength(k: OutputKind): (n: nat)
    ensures 1 <= n <= 10
  {
    match k
    case Single => 1
    case Triplet => 3
    case Sextet => 6
    case SingleAndSingle => 2
    case SingleAndTriplet => 4
    case SingleAndSextet => 7
    case TripletAndTriplet => 6
    case TripletAndSextet => 9
    case SingleAndSingleAndSingle => 3
    case SingleAndSingleAndSextet => 8
    case SingleAndTripletAndSextet => 10
    case TripletAndTripletAndTriplet => 9
  }

  /** The buffer of outputLength values is exactly as long as the output arrays are wide together. */
  lemma OutputLengthIsTotalWidth(k: OutputKind)
    ensures OutputLength(k) == SumOf(Parts(k))
  {
    var p := Parts(k);
    if |p| == 1 {
      assert p[1..] == [];
    } else if |p| == 2 {
      assert p[1..][1..] == [];
      assert SumOf(p[1..]) == p[1];
    } else {
      assert p[1..][1..][1..] == [];
      assert SumOf(p[1..][1..]) == p[2];
      assert SumOf(p[1..]) == p[1] + p[2];
    }
  }

  /**
   * formatOutputArr: the row each output array receives for one input point, read from the
   * buffer at the offsets the library uses for that kind.
   */
  function FormatRows(k: OutputKind, result: seq<real>): (rows: seq<seq<real>>)
    requires |result| >= OutputLength(k)
  {
    match k
    case Single => [result[0..1]]
    case Triplet => [result[0..3]]
    case Sextet => [result[0..6]]
    case SingleAndSingle => [result[0..1], result[1..2]]
    case SingleAndTriplet => [result[0..1], result[1..4]]
    case SingleAndSextet => [result[0..1], result[1..7]]
    case TripletAndTriplet => [result[0..3], result[3..6]]
    case TripletAndSextet => [result[0..3], result[3..9]]
    case SingleAndSingleAndSingle => [result[0..1], result[1..2], result[2..3]]
    case SingleAndSingleAndSextet => [result[0..1], result[1..2], result[2..8]]
    case SingleAndTripletAndSextet => [result[0..1], result[1..4], result[4..10]]
    case TripletAndTripletAndTriplet => [result[0..3], result[3..6], result[6..9]]
  }

  function Concat(rows: seq<seq<real>>): seq<real>
  {
    if |rows| == 0 then [] else rows[0] + Concat(rows[1..])
  }

  /**
   * Every value of the buffer lands in exactly one array, in order: the rows have the widths of
   * Parts(k) and together they are the first outputLength values of the buffer.
   */
  lemma FormatRowsSplitsBuffer(k: OutputKind, result: seq<real>)
    requires |result| >= OutputLength(k)
    ensures |FormatRows(k, result)| == |Parts(k)|
    ensures forall i :: 0 <= i < |Parts(k)| ==> |FormatRows(k, result)[i]| == Parts(k)[i]
    ensures Concat(FormatRows(k, result)) == result[..OutputLength(k)]
  {
    var rows := FormatRows(k, result);
    var n := OutputLength(k);
    if |rows| == 1 {
      assert rows[1..] == [];
      assert Concat(rows) == rows[0];
    } else if |rows| == 2 {
      assert rows[1..][1..] == [];
      assert Concat(rows[1..]) == rows[1];
      assert Concat(rows) == rows[0] + rows[1];
      assert rows[0] + rows[1] == result[..n];
    } else {
      assert rows[1..][1..][1..] == [];
      assert Concat(rows[1..][1..]) == rows[2];
      assert Concat(rows[1..]) == rows[1] + rows[2];
      assert Concat(rows) == rows[0] + (rows[1] + rows[2]);
      assert rows[0] + (rows[1] + rows[2]) == result[..n];
    }
  }

  /**
   * formatOutputArr for the point at position index: each output array gets its row written at
   * index, and no other row of any array changes.
   */
  function FormatOutputArr(k: OutputKind, result: seq<real>, index: nat, arrays: seq<seq<seq<real>>>)
    : (r: seq<seq<seq<real>>>)
    requires |result| >= OutputLength(k)
    requires |arrays| == |Parts(k)| && forall i :: 0 <= i < |arrays| ==> index < |arrays[i]|
    ensures |r| == |arrays|
    ensures forall i :: 0 <= i < |r| ==> |r[i]| == |arrays[i]|
    ensures forall i, j :: 0 <= i < |r| && 0 <= j < |r[i]| ==>
      r[i][j] == if j == index then FormatRows(k, result)[i] else arrays[i][j]
  {
    var rows := FormatRows(k, result);
    seq(|arrays|, i requires 0 <= i < |arrays| => arrays[i][index := rows[i]])
  }
}
