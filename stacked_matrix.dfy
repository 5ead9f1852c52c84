/**
 * The optimisation entry point accepts its constraint matrix as one 2d array or as a tuple of
 * 2d arrays with the same number of columns, read as one matrix stacked vertically; the vectors
 * that go with it (right-hand side, penalties) are stacked the same way.
 */
module StackedMatrices {
  import opened Wrappers

  /** Element type of one NumPy block; only float and double can be read. */
  datatype DataType = Float32 | Float64 | OtherType

  /** A 2d array as its list of rows. */
  type Matrix = seq<seq<real>>

  /** StackedMatrix: the blocks, their row counts, their element types and the overall shape. */
  datatype StackedMatrix = StackedMatrix(stack: seq<Matrix>, nRow: seq<int>, dataTypes: seq<DataType>,
                                         rows: nat, cols: nat)

  datatype MatrixError = OutOfRange | UnknownDataType

  /** The number of rows in blocks 0 .. k-1. */
  function RowsBefore(nRow: seq<int>, k: nat): int
    requires k <= |nRow|
  {
    if k == 0 then 0 else RowsBefore(nRow, k - 1) + nRow[k - 1]
  }

  /**
   * The stack as the optimiser builds it: one row count per block, every row nCol wide, and the
   * total row count the sum of the blocks' counts.
   */
  predicate Valid(m: StackedMatrix)
  {
    |m.stack| == |m.nRow| == |m.dataTypes| &&
    (forall s :: 0 <= s < |m.stack| ==> m.nRow[s] == |m.stack[s]|) &&
    (forall s, i :: 0 <= s < |m.stack| && 0 <= i < |m.stack[s]| ==> |m.stack[s][i]| == m.cols) &&
    m.rows == RowsBefore(m.nRow, |m.nRow|)
  }

  /** The reference: blocks k, k+1, ... placed one below the other. */
  function StackedFrom(stack: seq<Matrix>, k: nat): Matrix
    decreases |stack| - k
  {
    if k >= |stack| then [] else stack[k] + StackedFrom(stack, k + 1)
  }

  /** The search the lookup loop performs: skip whole blocks while the row lies past them. */
  function Locate(nRow: seq<int>, row: int, k: nat): (r: (nat, int))
    requires k <= |nRow|
    ensures k <= r.0 <= |nRow|
    decreases |nRow| - k
  {
    if k < |nRow| && row >= nRow[k] then Locate(nRow, row - nRow[k], k + 1) else (k, row)
  }

  /**
   * For a row inside blocks k, k+1, ...: the search stops at a block j that holds it, at local
   * row row - (rows of blocks k .. j-1), and that row of block j is the stacked row.
   */
  lemma {:induction false} LocateReads(m: StackedMatrix, row: int, k: nat)
    requires Valid(m) && k <= |m.stack| && 0 <= row < |StackedFrom(m.stack, k)|
    ensures var (j, local) := Locate(m.nRow, row, k);
      j < |m.stack| && 0 <= local < |m.stack[j]| &&
      local == row - (RowsBefore(m.nRow, j) - RowsBefore(m.nRow, k)) &&
      m.stack[j][local] == StackedFrom(m.stack, k)[row]
    decreases |m.stack| - k
  {
    assert k < |m.stack|;
    if row >= m.nRow[k] {
      LocateReads(m, row - m.nRow[k], k + 1);
    }
  }

  /** The stacked matrix has as many rows as the blocks together. */
  lemma {:induction false} StackedLength(m: StackedMatrix, k: nat)
    requires Valid(m) && k <= |m.stack|
    ensures |StackedFrom(m.stack, k)| == RowsBefore(m.nRow, |m.nRow|) - RowsBefore(m.nRow, k)
    decreases |m.stack| - k
  {
    if k < |m.stack| {
      StackedLength(m, k + 1);
    }
  }

  /** Every row of the stacked matrix is nCol wide. */
  lemma {:induction false} StackedRowsWidth(m: StackedMatrix, k: nat)
    requires Valid(m) && k <= |m.stack|
    ensures forall i :: 0 <= i < |StackedFrom(m.stack, k)| ==> |StackedFrom(m.stack, k)[i]| == m.cols
    decreases |m.stack| - k
  {
    if k < |m.stack| {
      StackedRowsWidth(m, k + 1);
    }
  }

  /** at(row, col) as a value: out_of_range outside the shape, else the element of its block. */
  function AtValue(m: StackedMatrix, row: nat, col: nat): Result<real, MatrixError>
    requires Valid(m)
  {
    if row >= m.rows || col >= m.cols then Failure(OutOfRange)
    else
      StackedLength(m, 0);
      LocateReads(m, row, 0);
      var (k, local) := Locate(m.nRow, row, 0);
      if m.dataTypes[k] == OtherType then Failure(UnknownDataType)
      else Success(m.stack[k][local][col])
  }

  /** StackedMatrix::at: the loop walks down the blocks, subtracting the rows it skips. */
  method At(m: StackedMatrix, row: nat, col: nat) returns (r: Result<real, MatrixError>)
    requires Valid(m)
    ensures r == AtValue(m, row, col)
  {
    if row >= m.rows || col >= m.cols {
      return Failure(OutOfRange);
    }
    StackedLength(m, 0);
    LocateReads(m, row, 0);
    var localRow: int := row;
    var indMatrix: nat := 0;
    while indMatrix < |m.stack| && localRow >= m.nRow[indMatrix]
      invariant indMatrix <= |m.stack|
      invariant Locate(m.nRow, localRow, indMatrix) == Locate(m.nRow, row, 0)
      decreases |m.stack| - indMatrix
    {
      localRow := localRow - m.nRow[indMatrix];
      indMatrix := indMatrix + 1;
    }
    if m.dataTypes[indMatrix] == OtherType {
      return Failure(UnknownDataType);
    }
    return Success(m.stack[indMatrix][localRow][col]);
  }

  /** Every block holds float or double data. */
  predicate KnownTypes(m: StackedMatrix)
  {
    forall s :: 0 <= s < |m.dataTypes| ==> m.dataTypes[s] != OtherType
  }

  /**
   * at throws out_of_range exactly outside rows x cols; inside, it reads block k with
   * prefix_k <= row < prefix_(k+1) at local row row - prefix_k, and for float or double blocks
   * the value is the element of the vertically stacked matrix.
   */
  lemma AtContract(m: StackedMatrix, row: nat, col: nat)
    requires Valid(m)
    ensures AtValue(m, row, col) == Failure(OutOfRange) <==> row >= m.rows || col >= m.cols
    ensures row < m.rows && col < m.cols ==>
      var (k, local) := Locate(m.nRow, row, 0);
      k < |m.stack| && RowsBefore(m.nRow, k) <= row < RowsBefore(m.nRow, k + 1) &&
      local == row - RowsBefore(m.nRow, k)
    ensures row < m.rows && col < m.cols && KnownTypes(m) ==>
      row < |StackedFrom(m.stack, 0)| && col < |StackedFrom(m.stack, 0)[row]| &&
      AtValue(m, row, col) == Success(StackedFrom(m.stack, 0)[row][col])
  {
    if row < m.rows && col < m.cols {
      StackedLength(m, 0);
      LocateReads(m, row, 0);
      StackedRowsWidth(m, 0);
    }
  }

  /** size(): the number of elements. */
  function Size(m: StackedMatrix): nat
  {
    m.rows * m.cols
  }

  /** elem(index): the row-major position of a flat index and the element there. */
  function Elem(m: StackedMatrix, index: nat): (r: (nat, nat, Result<real, MatrixError>))
    requires Valid(m) && m.cols > 0
    ensures r.0 * m.cols + r.1 == index && r.1 < m.cols
    ensures r.2 == AtValue(m, r.0, r.1)
  {
    var row, col := index / m.cols, index % m.cols;
    (row, col, AtValue(m, row, col))
  }

  /** Every flat index below size() is an element inside the shape, so elem never throws out_of_range. */
  lemma ElemInside(m: StackedMatrix, index: nat)
    requires Valid(m) && index < Size(m)
    ensures m.cols > 0
    ensures Elem(m, index).0 < m.rows
    ensures Elem(m, index).2 != Failure(OutOfRange)
  {
    var row, col := index / m.cols, index % m.cols;
    AtContract(m, row, col);
  }

  // ---------------------------------------------------------------------------------------------
  // stackVectors
  // ---------------------------------------------------------------------------------------------

  /** The arrays placed one after another. */
  function Concat(items: seq<seq<real>>): seq<real>
  {
    if |items| == 0 then [] else Concat(items[..|items| - 1]) + items[|items| - 1]
  }

  lemma {:induction false} ConcatLength(items: seq<seq<real>>, nRow: seq<int>)
    requires |items| == |nRow| && forall i :: 0 <= i < |items| ==> |items[i]| == nRow[i]
    ensures |Concat(items)| == RowsBefore(nRow, |nRow|)
  {
    if |items| > 0 {
      ConcatLength(items[..|items| - 1], nRow[..|nRow| - 1]);
      RowsBeforePrefix(nRow, |nRow| - 1);
    }
  }

  /** The count of the first k blocks depends only on those blocks. */
  lemma {:induction false} RowsBeforePrefix(nRow: seq<int>, k: nat)
    requires k <= |nRow|
    ensures RowsBefore(nRow[..k], k) == RowsBefore(nRow, k)
  {
    RowsBeforeAgree(nRow[..k], nRow, k);
  }

  lemma {:induction false} RowsBeforeAgree(a: seq<int>, b: seq<int>, k: nat)
    requires k <= |a| && k <= |b| && a[..k] == b[..k]
    ensures RowsBefore(a, k) == RowsBefore(b, k)
  {
    if k > 0 {
      assert a[..k - 1] == a[..k][..k - 1];
      assert b[..k - 1] == b[..k][..k - 1];
      assert a[k - 1] == a[..k][k - 1];
      assert b[k - 1] == b[..k][k - 1];
      RowsBeforeAgree(a, b, k - 1);
    }
  }

  /** The first item whose length disagrees with its required count (|items| if there is none). */
  function FirstMismatch(items: seq<seq<real>>, nRow: seq<int>): (i: nat)
    requires |items| == |nRow|
    ensures i <= |items|
    ensures forall j :: 0 <= j < i ==> |items[j]| == nRow[j]
    ensures i < |items| ==> |items[i]| != nRow[i]
    decreases |items|
  {
    if |items| == 0 then 0
    else if |items[0]| != nRow[0] then 0
    else 1 + FirstMismatch(items[1..], nRow[1..])
  }

  /**
   * stackVectors(obj, nRow, out). obj is None for a NULL argument. The outcomes: NULL gives true
   * with out empty; a wrong number of items gives false with out empty; an item of the wrong
   * length gives false with out holding the items before it; otherwise true with out the items
   * in order.
   */
  method StackVectors(obj: Option<seq<seq<real>>>, nRow: seq<int>) returns (ok: bool, out: seq<real>)
    ensures obj.None? ==> ok && out == []
    ensures obj.Some? && |obj.value| != |nRow| ==> !ok && out == []
    ensures obj.Some? && |obj.value| == |nRow| ==>
      var stop := FirstMismatch(obj.value, nRow);
      (ok <==> stop == |nRow|) && out == Concat(obj.value[..stop])
  {
    out := [];
    if obj.None? {
      return true, out;
    }
    var arr := obj.value;
    if |arr| != |nRow| {
      return false, out;
    }
    var i := 0;
    while i < |arr|
      invariant 0 <= i <= |arr|
      invariant forall j :: 0 <= j < i ==> |arr[j]| == nRow[j]
      invariant out == Concat(arr[..i])
    {
      if |arr[i]| != nRow[i] {
        FirstMismatchIs(arr, nRow, i);
        return false, out;
      }
      assert arr[..i + 1][..i] == arr[..i];
      out := out + arr[i];
      i := i + 1;
    }
    assert arr[..i] == arr;
    FirstMismatchIs(arr, nRow, |arr|);
    return true, out;
  }

  /** The first mismatch is where the lengths first disagree. */
  lemma {:induction false} FirstMismatchIs(items: seq<seq<real>>, nRow: seq<int>, i: nat)
    requires |items| == |nRow| && i <= |items|
    requires forall j :: 0 <= j < i ==> |items[j]| == nRow[j]
    requires i < |items| ==> |items[i]| != nRow[i]
    ensures FirstMismatch(items, nRow) == i
    decreases i
  {
    if i > 0 {
      FirstMismatchIs(items[1..], nRow[1..], i - 1);
    }
  }

  /** On success the stacked vector is as long as the required counts together. */
  lemma StackVectorsLength(items: seq<seq<real>>, nRow: seq<int>)
    requires |items| == |nRow| && FirstMismatch(items, nRow) == |nRow|
    ensures |Concat(items)| == RowsBefore(nRow, |nRow|)
  {
    ConcatLength(items, nRow);
  }
}
