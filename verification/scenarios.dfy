/** Concrete uses of the matrix on the 3 by 3 matrix of 1 to 9. */
module Scenarios {
  import opened Wrappers
  import opened PyList
  import opened Matrices
  import opened Indexing

  /** `Matrix(3, 3, [1, ..., 9])`, row by row. */
  function Nine(): Matrix<int> {
    Matrix(3, 3, [[1, 2, 3], [4, 5, 6], [7, 8, 9]])
  }

  /** The constructor splits the nine values into three rows of three, and
      rejects eight values for a 3 by 3 shape. */
  lemma ConstructNine()
    ensures New(3, 3, [1, 2, 3, 4, 5, 6, 7, 8, 9]) == Ok(Nine())
    ensures New(3, 3, [1, 2, 3, 4, 5, 6, 7, 8]) == Err(ValueError)
  {
    FlattenThenNew(Nine());
    assert Flatten(Nine().data) == [1, 2, 3, 4, 5, 6, 7, 8, 9];
  }

  /** The positional statement of `m[[0, 2], 1]`: rows 0 and 2 at column 1. */
  lemma ListRowsScalarColumnReference()
    ensures Reference(Nine(), Tuple([IndexList([0, 2]), Scalar(1)])) == Ok(Matrix(2, 1, [[2], [8]]))
  {
    var ri := Resolve(IndexList([0, 2]), 3).value;
    assert ri == [0, 2];
    GridIsSubMatrix([[2], [8]], Nine(), [0, 2], [1]);
  }

  /** `m[[0, 2], 1] == Matrix(2, 1, [2, 8])`. */
  lemma ListRowsScalarColumn()
    ensures GetItem(Nine(), Tuple([IndexList([0, 2]), Scalar(1)])) == New(2, 1, [2, 8])
  {
    GetItemMatchesReference(Nine(), Tuple([IndexList([0, 2]), Scalar(1)]));
    ListRowsScalarColumnReference();
    FlattenThenNew(Matrix(2, 1, [[2], [8]]));
    assert Flatten([[2], [8]]) == [2, 8];
  }

  /** On an axis of extent 3 the slice `0:2` designates positions 0 and 1. */
  lemma SliceZeroTwo()
    ensures Resolve(Slice(Some(0), Some(2), None), 3) == Ok([0, 1])
  {
    assert Indices(3, Some(0), Some(2), None) == Ok(Bounds(0, 2, 1));
    RangeUnit(0, 2);
    assert Range(0, 2, 1) == [0, 1];
  }

  /** `Matrix(2, 2, [1, 2, 4, 5])` has rows `[1, 2]` and `[4, 5]`. */
  lemma ConstructTopLeft()
    ensures New(2, 2, [1, 2, 4, 5]) == Ok(Matrix(2, 2, [[1, 2], [4, 5]]))
  {
    FlattenThenNew(Matrix(2, 2, [[1, 2], [4, 5]]));
    assert Flatten([[1, 2], [4, 5]]) == [1, 2, 4, 5];
  }

  /** The positional statement of `m[0:2, 0:2]`: rows 0 and 1, columns 0 and 1. */
  lemma TopLeftReference()
    ensures Reference(Nine(), Tuple([Slice(Some(0), Some(2), None), Slice(Some(0), Some(2), None)]))
         == Ok(Matrix(2, 2, [[1, 2], [4, 5]]))
  {
    SliceZeroTwo();
    GridIsSubMatrix([[1, 2], [4, 5]], Nine(), [0, 1], [0, 1]);
  }

  /** `m[0:2, 0:2] == Matrix(2, 2, [1, 2, 4, 5])`. */
  lemma SliceRowsSliceColumns()
    ensures GetItem(Nine(), Tuple([Slice(Some(0), Some(2), None), Slice(Some(0), Some(2), None)]))
         == New(2, 2, [1, 2, 4, 5])
  {
    GetItemMatchesReference(Nine(), Tuple([Slice(Some(0), Some(2), None), Slice(Some(0), Some(2), None)]));
    TopLeftReference();
    ConstructTopLeft();
  }

  /** The positional statement of `m[[2, 0, 2]]`: rows 2, 0 and 2 with every column. */
  lemma RepeatedRowsReference()
    ensures Reference(Nine(), Single(IndexList([2, 0, 2]))) ==
      Ok(Matrix(3, 3, [[7, 8, 9], [1, 2, 3], [7, 8, 9]]))
  {
    var ri := Resolve(IndexList([2, 0, 2]), 3).value;
    assert ri == [2, 0, 2];
    RangeUnit(0, 3);
    GridIsSubMatrix([[7, 8, 9], [1, 2, 3], [7, 8, 9]], Nine(), [2, 0, 2], AllColumns(3));
  }

  /** `m[[2, 0, 2]]` has three rows, the first and the last being row 2. */
  lemma RepeatedRows()
    ensures GetItem(Nine(), Single(IndexList([2, 0, 2]))) ==
      Ok(Matrix(3, 3, [[7, 8, 9], [1, 2, 3], [7, 8, 9]]))
  {
    GetItemMatchesReference(Nine(), Single(IndexList([2, 0, 2])));
    RepeatedRowsReference();
  }

  /** A negative step walks backwards from the end: `[0, 1, 2, 3, 4][::-2] == [4, 2, 0]`. */
  lemma EveryOtherReversed()
    ensures SliceOf([0, 1, 2, 3, 4], None, None, Some(-2)) == Ok([4, 2, 0])
  {
    NegStepSlice(5, None, None, Some(-2));
    var r := Range(4, -1, -2);
    assert |r| == 3;
    assert r == [4, 2, 0];
    assert Pick([0, 1, 2, 3, 4], r) == [4, 2, 0];
  }

  /** `m[10]` on three rows raises IndexError; `m[-1]` is the last row. */
  lemma ScalarRowBounds()
    ensures GetItem(Nine(), Single(Scalar(10))) == Err(IndexError)
    ensures GetItem(Nine(), Single(Scalar(-1))) == Ok(Matrix(1, 3, [[7, 8, 9]]))
  {
    OneKeyAgrees(Nine(), Scalar(-1));
  }
}
