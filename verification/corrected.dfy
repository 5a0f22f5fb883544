/** The two-key form with a slice column key reads the column count off the
    first sliced row, so when the row key selects no row, `m[k, :]` raises
    IndexError where `m[k]` returns an empty matrix. This module exhibits the
    discrepancy on the evaluation as written and gives a corrected evaluation
    that takes the column count from the slice itself.
 */
module Corrected {
  import opened Wrappers
  import opened PyList
  import opened Matrices
  import opened Indexing

  /** The full slice `:`. */
  function Full(): Key {
    Slice(None, None, None)
  }

  /** As written: selecting no row and all columns raises IndexError, while
      selecting the same (no) rows with the single-key form succeeds. */
  lemma EmptyRowsFullColumns<T>(m: Matrix<T>)
    requires Valid(m)
    ensures GetItem(m, Tuple([IndexList([]), Full()])) == Err(IndexError)
    ensures GetItem(m, Single(IndexList([]))) == Ok(Matrix(0, m.cols, []))
  {
  }

  /** The corrected column step: a slice column key has as many columns as
      `range(cols)[slice]` has elements, whether or not a row was selected.
      The other key kinds are evaluated as written. */
  function SelectColumnsFixed<T>(sel: seq<seq<T>>, cols: nat, k: Key): Result<Matrix<T>> {
    match k
    case Slice(a, b, st) =>
      var sliced :- SliceRows(sel, a, b, st);
      var idx :- SliceIndices(cols, a, b, st);
      New(|sel|, |idx|, Flatten(sliced))
    case _ =>
      SelectColumns(sel, k)
  }

  /** The corrected `m[s]`: the two-key form uses SelectColumnsFixed, every
      other form is evaluated as written. */
  function GetItemFixed<T>(m: Matrix<T>, s: Subscript): Result<Matrix<T>> {
    match s
    case Tuple(ks) =>
      if |ks| == 2 then
        var sel :- SelectRows(m.data, ks[0]);
        SelectColumnsFixed(sel, m.cols, ks[1])
      else
        Err(TypeError)
    case Single(_) =>
      GetItem(m, s)
  }

  /** The full slice designates every position, in order. */
  lemma FullSliceIsAll(n: nat)
    ensures SliceIndices(n, None, None, None) == Ok(AllColumns(n))
  {
    assert Indices(n, None, None, None) == Ok(Bounds(0, n, 1));
    RangeUnit(0, n);
    assert Range(0, n, 1) == AllColumns(n);
  }

  /** Once a row is selected the corrected evaluation is the original one. */
  lemma FixedAgreesOnSelection<T>(m: Matrix<T>, rk: Key, ck: Key)
    requires Valid(m)
    requires SelectRows(m.data, rk).Ok? ==> |SelectRows(m.data, rk).value| > 0
    ensures GetItemFixed(m, Tuple([rk, ck])) == GetItem(m, Tuple([rk, ck]))
  {
  }

  /** With no row selected, the corrected slice column step gives an empty
      matrix with `len(range(cols)[slice])` columns, or ValueError for a zero
      step. */
  lemma FixedEmptySelection<T>(m: Matrix<T>, rk: Key, a: Option<int>, b: Option<int>, st: Option<int>)
    requires Valid(m)
    requires SelectRows(m.data, rk) == Ok([])
    ensures st == Some(0) ==> GetItemFixed(m, Tuple([rk, Slice(a, b, st)])) == Err(ValueError)
    ensures st != Some(0) ==>
      GetItemFixed(m, Tuple([rk, Slice(a, b, st)])) == Ok(Matrix(0, |SliceIndices(m.cols, a, b, st).value|, []))
  {
  }

  /** Corrected: selecting all columns explicitly is the single-key form, for
      every row key. */
  lemma FixedFullColumnsIsOneKey<T>(m: Matrix<T>, k: Key)
    requires Valid(m)
    ensures GetItemFixed(m, Tuple([k, Full()])) == GetItemFixed(m, Single(k))
  {
    GetItemMatchesReference(m, Single(k));
    var sr := SelectRows(m.data, k);
    if sr.Ok? {
      var ri := Resolve(k, m.rows).value;
      FullSliceIsAll(m.cols);
      if |ri| == 0 {
        FixedEmptySelection(m, k, None, None, None);
        assert SubMatrix(m, ri, AllColumns(m.cols)).data == [];
      } else {
        FixedAgreesOnSelection(m, k, Full());
        GetItemMatchesReference(m, Tuple([k, Full()]));
      }
    }
  }
}
