/** What `m[...]` promises its callers, derived from GetItemMatchesReference:
    shapes per key kind, order and repetition of list keys, the exceptions and
    when each is raised, and that every result is again a well-formed matrix.
 */
module IndexingFacts {
  import opened Wrappers
  import opened PyList
  import opened Matrices
  import opened Indexing

  /** A slice key with an explicit zero step. */
  predicate ZeroStep(k: Key) {
    k.Slice? && k.step == Some(0)
  }

  /** Every successful `m[s]` is a well-formed matrix: as many rows as it says,
      each with as many elements as it says. */
  lemma ResultIsValid<T>(m: Matrix<T>, s: Subscript)
    requires Valid(m)
    ensures GetItem(m, s).Ok? ==> Valid(GetItem(m, s).value)
  {
  }

  /** The constructor's length check never fires inside `m[s]`: the only
      ValueError is Python's for a zero slice step, and it is raised exactly
      when a zero-step slice is actually applied (a single key; the row key; or
      the column key once at least one row was selected). */
  lemma ValueErrorOnlyFromZeroStep<T>(m: Matrix<T>, s: Subscript)
    requires Valid(m)
    ensures GetItem(m, s) == Err(ValueError) <==>
      || (s.Single? && ZeroStep(s.key))
      || (s.Tuple? && |s.keys| == 2 &&
          (|| ZeroStep(s.keys[0])
           || (Resolve(s.keys[0], m.rows).Ok? && |Resolve(s.keys[0], m.rows).value| > 0 && ZeroStep(s.keys[1]))))
  {
    GetItemMatchesReference(m, s);
  }

  /** TypeError is raised exactly for: a single key of another kind, a tuple
      whose length is not 2, a row key of another kind, or a column key of
      another kind once the row key was resolved. */
  lemma TypeErrorCases<T>(m: Matrix<T>, s: Subscript)
    requires Valid(m)
    ensures GetItem(m, s) == Err(TypeError) <==>
      || s == Single(Other)
      || (s.Tuple? && |s.keys| != 2)
      || (s.Tuple? && |s.keys| == 2 &&
          (s.keys[0].Other? || (s.keys[1].Other? && Resolve(s.keys[0], m.rows).Ok?)))
  {
  }

  /** `m[row_key, c]` for an integer `c`: one column, one row per selected row,
      row `i` holding column `c` of the `i`-th selected row. Column `c` is only
      checked against a selected row, so with no row selected any `c` gives an
      empty one-column matrix. */
  lemma ScalarColumnShape<T>(m: Matrix<T>, rk: Key, c: int)
    requires Valid(m)
    ensures SelectRows(m.data, rk).Err? ==>
      GetItem(m, Tuple([rk, Scalar(c)])) == Err(SelectRows(m.data, rk).error)
    ensures SelectRows(m.data, rk).Ok? && |SelectRows(m.data, rk).value| > 0 && !InRange(c, m.cols) ==>
      GetItem(m, Tuple([rk, Scalar(c)])) == Err(IndexError)
    ensures var sr := SelectRows(m.data, rk);
      sr.Ok? && (|sr.value| == 0 || InRange(c, m.cols)) ==>
        var r := GetItem(m, Tuple([rk, Scalar(c)]));
        && r.Ok? && r.value.rows == |sr.value| && r.value.cols == 1
        && forall i :: 0 <= i < |sr.value| ==> r.value.data[i] == [sr.value[i][Wrap(c, m.cols)]]
  {
    GetItemMatchesReference(m, Tuple([rk, Scalar(c)]));
    var sr := SelectRows(m.data, rk);
    if sr.Ok? && |sr.value| > 0 && InRange(c, m.cols) {
      var r := GetItem(m, Tuple([rk, Scalar(c)])).value;
      forall i | 0 <= i < |sr.value|
        ensures r.data[i] == [sr.value[i][Wrap(c, m.cols)]]
      {
        assert |r.data[i]| == 1;
      }
    }
  }

  /** `m[row_key, a:b:st]`: every selected row is sliced the same way, so the
      result has one row per selected row and `len(range(cols)[a:b:st])`
      columns; with no row selected, `sliced_cols[0]` raises IndexError. */
  lemma SliceColumnShape<T>(m: Matrix<T>, rk: Key, a: Option<int>, b: Option<int>, st: Option<int>)
    requires Valid(m)
    ensures SelectRows(m.data, rk).Err? ==>
      GetItem(m, Tuple([rk, Slice(a, b, st)])) == Err(SelectRows(m.data, rk).error)
    ensures SelectRows(m.data, rk).Ok? && |SelectRows(m.data, rk).value| == 0 ==>
      GetItem(m, Tuple([rk, Slice(a, b, st)])) == Err(IndexError)
    ensures SelectRows(m.data, rk).Ok? && |SelectRows(m.data, rk).value| > 0 && st == Some(0) ==>
      GetItem(m, Tuple([rk, Slice(a, b, st)])) == Err(ValueError)
    ensures var sr := SelectRows(m.data, rk);
      sr.Ok? && |sr.value| > 0 && st != Some(0) ==>
        var r := GetItem(m, Tuple([rk, Slice(a, b, st)]));
        && r.Ok? && r.value.rows == |sr.value|
        && r.value.cols == |SliceIndices(m.cols, a, b, st).value|
        && forall i :: 0 <= i < |sr.value| ==> r.value.data[i] == SliceOf(sr.value[i], a, b, st).value
  {
    GetItemMatchesReference(m, Tuple([rk, Slice(a, b, st)]));
    var sr := SelectRows(m.data, rk);
    if sr.Ok? && |sr.value| > 0 && st != Some(0) {
      var ri := Resolve(rk, m.rows).value;
      var ci := SliceIndices(m.cols, a, b, st).value;
      var r := GetItem(m, Tuple([rk, Slice(a, b, st)])).value;
      forall i | 0 <= i < |sr.value|
        ensures r.data[i] == SliceOf(sr.value[i], a, b, st).value
      {
        assert |sr.value[i]| == m.cols;
        assert |r.data[i]| == |ci|;
      }
    }
  }

  /** `m[[r0, r1, ...]]`: IndexError as soon as one entry is out of range;
      otherwise one result row per entry, in the order given and with
      repetitions kept, row `i` being the matrix's row `rs[i]`. */
  lemma ListRowsKeepOrder<T>(m: Matrix<T>, rs: seq<int>)
    requires Valid(m)
    ensures GetItem(m, Single(IndexList(rs))).Ok? <==> forall j :: 0 <= j < |rs| ==> InRange(rs[j], m.rows)
    ensures GetItem(m, Single(IndexList(rs))).Err? ==> GetItem(m, Single(IndexList(rs))).error == IndexError
    ensures var r := GetItem(m, Single(IndexList(rs)));
      r.Ok? ==>
        && r.value.rows == |rs| && r.value.cols == m.cols
        && forall i :: 0 <= i < |rs| ==> r.value.data[i] == m.data[Wrap(rs[i], m.rows)]
  {
    OneKeyAgrees(m, IndexList(rs));
  }

  /** The sub-matrix at two resolved lists has cell `(i, j)` at row `rs[i]` and column `cs[j]`. */
  lemma ListCells<T>(m: Matrix<T>, rs: seq<int>, cs: seq<int>)
    requires Valid(m) && Resolve(IndexList(rs), m.rows).Ok? && Resolve(IndexList(cs), m.cols).Ok?
    ensures var sub := SubMatrix(m, Resolve(IndexList(rs), m.rows).value, Resolve(IndexList(cs), m.cols).value);
      && sub.rows == |rs| && sub.cols == |cs|
      && forall i, j :: 0 <= i < |rs| && 0 <= j < |cs| ==>
           sub.data[i][j] == m.data[Wrap(rs[i], m.rows)][Wrap(cs[j], m.cols)]
  {
  }

  /** `m[[r0, ...], [c0, ...]]`: a `len(rs)` by `len(cs)` matrix whose cell
      `(i, j)` is the matrix's cell `(rs[i], cs[j])`, orders and repetitions
      kept; IndexError when a row entry is out of range, or a column entry is
      and some row was selected. */
  lemma ListKeysKeepOrder<T>(m: Matrix<T>, rs: seq<int>, cs: seq<int>)
    requires Valid(m)
    ensures GetItem(m, Tuple([IndexList(rs), IndexList(cs)])).Ok? <==>
      && (forall j :: 0 <= j < |rs| ==> InRange(rs[j], m.rows))
      && (|rs| == 0 || forall j :: 0 <= j < |cs| ==> InRange(cs[j], m.cols))
    ensures GetItem(m, Tuple([IndexList(rs), IndexList(cs)])).Err? ==>
      GetItem(m, Tuple([IndexList(rs), IndexList(cs)])).error == IndexError
    ensures var r := GetItem(m, Tuple([IndexList(rs), IndexList(cs)]));
      r.Ok? ==>
        && r.value.rows == |rs| && r.value.cols == |cs|
        && forall i, j :: 0 <= i < |rs| && 0 <= j < |cs| ==>
             r.value.data[i][j] == m.data[Wrap(rs[i], m.rows)][Wrap(cs[j], m.cols)]
  {
    var s := Tuple([IndexList(rs), IndexList(cs)]);
    GetItemMatchesReference(m, s);
    var rr := Resolve(IndexList(rs), m.rows);
    if rr.Ok? {
      if |rs| == 0 {
        assert Reference(m, s) == Ok(Matrix(0, |cs|, []));
      } else {
        var rc := Resolve(IndexList(cs), m.cols);
        if rc.Ok? {
          assert Reference(m, s) == Ok(SubMatrix(m, rr.value, rc.value));
          ListCells(m, rs, cs);
        } else {
          assert Reference(m, s) == Err(IndexError);
        }
      }
    } else {
      assert Reference(m, s) == Err(IndexError);
    }
  }

  /** The single-key forms keep every column: `m[k]` succeeds exactly when the
      rows can be selected, with the selection's exception otherwise, and its
      rows are the selected rows, so its row-major flattening is theirs. An
      integer selects one row, a slice `len(data[k])` rows, a list one row per
      entry. */
  lemma OneKeyShape<T>(m: Matrix<T>, k: Key)
    requires Valid(m)
    ensures GetItem(m, Single(k)).Ok? <==> SelectRows(m.data, k).Ok?
    ensures SelectRows(m.data, k).Err? ==> GetItem(m, Single(k)).error == SelectRows(m.data, k).error
    ensures var r, sr := GetItem(m, Single(k)), SelectRows(m.data, k);
      r.Ok? ==>
        && r.value.rows == |sr.value| && r.value.cols == m.cols
        && r.value.data == sr.value
        && Flatten(r.value.data) == Flatten(sr.value)
    ensures GetItem(m, Single(k)).Ok? && k.Scalar? ==>
      GetItem(m, Single(k)).value.rows == 1 && GetItem(m, Single(k)).value.data == [m.data[Wrap(k.index, m.rows)]]
    ensures GetItem(m, Single(k)).Ok? && k.Slice? ==>
      GetItem(m, Single(k)).value.rows == |SliceOf(m.data, k.start, k.stop, k.step).value|
    ensures GetItem(m, Single(k)).Ok? && k.IndexList? ==>
      GetItem(m, Single(k)).value.rows == |k.indices|
  {
    OneKeyAgrees(m, k);
  }

  /** Two integer keys select a single cell, always as a 1 by 1 matrix. */
  lemma CellIsOneByOne<T>(m: Matrix<T>, r: int, c: int)
    requires Valid(m)
    ensures GetItem(m, Tuple([Scalar(r), Scalar(c)])).Ok? <==> InRange(r, m.rows) && InRange(c, m.cols)
    ensures GetItem(m, Tuple([Scalar(r), Scalar(c)])).Err? ==>
      GetItem(m, Tuple([Scalar(r), Scalar(c)])).error == IndexError
    ensures GetItem(m, Tuple([Scalar(r), Scalar(c)])).Ok? ==>
      GetItem(m, Tuple([Scalar(r), Scalar(c)])).value ==
        Matrix(1, 1, [[m.data[Wrap(r, m.rows)][Wrap(c, m.cols)]]])
  {
  }

  /** Selecting rows with `a:b`, for `0 <= a <= b <= len(data)`, takes the rows `a` to `b - 1`. */
  lemma UnitSliceSelectsRun<T>(data: seq<seq<T>>, a: nat, b: nat)
    requires a <= b <= |data|
    ensures SelectRows(data, Slice(Some(a), Some(b), None)) == Ok(data[a..b])
  {
    UnitSliceIsSegment(data, Some(a), Some(b), None);
    assert UnitBound(Some(a), |data|, 0) == a && UnitBound(Some(b), |data|, |data|) == b;
  }

  /** `m[a:b]` with `0 <= a <= b <= rows` is the half-open run of rows `a` to `b - 1`. */
  lemma UnitSliceRows<T>(m: Matrix<T>, a: nat, b: nat)
    requires Valid(m) && a <= b <= m.rows
    ensures GetItem(m, Single(Slice(Some(a), Some(b), None))) == Ok(Matrix(b - a, m.cols, m.data[a..b]))
  {
    UnitSliceSelectsRun(m.data, a, b);
    OneKeyAgrees(m, Slice(Some(a), Some(b), None));
    assert |m.data[a..b]| == b - a;
  }
}
