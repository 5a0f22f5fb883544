/** `Matrix.__getitem__`: `m[key]` and `m[row_key, col_key]`, where each key is
    an integer, a slice or a list of integers, resolved independently per axis.
    The result is always a new matrix, rebuilt through the constructor.

    GetItem follows the source branch by branch, on Python list semantics.
    Reference states the same behaviour by positions: which rows and columns
    each key designates, and which exception is raised instead. The theorem
    GetItemMatchesReference connects the two; the shape lemmas follow from it.
 */
module Indexing {
  import opened Wrappers
  import opened PyList
  import opened Matrices

  /** One key of a subscript. `Other` stands for any value that is not an
      integer, a slice or a list. */
  datatype Key =
    | Scalar(index: int)
    | Slice(start: Option<int>, stop: Option<int>, step: Option<int>)
    | IndexList(indices: seq<int>)
    | Other

  /** What is written between the brackets: a single key, or a tuple of keys. */
  datatype Subscript = Single(key: Key) | Tuple(keys: seq<Key>)

  // ---------------------------------------------------------------------------
  // Positions a key designates

  /** The positions along an axis of extent `n` that key `k` designates, in
      order: one position for a scalar, the positions of `range(n)[slice]` for
      a slice, and each entry normalised for a list. An out-of-range scalar or
      list entry is an IndexError, a zero slice step a ValueError, and any
      other key a TypeError. */
  function Resolve(k: Key, n: nat): (r: Result<seq<int>>)
    ensures r.Ok? ==> forall j :: 0 <= j < |r.value| ==> 0 <= r.value[j] < n
  {
    match k
    case Scalar(i) =>
      if InRange(i, n) then Ok([Wrap(i, n)]) else Err(IndexError)
    case Slice(a, b, st) =>
      SliceIndices(n, a, b, st)
    case IndexList(ks) =>
      if forall j :: 0 <= j < |ks| ==> InRange(ks[j], n) then
        Ok(seq(|ks|, j requires 0 <= j < |ks| => Wrap(ks[j], n)))
      else
        Err(IndexError)
    case Other =>
      Err(TypeError)
  }

  // ---------------------------------------------------------------------------
  // The source's evaluation, on Python list semantics

  /** `selected_rows` of the two-key form: `[data[k]]`, `data[k]` or
      `[data[i] for i in k]` by the kind of `k`, TypeError for any other key.
      These are exactly the rows at the positions Resolve designates, with
      Resolve's exception when it fails. */
  function SelectRows<T>(data: seq<seq<T>>, k: Key): (r: Result<seq<seq<T>>>)
    ensures Resolve(k, |data|).Err? ==> r == Err(Resolve(k, |data|).error)
    ensures Resolve(k, |data|).Ok? ==> r == Ok(Pick(data, Resolve(k, |data|).value))
  {
    match k
    case Scalar(i) =>
      var row :- At(data, i);
      assert [row] == Pick(data, [Wrap(i, |data|)]);
      Ok([row])
    case Slice(a, b, st) =>
      SliceOf(data, a, b, st)
    case IndexList(ks) =>
      var rows := Gather(data, ks);
      assert rows.Ok? ==> rows.value == Pick(data, Resolve(k, |data|).value);
      rows
    case Other =>
      Err(TypeError)
  }

  /** `[row[c] for row in sel]`: IndexError as soon as one row lacks column `c`. */
  function ProjectColumn<T>(sel: seq<seq<T>>, c: int): (r: Result<seq<T>>)
    ensures r.Ok? <==> forall i :: 0 <= i < |sel| ==> InRange(c, |sel[i]|)
    ensures r.Err? ==> r.error == IndexError
    ensures r.Ok? ==> |r.value| == |sel|
    ensures r.Ok? ==> forall i :: 0 <= i < |sel| ==> r.value[i] == sel[i][Wrap(c, |sel[i]|)]
  {
    MapAll(sel, row => At(row, c))
  }

  /** `[row[a:b:st] for row in sel]`: ValueError for a zero step, but only when
      there is a row to slice. */
  function SliceRows<T>(sel: seq<seq<T>>, a: Option<int>, b: Option<int>, st: Option<int>): (r: Result<seq<seq<T>>>)
    ensures r.Ok? <==> |sel| == 0 || st != Some(0)
    ensures r.Err? ==> r.error == ValueError
    ensures r.Ok? ==> |r.value| == |sel|
    ensures r.Ok? ==> forall i :: 0 <= i < |sel| ==> r.value[i] == SliceOf(sel[i], a, b, st).value
  {
    MapAll(sel, row => SliceOf(row, a, b, st))
  }

  /** `[[row[c] for c in cs] for row in sel]`: IndexError as soon as one row
      lacks one of the columns. */
  function GatherRows<T>(sel: seq<seq<T>>, cs: seq<int>): (r: Result<seq<seq<T>>>)
    ensures r.Ok? <==> forall i :: 0 <= i < |sel| ==> Gather(sel[i], cs).Ok?
    ensures r.Err? ==> r.error == IndexError
    ensures r.Ok? ==> |r.value| == |sel|
    ensures r.Ok? ==> forall i :: 0 <= i < |sel| ==> r.value[i] == Gather(sel[i], cs).value
  {
    MapAll(sel, row => Gather(row, cs))
  }

  /** The two-key form's column step on the selected rows, and the matrix it
      rebuilds through the constructor. A slice column key takes the column
      count from `sliced_cols[0]`, which raises IndexError when no row was
      selected. */
  function SelectColumns<T>(sel: seq<seq<T>>, k: Key): (r: Result<Matrix<T>>)
    ensures r.Ok? ==> Valid(r.value) && r.value.rows == |sel|
    ensures k.Other? ==> r == Err(TypeError)
  {
    match k
    case Scalar(c) =>
      var column :- ProjectColumn(sel, c);
      New(|sel|, 1, column)
    case Slice(a, b, st) =>
      var sliced :- SliceRows(sel, a, b, st);
      var first :- At(sliced, 0);
      New(|sel|, |first|, Flatten(sliced))
    case IndexList(cs) =>
      var picked :- GatherRows(sel, cs);
      New(|sel|, |cs|, Flatten(picked))
    case Other =>
      Err(TypeError)
  }

  /** `m[s]` as the source evaluates it. A tuple of two keys selects rows and
      then columns; a single key selects rows and keeps every column; a tuple
      of any other length and any other key raise TypeError. */
  function GetItem<T>(m: Matrix<T>, s: Subscript): (r: Result<Matrix<T>>)
    ensures r.Ok? ==> Valid(r.value)
    ensures r.Ok? && s.Single? ==> r.value.cols == m.cols
  {
    match s
    case Tuple(ks) =>
      if |ks| == 2 then
        var sel :- SelectRows(m.data, ks[0]);
        SelectColumns(sel, ks[1])
      else
        Err(TypeError)
    case Single(k) =>
      match k
      case Scalar(i) =>
        var row :- At(m.data, i);
        New(1, m.cols, row)
      case Slice(a, b, st) =>
        var sliced :- SliceOf(m.data, a, b, st);
        New(|sliced|, m.cols, Flatten(sliced))
      case IndexList(ks) =>
        var sel :- Gather(m.data, ks);
        New(|sel|, m.cols, Flatten(sel))
      case Other =>
        Err(TypeError)
  }

  // ---------------------------------------------------------------------------
  // The same behaviour stated by positions

  /** The matrix of the cells of `m` at rows `ri` and columns `ci`, in the
      orders given: cell `(i, j)` is `m.data[ri[i]][ci[j]]`. */
  function SubMatrix<T>(m: Matrix<T>, ri: seq<int>, ci: seq<int>): (r: Matrix<T>)
    requires Valid(m)
    requires forall i :: 0 <= i < |ri| ==> 0 <= ri[i] < m.rows
    requires forall j :: 0 <= j < |ci| ==> 0 <= ci[j] < m.cols
    ensures Valid(r) && r.rows == |ri| && r.cols == |ci|
    ensures forall i, j :: 0 <= i < |ri| && 0 <= j < |ci| ==> r.data[i][j] == m.data[ri[i]][ci[j]]
  {
    Matrix(|ri|, |ci|, seq(|ri|, i requires 0 <= i < |ri| => Pick(m.data[ri[i]], ci)))
  }

  /** The positions of all `n` columns, in order. */
  function AllColumns(n: nat): (r: seq<int>)
    ensures |r| == n
    ensures forall j :: 0 <= j < n ==> r[j] == j
  {
    seq(n, j => j)
  }

  /** The two-key result when the row key selected no row: the column key is
      then never applied to a row, so a scalar or list column key cannot fail,
      while a slice column key fails on `sliced_cols[0]`. */
  function EmptySelection<T>(k: Key): (r: Result<Matrix<T>>)
    ensures r.Ok? ==> Valid(r.value) && r.value.rows == 0
  {
    match k
    case Scalar(_) => Ok(Matrix(0, 1, []))
    case IndexList(cs) => Ok(Matrix(0, |cs|, []))
    case Slice(_, _, _) => Err(IndexError)
    case Other => Err(TypeError)
  }

  /** `m[s]` by positions: a single key keeps all columns of the rows it
      designates; a pair applies the row key first (its exception wins), then
      rejects a column key of another kind, then handles an empty row selection,
      and otherwise takes the cells at the designated rows and columns. */
  function Reference<T>(m: Matrix<T>, s: Subscript): (r: Result<Matrix<T>>)
    requires Valid(m)
    ensures r.Ok? ==> Valid(r.value)
  {
    match s
    case Single(k) =>
      var ri :- Resolve(k, m.rows);
      Ok(SubMatrix(m, ri, AllColumns(m.cols)))
    case Tuple(ks) =>
      if |ks| != 2 then Err(TypeError)
      else
        var ri :- Resolve(ks[0], m.rows);
        if ks[1].Other? then Err(TypeError)
        else if |ri| == 0 then EmptySelection(ks[1])
        else
          var ci :- Resolve(ks[1], m.cols);
          Ok(SubMatrix(m, ri, ci))
  }

  // ---------------------------------------------------------------------------
  // The source's evaluation agrees with the positional statement

  /** A rectangular grid rebuilt through the constructor from its flattening is itself. */
  lemma RebuildGrid<T>(g: seq<seq<T>>, w: nat)
    requires Rectangular(g, w)
    ensures New(|g|, w, Flatten(g)) == Ok(Matrix(|g|, w, g))
  {
    FlattenThenNew(Matrix(|g|, w, g));
  }

  /** A grid equal cell by cell to a sub-matrix is that sub-matrix's data. */
  lemma GridIsSubMatrix<T>(g: seq<seq<T>>, m: Matrix<T>, ri: seq<int>, ci: seq<int>)
    requires Valid(m)
    requires forall i :: 0 <= i < |ri| ==> 0 <= ri[i] < m.rows
    requires forall j :: 0 <= j < |ci| ==> 0 <= ci[j] < m.cols
    requires |g| == |ri| && Rectangular(g, |ci|)
    requires forall i, j :: 0 <= i < |ri| && 0 <= j < |ci| ==> g[i][j] == m.data[ri[i]][ci[j]]
    ensures Matrix(|g|, |ci|, g) == SubMatrix(m, ri, ci)
  {
    GridExtensionality(g, SubMatrix(m, ri, ci).data, |ci|);
  }

  /** `[row[c] for row in sel]` is the flattening of the one-column grid it describes. */
  lemma {:induction false} FlattenSingletons<T>(xs: seq<T>)
    ensures Flatten(seq(|xs|, i requires 0 <= i < |xs| => [xs[i]])) == xs
  {
    var g := seq(|xs|, i requires 0 <= i < |xs| => [xs[i]]);
    if |xs| > 0 {
      FlattenSingletons(xs[1..]);
      assert g[1..] == seq(|xs[1..]|, i requires 0 <= i < |xs[1..]| => [xs[1..][i]]);
      assert xs == [xs[0]] + xs[1..];
    }
  }

  /** The scalar column step agrees with Reference. */
  lemma ScalarColumnAgrees<T>(m: Matrix<T>, ri: seq<int>, c: int)
    requires Valid(m) && forall i :: 0 <= i < |ri| ==> 0 <= ri[i] < m.rows
    ensures |ri| == 0 ==> SelectColumns(Pick(m.data, ri), Scalar(c)) == EmptySelection(Scalar(c))
    ensures |ri| > 0 && Resolve(Scalar(c), m.cols).Err? ==>
      SelectColumns(Pick(m.data, ri), Scalar(c)) == Err(IndexError)
    ensures |ri| > 0 && Resolve(Scalar(c), m.cols).Ok? ==>
      SelectColumns(Pick(m.data, ri), Scalar(c)) == Ok(SubMatrix(m, ri, Resolve(Scalar(c), m.cols).value))
  {
    var sel := Pick(m.data, ri);
    var col := ProjectColumn(sel, c);
    if |ri| == 0 {
      assert Chunk<T>([], 0, 1) == [];
    } else if InRange(c, m.cols) {
      var g := seq(|sel|, i requires 0 <= i < |sel| => [col.value[i]]);
      FlattenSingletons(col.value);
      RebuildGrid(g, 1);
      GridIsSubMatrix(g, m, ri, [Wrap(c, m.cols)]);
    } else {
      assert !InRange(c, |sel[0]|);
    }
  }

  /** Slicing each selected row picks the same column positions from it. */
  lemma SlicedRowsArePicks<T>(m: Matrix<T>, ri: seq<int>, a: Option<int>, b: Option<int>, st: Option<int>)
    requires Valid(m) && forall i :: 0 <= i < |ri| ==> 0 <= ri[i] < m.rows
    requires st != Some(0)
    ensures SliceRows(Pick(m.data, ri), a, b, st).Ok? && SliceIndices(m.cols, a, b, st).Ok?
    ensures forall i :: 0 <= i < |ri| ==>
      SliceRows(Pick(m.data, ri), a, b, st).value[i] == Pick(Pick(m.data, ri)[i], SliceIndices(m.cols, a, b, st).value)
  {
  }

  /** With at least one selected row and a nonzero step, the slice column
      step slices every row at the same positions. */
  lemma SliceColumnSelected<T>(m: Matrix<T>, ri: seq<int>, a: Option<int>, b: Option<int>, st: Option<int>)
    requires Valid(m) && forall i :: 0 <= i < |ri| ==> 0 <= ri[i] < m.rows
    requires |ri| > 0 && st != Some(0)
    ensures SliceIndices(m.cols, a, b, st).Ok?
    ensures SelectColumns(Pick(m.data, ri), Slice(a, b, st)) == Ok(SubMatrix(m, ri, SliceIndices(m.cols, a, b, st).value))
  {
    var sel := Pick(m.data, ri);
    var sliced := SliceRows(sel, a, b, st).value;
    var ci := SliceIndices(m.cols, a, b, st).value;
    SlicedRowsArePicks(m, ri, a, b, st);
    assert At(sliced, 0) == Ok(sliced[0]);
    assert |sliced[0]| == |ci|;
    assert Rectangular(sliced, |ci|);
    assert SelectColumns(sel, Slice(a, b, st)) == New(|sel|, |ci|, Flatten(sliced));
    RebuildGrid(sliced, |ci|);
    GridIsSubMatrix(sliced, m, ri, ci);
  }

  /** The slice column step agrees with Reference. */
  lemma SliceColumnAgrees<T>(m: Matrix<T>, ri: seq<int>, a: Option<int>, b: Option<int>, st: Option<int>)
    requires Valid(m) && forall i :: 0 <= i < |ri| ==> 0 <= ri[i] < m.rows
    ensures |ri| == 0 ==> SelectColumns(Pick(m.data, ri), Slice(a, b, st)) == EmptySelection(Slice(a, b, st))
    ensures |ri| > 0 && Resolve(Slice(a, b, st), m.cols).Err? ==>
      SelectColumns(Pick(m.data, ri), Slice(a, b, st)) == Err(Resolve(Slice(a, b, st), m.cols).error)
    ensures |ri| > 0 && Resolve(Slice(a, b, st), m.cols).Ok? ==>
      SelectColumns(Pick(m.data, ri), Slice(a, b, st)) == Ok(SubMatrix(m, ri, Resolve(Slice(a, b, st), m.cols).value))
  {
    if |ri| > 0 && st != Some(0) {
      SliceColumnSelected(m, ri, a, b, st);
    }
  }

  /** With at least one selected row and every listed column in range, the
      list column step gathers the same columns from every row. */
  lemma ListColumnSelected<T>(m: Matrix<T>, ri: seq<int>, cs: seq<int>)
    requires Valid(m) && forall i :: 0 <= i < |ri| ==> 0 <= ri[i] < m.rows
    requires |ri| > 0 && Resolve(IndexList(cs), m.cols).Ok?
    ensures SelectColumns(Pick(m.data, ri), IndexList(cs)) == Ok(SubMatrix(m, ri, Resolve(IndexList(cs), m.cols).value))
  {
    var sel := Pick(m.data, ri);
    var ci := Resolve(IndexList(cs), m.cols).value;
    var sub := SubMatrix(m, ri, ci);
    forall i | 0 <= i < |sel|
      ensures Gather(sel[i], cs) == Ok(sub.data[i])
    {
      assert |sel[i]| == m.cols;
      assert forall j :: 0 <= j < |cs| ==> InRange(cs[j], m.cols);
      assert Gather(sel[i], cs).Ok?;
      var row := Gather(sel[i], cs).value;
      assert |row| == |sub.data[i]|;
      assert forall j :: 0 <= j < |cs| ==> row[j] == sub.data[i][j];
      assert row == sub.data[i];
    }
    var gr := GatherRows(sel, cs);
    assert gr.Ok?;
    assert |gr.value| == |sub.data|;
    assert forall i :: 0 <= i < |sel| ==> gr.value[i] == sub.data[i];
    assert gr.value == sub.data;
    RebuildGrid(sub.data, |cs|);
  }

  /** The list column step agrees with Reference. */
  lemma ListColumnAgrees<T>(m: Matrix<T>, ri: seq<int>, cs: seq<int>)
    requires Valid(m) && forall i :: 0 <= i < |ri| ==> 0 <= ri[i] < m.rows
    ensures |ri| == 0 ==> SelectColumns(Pick(m.data, ri), IndexList(cs)) == EmptySelection(IndexList(cs))
    ensures |ri| > 0 && Resolve(IndexList(cs), m.cols).Err? ==>
      SelectColumns(Pick(m.data, ri), IndexList(cs)) == Err(IndexError)
    ensures |ri| > 0 && Resolve(IndexList(cs), m.cols).Ok? ==>
      SelectColumns(Pick(m.data, ri), IndexList(cs)) == Ok(SubMatrix(m, ri, Resolve(IndexList(cs), m.cols).value))
  {
    var sel := Pick(m.data, ri);
    if |ri| == 0 {
      assert Chunk<T>([], 0, |cs|) == [];
    } else if Resolve(IndexList(cs), m.cols).Ok? {
      ListColumnSelected(m, ri, cs);
    } else {
      assert |sel[0]| == m.cols;
      assert Gather(sel[0], cs).Err?;
    }
  }

  /** The single-key form keeps all columns of the rows SelectRows picks:
      the result is rebuilt from exactly those rows. */
  lemma OneKeyAgrees<T>(m: Matrix<T>, k: Key)
    requires Valid(m)
    ensures SelectRows(m.data, k).Err? ==> GetItem(m, Single(k)) == Err(SelectRows(m.data, k).error)
    ensures SelectRows(m.data, k).Ok? ==>
      GetItem(m, Single(k)) == Ok(Matrix(|SelectRows(m.data, k).value|, m.cols, SelectRows(m.data, k).value))
  {
    var sr := SelectRows(m.data, k);
    if sr.Ok? {
      var sel := sr.value;
      assert Rectangular(sel, m.cols) by {
        var ri := Resolve(k, m.rows).value;
        assert sel == Pick(m.data, ri);
      }
      RebuildGrid(sel, m.cols);
      if k.Scalar? {
        assert Flatten(sel) == sel[0];
      }
    }
  }

  /** The rows SelectRows picks, with all columns, are the sub-matrix at the designated rows. */
  lemma AllColumnsSubMatrix<T>(m: Matrix<T>, ri: seq<int>)
    requires Valid(m) && forall i :: 0 <= i < |ri| ==> 0 <= ri[i] < m.rows
    ensures Matrix(|ri|, m.cols, Pick(m.data, ri)) == SubMatrix(m, ri, AllColumns(m.cols))
  {
    GridIsSubMatrix(Pick(m.data, ri), m, ri, AllColumns(m.cols));
  }

  /** The source's evaluation of `m[s]` is the positional statement, for every
      subscript: the same matrix on success, the same exception otherwise. */
  lemma GetItemMatchesReference<T>(m: Matrix<T>, s: Subscript)
    requires Valid(m)
    ensures GetItem(m, s) == Reference(m, s)
  {
    match s
    case Single(k) =>
      OneKeyAgrees(m, k);
      if Resolve(k, m.rows).Ok? {
        AllColumnsSubMatrix(m, Resolve(k, m.rows).value);
      }
    case Tuple(ks) =>
      if |ks| == 2 && Resolve(ks[0], m.rows).Ok? {
        var ri := Resolve(ks[0], m.rows).value;
        match ks[1]
        case Scalar(c) => ScalarColumnAgrees(m, ri, c);
        case Slice(a, b, st) => SliceColumnAgrees(m, ri, a, b, st);
        case IndexList(cs) => ListColumnAgrees(m, ri, cs);
        case Other =>
      }
  }
}
