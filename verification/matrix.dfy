/** The matrix itself: the row-major grid the constructor builds from a flat
    list, the check that the list fits the requested shape, and the two
    conversions between `(row, col)` coordinates and flat row-major offsets.
 */
module Matrices {
  import opened Wrappers
  import opened Arith

  /** A matrix of `rows` by `cols` elements stored as a list of rows. */
  datatype Matrix<T> = Matrix(rows: nat, cols: nat, data: seq<seq<T>>)

  /** Every row of `g` has exactly `w` elements. */
  predicate Rectangular<T>(g: seq<seq<T>>, w: nat) {
    forall r :: 0 <= r < |g| ==> |g[r]| == w
  }

  /** The shape invariant every constructed matrix keeps: `rows` rows of `cols` elements. */
  predicate Valid<T>(m: Matrix<T>) {
    |m.data| == m.rows && Rectangular(m.data, m.cols)
  }

  /** The row-major flattening `[item for row in g for item in row]`. */
  function Flatten<T>(g: seq<seq<T>>): (f: seq<T>)
    ensures |f| == 0 <==> forall r :: 0 <= r < |g| ==> |g[r]| == 0
    ensures forall r :: 0 <= r < |g| ==> |g[r]| <= |f|
  {
    if |g| == 0 then [] else g[0] + Flatten(g[1..])
  }

  /** The row-major offset of cell `(r, c)` in rows of width `w`. */
  function Offset(r: int, w: int, c: int): int {
    r * w + c
  }

  /** A grid of rows of width `w` flattens to `|g| * w` elements. */
  lemma {:induction false} FlattenLength<T>(g: seq<seq<T>>, w: nat)
    requires Rectangular(g, w)
    ensures |Flatten(g)| == |g| * w
  {
    if |g| > 0 {
      FlattenLength(g[1..], w);
      MulSucc(|g| - 1, w);
    }
  }

  /** Flattening a grid of rows of width `w` puts cell `(r, c)` at offset `r * w + c`. */
  lemma {:induction false} FlattenCell<T>(g: seq<seq<T>>, w: nat, r: nat, c: nat)
    requires Rectangular(g, w) && r < |g| && c < w
    ensures 0 <= Offset(r, w, c) < |Flatten(g)|
    ensures Flatten(g)[Offset(r, w, c)] == g[r][c]
  {
    FlattenLength(g, w);
    var tail := g[1..];
    assert Flatten(g) == g[0] + Flatten(tail);
    if r == 0 {
      assert Offset(r, w, c) == c;
    } else {
      FlattenCell(tail, w, r - 1, c);
      MulSucc(r - 1, w);
      assert Offset(r, w, c) == w + Offset(r - 1, w, c);
    }
  }

  /** FlattenLength and FlattenCell for all cells at once. */
  lemma FlattenRectangular<T>(g: seq<seq<T>>, w: nat)
    requires Rectangular(g, w)
    ensures |Flatten(g)| == |g| * w
    ensures forall r, c :: 0 <= r < |g| && 0 <= c < w ==>
      0 <= Offset(r, w, c) < |Flatten(g)| && Flatten(g)[Offset(r, w, c)] == g[r][c]
  {
    FlattenLength(g, w);
    forall r, c | 0 <= r < |g| && 0 <= c < w
      ensures 0 <= Offset(r, w, c) < |Flatten(g)| && Flatten(g)[Offset(r, w, c)] == g[r][c]
    {
      FlattenCell(g, w, r, c);
    }
  }

  /** Cell `(r, c)` of a grid of `rows` rows of width `w` has an offset inside the flat list,
      and row `r` ends inside it. */
  lemma CellOffsetBound(r: nat, rows: nat, w: nat, c: nat)
    requires r < rows && c < w
    ensures 0 <= r * w
    ensures 0 <= Offset(r, w, c) < rows * w
    ensures (r + 1) * w <= rows * w
  {
    MulSucc(r, w);
    MulMono(r + 1, rows, w);
  }

  /** Row `i` of the constructor's chunking: the slice `flat[i * cols:(i + 1) * cols]`. */
  function ChunkRow<T>(flat: seq<T>, rows: nat, cols: nat, i: nat): (row: seq<T>)
    requires |flat| == rows * cols && i < rows
    ensures |row| == cols
    ensures forall c :: 0 <= c < cols ==> 0 <= Offset(i, cols, c) < |flat| && row[c] == flat[Offset(i, cols, c)]
  {
    MulSucc(i, cols);
    MulMono(i + 1, rows, cols);
    flat[i * cols..(i + 1) * cols]
  }

  /** The constructor's row chunking `[flat[i * cols:(i + 1) * cols] for i in range(rows)]`. */
  function Chunk<T>(flat: seq<T>, rows: nat, cols: nat): (g: seq<seq<T>>)
    requires |flat| == rows * cols
    ensures |g| == rows && Rectangular(g, cols)
    ensures forall r, c :: 0 <= r < rows && 0 <= c < cols ==>
      0 <= Offset(r, cols, c) < |flat| && g[r][c] == flat[Offset(r, cols, c)]
  {
    var g := seq(rows, i requires 0 <= i < rows => ChunkRow(flat, rows, cols, i));
    assert forall r, c :: 0 <= r < rows && 0 <= c < cols ==>
      0 <= Offset(r, cols, c) < |flat| && g[r][c] == flat[Offset(r, cols, c)]
    by {
      forall r, c | 0 <= r < rows && 0 <= c < cols
        ensures 0 <= Offset(r, cols, c) < |flat| && g[r][c] == flat[Offset(r, cols, c)]
      {
        var row := ChunkRow(flat, rows, cols, r);
        assert g[r] == row;
        assert row[c] == flat[Offset(r, cols, c)];
      }
    }
    g
  }

  /** `Matrix(rows, cols, flat)`: ValueError exactly when the flat list does not
      hold `rows * cols` elements; otherwise a matrix of that shape whose element
      `(i, j)` is the flat list's element at row-major offset `i * cols + j`. */
  function New<T>(rows: nat, cols: nat, flat: seq<T>): (r: Result<Matrix<T>>)
    ensures r.Err? <==> |flat| != rows * cols
    ensures r.Err? ==> r.error == ValueError
    ensures r.Ok? ==> Valid(r.value) && r.value.rows == rows && r.value.cols == cols
    ensures r.Ok? ==>
      forall i, j :: 0 <= i < rows && 0 <= j < cols ==>
        0 <= Offset(i, cols, j) < |flat| && r.value.data[i][j] == flat[Offset(i, cols, j)]
  {
    if |flat| != rows * cols then Err(ValueError)
    else
      var g := Chunk(flat, rows, cols);
      var m := Matrix(rows, cols, g);
      assert m.data == g;
      Ok(m)
  }

  /** Two grids of the same height whose rows agree element by element are equal. */
  lemma GridExtensionality<T>(g: seq<seq<T>>, h: seq<seq<T>>, w: nat)
    requires |g| == |h| && Rectangular(g, w) && Rectangular(h, w)
    requires forall i, j :: 0 <= i < |g| && 0 <= j < w ==> g[i][j] == h[i][j]
    ensures g == h
  {
    forall i | 0 <= i < |g|
      ensures g[i] == h[i]
    {
      assert |g[i]| == |h[i]| == w;
    }
  }

  /** Round trip one way: the rows a successful construction builds flatten back to the input list. */
  lemma NewThenFlatten<T>(rows: nat, cols: nat, flat: seq<T>)
    requires |flat| == rows * cols
    ensures New(rows, cols, flat).Ok?
    ensures Flatten(New(rows, cols, flat).value.data) == flat
  {
    var m := New(rows, cols, flat).value;
    FlattenRectangular(m.data, cols);
    var f := Flatten(m.data);
    forall k | 0 <= k < |flat|
      ensures f[k] == flat[k]
    {
      assert cols > 0;
      var i, j := k / cols, k % cols;
      DivSplit(k, cols);
      MulCancel(i, rows, cols);
      assert k == Offset(i, cols, j);
      assert f[Offset(i, cols, j)] == m.data[i][j];
    }
  }

  /** Round trip the other way: rebuilding a valid matrix from its row-major
      flattening and its shape gives back the same matrix. */
  lemma FlattenThenNew<T>(m: Matrix<T>)
    requires Valid(m)
    ensures New(m.rows, m.cols, Flatten(m.data)) == Ok(m)
  {
    FlattenRectangular(m.data, m.cols);
    var n := New(m.rows, m.cols, Flatten(m.data)).value;
    GridExtensionality(n.data, m.data, m.cols);
  }

  /** `conv_rc2i(r, c)`: IndexError unless `r` is a row and `c` a column of the
      matrix; otherwise an offset inside `[0, rows * cols)` at which the
      row-major flattening holds element `(r, c)`. */
  function RowColToIndex<T>(m: Matrix<T>, r: int, c: int): (res: Result<int>)
    ensures res.Ok? <==> 0 <= r < m.rows && 0 <= c < m.cols
    ensures res.Err? ==> res.error == IndexError
    ensures res.Ok? ==> 0 <= res.value < m.rows * m.cols
    ensures res.Ok? && Valid(m) ==>
      res.value < |Flatten(m.data)| && Flatten(m.data)[res.value] == m.data[r][c]
  {
    if r < 0 || r >= m.rows || c < 0 || c >= m.cols then Err(IndexError)
    else
      CellOffsetBound(r, m.rows, m.cols, c);
      if Valid(m) then
        FlattenCell(m.data, m.cols, r, c);
        Ok(Offset(r, m.cols, c))
      else
        Ok(Offset(r, m.cols, c))
  }

  /** `conv_i2rc(i)`: IndexError unless `0 <= i < rows * cols`; otherwise the
      coordinates of a cell of the matrix whose row-major offset is `i`. The
      division never sees `cols == 0`, since then no `i` is in range. */
  function IndexToRowCol<T>(m: Matrix<T>, i: int): (res: Result<(int, int)>)
    ensures res.Ok? <==> 0 <= i < m.rows * m.cols
    ensures res.Err? ==> res.error == IndexError
    ensures res.Ok? ==> 0 <= res.value.0 < m.rows && 0 <= res.value.1 < m.cols
    ensures res.Ok? ==> Offset(res.value.0, m.cols, res.value.1) == i
  {
    if i < 0 || i >= m.rows * m.cols then Err(IndexError)
    else
      assert m.cols != 0;
      var q, s := i / m.cols, i % m.cols;
      DivSplit(i, m.cols);
      assert q < m.rows by {
        MulCancel(q, m.rows, m.cols);
      }
      Ok((q, s))
  }

  /** The coordinates of a cell are determined by its row-major offset. */
  lemma OffsetDeterminesCell(cols: nat, r: int, c: int, r': int, c': int)
    requires 0 <= c < cols && 0 <= c' < cols
    requires Offset(r, cols, c) == Offset(r', cols, c')
    ensures r == r' && c == c'
  {
    if r < r' {
      MulSucc(r, cols);
      MulMono(r + 1, r', cols);
    } else if r > r' {
      MulSucc(r', cols);
      MulMono(r' + 1, r, cols);
    }
  }

  /** `conv_i2rc(conv_rc2i(r, c)) == (r, c)` for every cell of the matrix. */
  lemma {:induction false} RowColRoundTrip<T>(m: Matrix<T>, r: int, c: int)
    requires 0 <= r < m.rows && 0 <= c < m.cols
    ensures RowColToIndex(m, r, c).Ok?
    ensures IndexToRowCol(m, RowColToIndex(m, r, c).value) == Ok((r, c))
  {
    var i := RowColToIndex(m, r, c).value;
    var rc := IndexToRowCol(m, i).value;
    OffsetDeterminesCell(m.cols, r, c, rc.0, rc.1);
  }

  /** `conv_rc2i(*conv_i2rc(i)) == i` for every offset in `[0, rows * cols)`. */
  lemma {:induction false} IndexRoundTrip<T>(m: Matrix<T>, i: int)
    requires 0 <= i < m.rows * m.cols
    ensures IndexToRowCol(m, i).Ok?
    ensures RowColToIndex(m, IndexToRowCol(m, i).value.0, IndexToRowCol(m, i).value.1) == Ok(i)
  {
  }
}
