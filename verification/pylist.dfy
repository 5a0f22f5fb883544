/** The Python list operations the matrix code relies on, written out explicitly:
    subscripting with an integer (negative values count from the end), slicing
    with `slice.indices` semantics (defaults, wrap-around, clamping, any nonzero
    step), and list comprehensions whose element expression may raise.
 */
module PyList {
  import opened Wrappers
  import opened Arith

  /** `k` is a valid subscript of a list of length `n`: `-n <= k < n`. */
  predicate InRange(k: int, n: int) {
    -n <= k < n
  }

  /** The position a valid subscript `k` denotes in a list of length `n`. */
  function Wrap(k: int, n: nat): (i: nat)
    requires InRange(k, n)
    ensures i < n
    ensures i == k || i == k + n
  {
    if k < 0 then k + n else k
  }

  /** `xs[k]` for an integer `k`: the element, or IndexError when `k` is out of range. */
  function At<T>(xs: seq<T>, k: int): (r: Result<T>)
    ensures r.Ok? <==> InRange(k, |xs|)
    ensures r.Err? ==> r.error == IndexError
    ensures r.Ok? && 0 <= k ==> r.value == xs[k]
    ensures r.Ok? && k < 0 ==> r.value == xs[|xs| + k]
  {
    if InRange(k, |xs|) then Ok(xs[Wrap(k, |xs|)]) else Err(IndexError)
  }

  /** A list comprehension `[f(x) for x in xs]` whose element expression may raise:
      elements are evaluated left to right and the first exception escapes. */
  function MapAll<A, B>(xs: seq<A>, f: A -> Result<B>): (r: Result<seq<B>>)
    ensures r.Ok? <==> forall j :: 0 <= j < |xs| ==> f(xs[j]).Ok?
    ensures r.Ok? ==> |r.value| == |xs|
    ensures r.Ok? ==> forall j :: 0 <= j < |xs| ==> r.value[j] == f(xs[j]).value
    ensures r.Err? ==>
      exists j :: 0 <= j < |xs| && f(xs[j]) == Err(r.error) && forall i :: 0 <= i < j ==> f(xs[i]).Ok?
  {
    if |xs| == 0 then Ok([])
    else
      var y :- f(xs[0]);
      var ys :- MapAll(xs[1..], f);
      Ok([y] + ys)
  }

  /** `[xs[k] for k in ks]`: order and repetitions of `ks` are kept; any
      out-of-range entry raises IndexError. */
  function Gather<T>(xs: seq<T>, ks: seq<int>): (r: Result<seq<T>>)
    ensures r.Ok? <==> forall j :: 0 <= j < |ks| ==> InRange(ks[j], |xs|)
    ensures r.Err? ==> r.error == IndexError
    ensures r.Ok? ==> |r.value| == |ks|
    ensures r.Ok? ==> forall j :: 0 <= j < |ks| ==> r.value[j] == xs[Wrap(ks[j], |xs|)]
  {
    MapAll(ks, k => At(xs, k))
  }

  /** One given slice bound adjusted to a list of length `n`, as CPython does it:
      a negative bound counts from the end, and a bound still outside the list is
      pulled to the nearest position the traversal direction can use. */
  function AdjustBound(v: int, n: nat, step: int): (b: int)
    ensures step > 0 ==> 0 <= b <= n
    ensures step < 0 ==> -1 <= b <= n - 1
    ensures InRange(v, n) ==> b == Wrap(v, n)
    ensures v + n < 0 ==> b == (if step < 0 then -1 else 0)
    ensures v >= n ==> b == (if step < 0 then n - 1 else n)
  {
    if v < 0 then
      if v + n < 0 then (if step < 0 then -1 else 0) else v + n
    else if v >= n then (if step < 0 then n - 1 else n)
    else v
  }

  /** The normalised triple `slice.indices` produces. */
  datatype Bounds = Bounds(start: int, stop: int, step: int)

  /** `slice(start, stop, step).indices(n)`: ValueError for a zero step; otherwise
      the default (omitted) step is 1, omitted bounds are the two ends in the
      direction of the step, and given bounds are adjusted by AdjustBound. */
  function Indices(n: nat, start: Option<int>, stop: Option<int>, step: Option<int>): (r: Result<Bounds>)
    ensures r.Err? <==> step == Some(0)
    ensures r.Err? ==> r.error == ValueError
    ensures r.Ok? ==> r.value.step == step.GetOr(1) != 0
    ensures r.Ok? && r.value.step > 0 ==> 0 <= r.value.start <= n && 0 <= r.value.stop <= n
    ensures r.Ok? && r.value.step < 0 ==> -1 <= r.value.start <= n - 1 && -1 <= r.value.stop <= n - 1
    ensures r.Ok? ==> r.value.start == (if start.Some? then AdjustBound(start.value, n, r.value.step)
                                        else if r.value.step < 0 then n - 1 else 0)
    ensures r.Ok? ==> r.value.stop == (if stop.Some? then AdjustBound(stop.value, n, r.value.step)
                                       else if r.value.step < 0 then -1 else n)
  {
    var st := step.GetOr(1);
    if st == 0 then Err(ValueError)
    else
      var lo := match start
        case None => (if st < 0 then n - 1 else 0)
        case Some(a) => AdjustBound(a, n, st);
      var hi := match stop
        case None => (if st < 0 then -1 else n)
        case Some(b) => AdjustBound(b, n, st);
      Ok(Bounds(lo, hi, st))
  }

  /** `range(lo, hi, step)`: the arithmetic progression from `lo` by `step`,
      stopping before it reaches or passes `hi`. */
  function Range(lo: int, hi: int, step: int): (r: seq<int>)
    requires step != 0
    ensures forall j :: 0 <= j < |r| ==> r[j] == lo + j * step
    ensures step > 0 ==> forall j :: 0 <= j < |r| ==> lo <= r[j] < hi
    ensures step < 0 ==> forall j :: 0 <= j < |r| ==> hi < r[j] <= lo
    ensures step > 0 ==> hi <= lo + |r| * step
    ensures step < 0 ==> lo + |r| * step <= hi
    ensures step > 0 ==> forall i, j :: 0 <= i < j < |r| ==> r[i] < r[j]
    ensures step < 0 ==> forall i, j :: 0 <= i < j < |r| ==> r[i] > r[j]
    decreases if step > 0 then hi - lo else lo - hi
  {
    if (step > 0 && lo < hi) || (step < 0 && lo > hi) then
      var rest := Range(lo + step, hi, step);
      var r := [lo] + rest;
      forall j | 0 < j < |r|
        ensures r[j] == lo + j * step
      {
        assert r[j] == rest[j - 1];
        MulSucc(j - 1, step);
      }
      MulSucc(|rest|, step);
      r
    else
      []
  }

  /** The positions `range(n)[slice(start, stop, step)]` selects from a list of
      length `n`, in order: ValueError for a zero step, otherwise every position
      is inside the list, ascending for a positive step and descending for a
      negative one. */
  function SliceIndices(n: nat, start: Option<int>, stop: Option<int>, step: Option<int>): (r: Result<seq<int>>)
    ensures r.Err? <==> step == Some(0)
    ensures r.Err? ==> r.error == ValueError
    ensures r.Ok? ==> forall j :: 0 <= j < |r.value| ==> 0 <= r.value[j] < n
    ensures r.Ok? && step.GetOr(1) > 0 ==> forall i, j :: 0 <= i < j < |r.value| ==> r.value[i] < r.value[j]
    ensures r.Ok? && step.GetOr(1) < 0 ==> forall i, j :: 0 <= i < j < |r.value| ==> r.value[i] > r.value[j]
  {
    var b :- Indices(n, start, stop, step);
    Ok(Range(b.start, b.stop, b.step))
  }

  /** The elements of `xs` at the positions `idx`, in the order of `idx`. */
  function Pick<T>(xs: seq<T>, idx: seq<int>): (r: seq<T>)
    requires forall j :: 0 <= j < |idx| ==> 0 <= idx[j] < |xs|
    ensures |r| == |idx|
    ensures forall j :: 0 <= j < |idx| ==> r[j] == xs[idx[j]]
  {
    seq(|idx|, j requires 0 <= j < |idx| => xs[idx[j]])
  }

  /** `xs[start:stop:step]`: ValueError for a zero step, otherwise the elements at
      the positions SliceIndices selects. */
  function SliceOf<T>(xs: seq<T>, start: Option<int>, stop: Option<int>, step: Option<int>): (r: Result<seq<T>>)
    ensures r.Err? <==> step == Some(0)
    ensures r.Err? ==> r.error == ValueError
    ensures r.Ok? ==> SliceIndices(|xs|, start, stop, step).Ok?
    ensures r.Ok? ==> r.value == Pick(xs, SliceIndices(|xs|, start, stop, step).value)
  {
    var idx :- SliceIndices(|xs|, start, stop, step);
    Ok(Pick(xs, idx))
  }

  /** A bound of a unit-step slice clamped into `[0, n]`; an omitted bound is `default`. */
  function UnitBound(v: Option<int>, n: nat, default: nat): (b: nat)
    requires default <= n
    ensures b <= n
  {
    match v
    case None => default
    case Some(a) => if a < 0 then (if a + n < 0 then 0 else a + n) else if a > n then n else a
  }

  /** A bound of a negative-step slice clamped into `[-1, n - 1]`; an omitted bound is `default`. */
  function DownBound(v: Option<int>, n: nat, default: int): (b: int)
    requires -1 <= default <= n - 1
    ensures -1 <= b <= n - 1
  {
    match v
    case None => default
    case Some(a) => if a < 0 then (if a + n < 0 then -1 else a + n) else if a >= n then n - 1 else a
  }

  /** A slice with a positive step selects `range(lo, hi, step)` for the bounds
      clamped into `[0, n]`, an omitted start being 0 and an omitted stop `n`. */
  lemma PosStepSlice(n: nat, start: Option<int>, stop: Option<int>, step: Option<int>)
    requires step.GetOr(1) > 0
    ensures SliceIndices(n, start, stop, step) == Ok(Range(UnitBound(start, n, 0), UnitBound(stop, n, n), step.GetOr(1)))
  {
  }

  /** A slice with a negative step selects `range(lo, hi, step)` for the bounds
      clamped into `[-1, n - 1]`, an omitted start being `n - 1` and an omitted
      stop -1 (before the first element). */
  lemma NegStepSlice(n: nat, start: Option<int>, stop: Option<int>, step: Option<int>)
    requires step.GetOr(1) < 0
    ensures SliceIndices(n, start, stop, step) == Ok(Range(DownBound(start, n, n - 1), DownBound(stop, n, -1), step.GetOr(1)))
  {
  }

  /** `range(lo, hi)` with `lo <= hi` is the run `lo, lo + 1, ..., hi - 1`. */
  lemma RangeUnit(lo: int, hi: int)
    requires lo <= hi
    ensures |Range(lo, hi, 1)| == hi - lo
    ensures forall j :: 0 <= j < hi - lo ==> Range(lo, hi, 1)[j] == lo + j
  {
    var r := Range(lo, hi, 1);
    if |r| > 0 {
      assert r[|r| - 1] == lo + (|r| - 1) * 1;
    }
  }

  /** With step 1 (given or omitted), `slice.indices` gives the clamped bounds. */
  lemma UnitIndices(n: nat, start: Option<int>, stop: Option<int>, step: Option<int>)
    requires step == None || step == Some(1)
    ensures Indices(n, start, stop, step) == Ok(Bounds(UnitBound(start, n, 0), UnitBound(stop, n, n), 1))
  {
  }

  /** Picking the run `lo, ..., hi - 1` is the segment `xs[lo..hi]`. */
  lemma PickRun<T>(xs: seq<T>, lo: nat, hi: nat)
    requires lo <= hi <= |xs|
    ensures forall j :: 0 <= j < |Range(lo, hi, 1)| ==> 0 <= Range(lo, hi, 1)[j] < |xs|
    ensures Pick(xs, Range(lo, hi, 1)) == xs[lo..hi]
  {
    RangeUnit(lo, hi);
    var p := Pick(xs, Range(lo, hi, 1));
    assert |p| == hi - lo;
    assert forall j :: 0 <= j < hi - lo ==> p[j] == xs[lo..hi][j];
  }

  /** With step 1 (given or omitted), a Python slice is the contiguous half-open
      segment between the clamped bounds, and empty when they cross. */
  lemma UnitSliceIsSegment<T>(xs: seq<T>, start: Option<int>, stop: Option<int>, step: Option<int>)
    requires step == None || step == Some(1)
    ensures var lo, hi := UnitBound(start, |xs|, 0), UnitBound(stop, |xs|, |xs|);
      SliceOf(xs, start, stop, step) == Ok(if lo <= hi then xs[lo..hi] else [])
  {
    var lo, hi := UnitBound(start, |xs|, 0), UnitBound(stop, |xs|, |xs|);
    UnitIndices(|xs|, start, stop, step);
    assert SliceIndices(|xs|, start, stop, step) == Ok(Range(lo, hi, 1));
    if lo <= hi {
      PickRun(xs, lo, hi);
    } else {
      assert Range(lo, hi, 1) == [];
    }
  }
}
