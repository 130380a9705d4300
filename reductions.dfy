/** Axis-aware reductions of nml::algmat: count, sum, min, max, argmin, argmax.
    Axis -1 reduces the whole matrix to a 1x1 result, axis 0 gives one value per
    column (a 1 x cols row) and axis 1 one value per row (a rows x 1 column). */
module Reductions {
  import opened Matrices
  import Structure

  predicate IsAxis(axis: int) {
    -1 <= axis <= 1
  }

  // ----- reductions of one line -----

  function SumSeq(s: seq<real>): real {
    if s == [] then 0.0 else SumSeq(s[..|s| - 1]) + s[|s| - 1]
  }

  function CountSeq(s: seq<real>, v: real): nat {
    if s == [] then 0 else CountSeq(s[..|s| - 1], v) + (if s[|s| - 1] == v then 1 else 0)
  }

  /** Counting a value gives its multiplicity in the line. */
  lemma {:induction false} CountIsMultiplicity(s: seq<real>, v: real)
    ensures CountSeq(s, v) == multiset(s)[v]
  {
    if s != [] {
      CountIsMultiplicity(s[..|s| - 1], v);
      assert s == s[..|s| - 1] + [s[|s| - 1]];
    }
  }

  /** k is the first position of a smallest element of s. */
  predicate IsFirstMin(s: seq<real>, k: int) {
    0 <= k < |s| && (forall j :: 0 <= j < |s| ==> s[k] <= s[j]) && (forall j :: 0 <= j < k ==> s[j] > s[k])
  }

  /** k is the first position of a largest element of s. */
  predicate IsFirstMax(s: seq<real>, k: int) {
    0 <= k < |s| && (forall j :: 0 <= j < |s| ==> s[k] >= s[j]) && (forall j :: 0 <= j < k ==> s[j] < s[k])
  }

  /** The position of the minimum, found by a left-to-right scan that only moves on a strictly smaller element. */
  function ArgMinSeq(s: seq<real>): (k: nat)
    requires |s| > 0
    ensures IsFirstMin(s, k)
  {
    if |s| == 1 then 0
    else
      var k := ArgMinSeq(s[..|s| - 1]);
      if s[|s| - 1] < s[k] then |s| - 1 else k
  }

  /** The position of the maximum, found by the same scan. */
  function ArgMaxSeq(s: seq<real>): (k: nat)
    requires |s| > 0
    ensures IsFirstMax(s, k)
  {
    if |s| == 1 then 0
    else
      var k := ArgMaxSeq(s[..|s| - 1]);
      if s[|s| - 1] > s[k] then |s| - 1 else k
  }

  /** x is an element of s and no element of s is smaller. */
  predicate IsMinOf(x: real, s: seq<real>) {
    x in s && forall k :: 0 <= k < |s| ==> x <= s[k]
  }

  /** x is an element of s and no element of s is larger. */
  predicate IsMaxOf(x: real, s: seq<real>) {
    x in s && forall k :: 0 <= k < |s| ==> x >= s[k]
  }

  /** x is a whole number naming the first position of the minimum of s. */
  predicate IsFirstMinAt(x: real, s: seq<real>) {
    x == x.Floor as real && IsFirstMin(s, x.Floor)
  }

  /** x is a whole number naming the first position of the maximum of s. */
  predicate IsFirstMaxAt(x: real, s: seq<real>) {
    x == x.Floor as real && IsFirstMax(s, x.Floor)
  }

  /** The minimum of a line; 0 for an empty line, which Min never reduces. */
  function MinSeq(s: seq<real>): (r: real)
    ensures s != [] ==> IsMinOf(r, s)
  {
    if s == [] then 0.0 else s[ArgMinSeq(s)]
  }

  function MaxSeq(s: seq<real>): (r: real)
    ensures s != [] ==> IsMaxOf(r, s)
  {
    if s == [] then 0.0 else s[ArgMaxSeq(s)]
  }

  function ArgMinLine(s: seq<real>): (r: real)
    ensures s != [] ==> IsFirstMinAt(r, s)
  {
    if s == [] then 0.0 else ArgMinSeq(s) as real
  }

  function ArgMaxLine(s: seq<real>): (r: real)
    ensures s != [] ==> IsFirstMaxAt(r, s)
  {
    if s == [] then 0.0 else ArgMaxSeq(s) as real
  }

  // ----- the axis layout shared by every reduction -----

  /** Applies f to the whole buffer (axis -1), to each column (axis 0) or to each row (axis 1). */
  function Reduce(m: Matrix, axis: int, f: seq<real> -> real): (r: Matrix)
    requires IsAxis(axis)
    ensures axis == -1 ==> r.rows == 1 && r.cols == 1 && At(r, 0, 0) == f(m.data)
    ensures axis == 0 ==>
      r.rows == 1 && r.cols == m.cols && forall j :: 0 <= j < m.cols ==> At(r, 0, j) == f(Col(m, j))
    ensures axis == 1 ==>
      r.rows == m.rows && r.cols == 1 && forall i :: 0 <= i < m.rows ==> At(r, i, 0) == f(Row(m, i))
  {
    if axis == -1 then Build(1, 1, (i: nat, j: nat) => f(m.data))
    else if axis == 0 then Build(1, m.cols, (i: nat, j: nat) => f(Col(m, j)))
    else Build(m.rows, 1, (i: nat, j: nat) => f(Row(m, i)))
  }

  lemma NonEmptyExtents(m: Matrix)
    requires !IsEmpty(m)
    ensures m.rows > 0 && m.cols > 0
  {
  }

  // ----- the public reductions -----

  /** count(val, axis): how many elements equal v, overall, per column or per row. */
  function Count(m: Matrix, v: real, axis: int := -1): (r: Result<Matrix>)
    ensures r.Ok? <==> IsAxis(axis)
    ensures r.Err? ==> r.error == IndexOutOfRange
    ensures r.Ok? && axis == -1 ==>
      r.value.rows == 1 && r.value.cols == 1 && At(r.value, 0, 0) == multiset(m.data)[v] as real
    ensures r.Ok? && axis == 0 ==>
      r.value.rows == 1 && r.value.cols == m.cols &&
      forall j :: 0 <= j < m.cols ==> At(r.value, 0, j) == multiset(Col(m, j))[v] as real
    ensures r.Ok? && axis == 1 ==>
      r.value.rows == m.rows && r.value.cols == 1 &&
      forall i :: 0 <= i < m.rows ==> At(r.value, i, 0) == multiset(Row(m, i))[v] as real
  {
    if !IsAxis(axis) then Err(IndexOutOfRange)
    else
      var r := Reduce(m, axis, (s: seq<real>) => CountSeq(s, v) as real);
      CountIsMultiplicity(m.data, v);
      assert forall s :: CountSeq(s, v) == multiset(s)[v] by {
        forall s { CountIsMultiplicity(s, v); }
      }
      Ok(r)
  }

  /** sum(mat, axis): the total, the column sums or the row sums. */
  function Sum(m: Matrix, axis: int := -1): (r: Result<Matrix>)
    ensures r.Ok? <==> IsAxis(axis)
    ensures r.Err? ==> r.error == IndexOutOfRange
    ensures r.Ok? && axis == -1 ==>
      r.value.rows == 1 && r.value.cols == 1 && At(r.value, 0, 0) == SumSeq(m.data)
    ensures r.Ok? && axis == 0 ==>
      r.value.rows == 1 && r.value.cols == m.cols &&
      forall j :: 0 <= j < m.cols ==> At(r.value, 0, j) == SumSeq(Col(m, j))
    ensures r.Ok? && axis == 1 ==>
      r.value.rows == m.rows && r.value.cols == 1 &&
      forall i :: 0 <= i < m.rows ==> At(r.value, i, 0) == SumSeq(Row(m, i))
  {
    if !IsAxis(axis) then Err(IndexOutOfRange) else Ok(Reduce(m, axis, SumSeq))
  }

  /** min(mat, axis): a smallest element overall, per column or per row. */
  function Min(m: Matrix, axis: int := -1): (r: Result<Matrix>)
    ensures r.Ok? <==> IsAxis(axis) && !IsEmpty(m)
    ensures r.Err? ==> r.error == if IsAxis(axis) then EmptyMatrix else IndexOutOfRange
    ensures r.Ok? && axis == -1 ==>
      r.value.rows == 1 && r.value.cols == 1 && IsMinOf(At(r.value, 0, 0), m.data)
    ensures r.Ok? && axis == 0 ==>
      r.value.rows == 1 && r.value.cols == m.cols &&
      forall j :: 0 <= j < m.cols ==> IsMinOf(At(r.value, 0, j), Col(m, j))
    ensures r.Ok? && axis == 1 ==>
      r.value.rows == m.rows && r.value.cols == 1 &&
      forall i :: 0 <= i < m.rows ==> IsMinOf(At(r.value, i, 0), Row(m, i))
  {
    if !IsAxis(axis) then Err(IndexOutOfRange)
    else if IsEmpty(m) then Err(EmptyMatrix)
    else
      NonEmptyExtents(m);
      Ok(Reduce(m, axis, MinSeq))
  }

  /** max(mat, axis): a largest element overall, per column or per row. */
  function Max(m: Matrix, axis: int := -1): (r: Result<Matrix>)
    ensures r.Ok? <==> IsAxis(axis) && !IsEmpty(m)
    ensures r.Err? ==> r.error == if IsAxis(axis) then EmptyMatrix else IndexOutOfRange
    ensures r.Ok? && axis == -1 ==>
      r.value.rows == 1 && r.value.cols == 1 && IsMaxOf(At(r.value, 0, 0), m.data)
    ensures r.Ok? && axis == 0 ==>
      r.value.rows == 1 && r.value.cols == m.cols &&
      forall j :: 0 <= j < m.cols ==> IsMaxOf(At(r.value, 0, j), Col(m, j))
    ensures r.Ok? && axis == 1 ==>
      r.value.rows == m.rows && r.value.cols == 1 &&
      forall i :: 0 <= i < m.rows ==> IsMaxOf(At(r.value, i, 0), Row(m, i))
  {
    if !IsAxis(axis) then Err(IndexOutOfRange)
    else if IsEmpty(m) then Err(EmptyMatrix)
    else
      NonEmptyExtents(m);
      Ok(Reduce(m, axis, MaxSeq))
  }

  /** argmin(mat, axis): the first position of the minimum: a row-major offset (axis -1),
      a row index per column (axis 0) or a column index per row (axis 1). */
  function ArgMin(m: Matrix, axis: int := -1): (r: Result<Matrix>)
    ensures r.Ok? <==> IsAxis(axis) && !IsEmpty(m)
    ensures r.Err? ==> r.error == if IsAxis(axis) then EmptyMatrix else IndexOutOfRange
    ensures r.Ok? && axis == -1 ==>
      r.value.rows == 1 && r.value.cols == 1 && IsFirstMinAt(At(r.value, 0, 0), m.data)
    ensures r.Ok? && axis == 0 ==>
      r.value.rows == 1 && r.value.cols == m.cols &&
      forall j :: 0 <= j < m.cols ==> IsFirstMinAt(At(r.value, 0, j), Col(m, j))
    ensures r.Ok? && axis == 1 ==>
      r.value.rows == m.rows && r.value.cols == 1 &&
      forall i :: 0 <= i < m.rows ==> IsFirstMinAt(At(r.value, i, 0), Row(m, i))
  {
    if !IsAxis(axis) then Err(IndexOutOfRange)
    else if IsEmpty(m) then Err(EmptyMatrix)
    else
      NonEmptyExtents(m);
      Ok(Reduce(m, axis, ArgMinLine))
  }

  /** argmax(mat, axis): the first position of the maximum, laid out as for ArgMin. */
  function ArgMax(m: Matrix, axis: int := -1): (r: Result<Matrix>)
    ensures r.Ok? <==> IsAxis(axis) && !IsEmpty(m)
    ensures r.Err? ==> r.error == if IsAxis(axis) then EmptyMatrix else IndexOutOfRange
    ensures r.Ok? && axis == -1 ==>
      r.value.rows == 1 && r.value.cols == 1 && IsFirstMaxAt(At(r.value, 0, 0), m.data)
    ensures r.Ok? && axis == 0 ==>
      r.value.rows == 1 && r.value.cols == m.cols &&
      forall j :: 0 <= j < m.cols ==> IsFirstMaxAt(At(r.value, 0, j), Col(m, j))
    ensures r.Ok? && axis == 1 ==>
      r.value.rows == m.rows && r.value.cols == 1 &&
      forall i :: 0 <= i < m.rows ==> IsFirstMaxAt(At(r.value, i, 0), Row(m, i))
  {
    if !IsAxis(axis) then Err(IndexOutOfRange)
    else if IsEmpty(m) then Err(EmptyMatrix)
    else
      NonEmptyExtents(m);
      Ok(Reduce(m, axis, ArgMaxLine))
  }

  // ----- sums over the three axes agree -----

  lemma {:induction false} SumConcat(a: seq<real>, b: seq<real>)
    ensures SumSeq(a + b) == SumSeq(a) + SumSeq(b)
    decreases |b|
  {
    if b != [] {
      var init := b[..|b| - 1];
      SumConcat(a, init);
      assert (a + b)[..|a + b| - 1] == a + init;
      assert SumSeq(a + b) == SumSeq(a + init) + b[|b| - 1];
    } else {
      assert a + b == a;
    }
  }

  lemma {:induction false} SumPointwise(a: seq<real>, b: seq<real>, c: seq<real>)
    requires |a| == |b| == |c|
    requires forall k :: 0 <= k < |c| ==> c[k] == a[k] + b[k]
    ensures SumSeq(c) == SumSeq(a) + SumSeq(b)
  {
    if c != [] {
      var n := |c| - 1;
      SumPointwise(a[..n], b[..n], c[..n]);
    }
  }

  lemma {:induction false} SumZeros(s: seq<real>)
    requires forall k :: 0 <= k < |s| ==> s[k] == 0.0
    ensures SumSeq(s) == 0.0
  {
    if s != [] {
      SumZeros(s[..|s| - 1]);
    }
  }

  /** The per-row sums and the per-column sums, as sequences. */
  function RowSums(m: Matrix): (s: seq<real>)
    ensures |s| == m.rows
  {
    seq(m.rows, i => SumSeq(Row(m, i)))
  }

  function ColSums(m: Matrix): (s: seq<real>)
    ensures |s| == m.cols
  {
    seq(m.cols, j => SumSeq(Col(m, j)))
  }

  /** The rows of the matrix without its last row are the first rows of the matrix. */
  lemma DropLastRowRows(m: Matrix, i: nat)
    requires 0 <= i < m.rows - 1
    ensures Row(Structure.DropRow(m, m.rows - 1), i) == Row(m, i)
  {
    assert Structure.Skip(m.rows - 1, i) == i;
  }

  /** The last row, selected on its own, is a one-row matrix whose buffer is that row. */
  lemma LastRowData(m: Matrix)
    requires m.rows > 0
    ensures Structure.Submat(m, m.rows - 1, 0).value.data == Row(m, m.rows - 1)
  {
    var last := Structure.Submat(m, m.rows - 1, 0).value;
    SingleRowData(last);
  }

  /** Stacking the last row back under the other rows rebuilds the matrix. */
  lemma RestackLastRow(m: Matrix)
    requires m.rows > 0
    ensures Structure.StackRows(Structure.DropRow(m, m.rows - 1), Structure.Submat(m, m.rows - 1, 0).value) == m
  {
    var p := Structure.DropRow(m, m.rows - 1);
    var last := Structure.Submat(m, m.rows - 1, 0).value;
    var stacked := Structure.StackRows(p, last);
    forall i | 0 <= i < m.rows
      ensures Row(stacked, i) == Row(m, i)
    {
      assert Row(stacked, i) == if i < p.rows then Row(p, i) else Row(last, i - p.rows);
      if i < p.rows {
        DropLastRowRows(m, i);
      }
    }
    RowExt(stacked, m);
  }

  /** Removing the last row splits the buffer into the remaining rows and that row. */
  lemma SplitLastRow(m: Matrix)
    requires m.rows > 0
    ensures m.data == Structure.DropRow(m, m.rows - 1).data + Row(m, m.rows - 1)
  {
    var p := Structure.DropRow(m, m.rows - 1);
    var last := Structure.Submat(m, m.rows - 1, 0).value;
    RestackLastRow(m);
    Structure.StackRowsData(p, last);
    LastRowData(m);
  }

  lemma RowSumsSplit(m: Matrix)
    requires m.rows > 0
    ensures RowSums(m) == RowSums(Structure.DropRow(m, m.rows - 1)) + [SumSeq(Row(m, m.rows - 1))]
  {
    var p := Structure.DropRow(m, m.rows - 1);
    forall i | 0 <= i < p.rows
      ensures RowSums(p)[i] == RowSums(m)[i]
    {
      DropLastRowRows(m, i);
    }
  }

  lemma ColSplit(m: Matrix, j: nat)
    requires m.rows > 0 && j < m.cols
    ensures Col(m, j) == Col(Structure.DropRow(m, m.rows - 1), j) + [Row(m, m.rows - 1)[j]]
  {
    var p := Structure.DropRow(m, m.rows - 1);
    forall i | 0 <= i < p.rows
      ensures Col(p, j)[i] == Col(m, j)[i]
    {
      DropLastRowRows(m, i);
      assert Row(p, i)[j] == Row(m, i)[j];
    }
  }

  /** The row sums add up to the total. */
  lemma {:induction false} RowSumsTotal(m: Matrix)
    ensures SumSeq(RowSums(m)) == SumSeq(m.data)
    decreases m.rows
  {
    if m.rows > 0 {
      var p := Structure.DropRow(m, m.rows - 1);
      var last := Row(m, m.rows - 1);
      RowSumsTotal(p);
      SplitLastRow(m);
      SumConcat(p.data, last);
      RowSumsSplit(m);
      assert SumSeq(RowSums(m)) == SumSeq(RowSums(p)) + SumSeq(last);
    }
  }

  /** The column sums add up to the total. */
  lemma {:induction false} ColSumsTotal(m: Matrix)
    ensures SumSeq(ColSums(m)) == SumSeq(m.data)
    decreases m.rows
  {
    if m.rows == 0 {
      SumZeros(ColSums(m));
    } else {
      var p := Structure.DropRow(m, m.rows - 1);
      var last := Row(m, m.rows - 1);
      ColSumsTotal(p);
      SplitLastRow(m);
      SumConcat(p.data, last);
      forall j | 0 <= j < m.cols
        ensures ColSums(m)[j] == ColSums(p)[j] + last[j]
      {
        ColSplit(m, j);
        assert Col(m, j)[..p.rows] == Col(p, j);
      }
      SumPointwise(ColSums(p), last, ColSums(m));
    }
  }

  /** sum along axis 0 and along axis 1, summed again, both give sum over the whole matrix. */
  lemma SumAxesAgree(m: Matrix)
    ensures SumSeq(Row(Sum(m, 0).value, 0)) == At(Sum(m, -1).value, 0, 0)
    ensures SumSeq(Col(Sum(m, 1).value, 0)) == At(Sum(m, -1).value, 0, 0)
  {
    ColSumsTotal(m);
    RowSumsTotal(m);
    assert Row(Sum(m, 0).value, 0) == ColSums(m);
    assert Col(Sum(m, 1).value, 0) == RowSums(m);
  }
}
