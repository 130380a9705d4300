/** What sort(desc, axis) of nml::algmat produces: every row (axis 1), every column
    (axis 0) or the whole buffer (axis -1) put in ascending or descending order. */
module Sorting {
  import opened Matrices

  /** a may come before b: a <= b ascending, a >= b descending. */
  predicate InOrder(a: real, b: real, desc: bool) {
    if desc then a >= b else a <= b
  }

  predicate Sorted(s: seq<real>, desc: bool) {
    forall i, j :: 0 <= i < j < |s| ==> InOrder(s[i], s[j], desc)
  }

  /** x put into its place in the sorted line s. */
  function Insert(x: real, s: seq<real>, desc: bool): (r: seq<real>)
    requires Sorted(s, desc)
    ensures Sorted(r, desc) && multiset(r) == multiset(s) + multiset{x}
  {
    if s == [] then [x]
    else if InOrder(x, s[0], desc) then [x] + s
    else
      var t := Insert(x, s[1..], desc);
      assert s == [s[0]] + s[1..];
      InsertStep(x, s, t, desc);
      [s[0]] + t
  }

  /** Placing the head of s before the insertion into its tail keeps the order. */
  lemma InsertStep(x: real, s: seq<real>, t: seq<real>, desc: bool)
    requires s != [] && Sorted(s, desc) && !InOrder(x, s[0], desc)
    requires Sorted(t, desc) && multiset(t) == multiset(s[1..]) + multiset{x}
    ensures Sorted([s[0]] + t, desc)
  {
    forall k | 0 <= k < |t|
      ensures InOrder(s[0], t[k], desc)
    {
      assert t[k] in multiset(t);
      if t[k] != x {
        assert t[k] in multiset(s[1..]);
        var i :| 0 <= i < |s[1..]| && s[1..][i] == t[k];
        assert s[i + 1] == t[k];
      }
    }
    var r := [s[0]] + t;
    forall i, j | 0 <= i < j < |r|
      ensures InOrder(r[i], r[j], desc)
    {
      if i > 0 {
        assert r[i] == t[i - 1] && r[j] == t[j - 1];
      }
    }
  }

  /** Insertion sort of a line. */
  function SortSeq(s: seq<real>, desc: bool): (r: seq<real>)
    ensures Sorted(r, desc) && multiset(r) == multiset(s)
  {
    if s == [] then []
    else
      assert s == [s[0]] + s[1..];
      Insert(s[0], SortSeq(s[1..], desc), desc)
  }

  lemma SortedLength(s: seq<real>, desc: bool)
    ensures |SortSeq(s, desc)| == |s|
  {
    assert |multiset(SortSeq(s, desc))| == |multiset(s)|;
  }

  /** The head of a sorted line comes before every element of the line. */
  lemma HeadFirst(a: seq<real>, y: real, desc: bool)
    requires Sorted(a, desc) && y in a
    ensures InOrder(a[0], y, desc)
  {
    var i :| 0 <= i < |a| && a[i] == y;
    if i > 0 {
      assert InOrder(a[0], a[i], desc);
    }
  }

  lemma TailMultiset(a: seq<real>)
    requires a != []
    ensures multiset(a[1..]) == multiset(a) - multiset{a[0]}
  {
    assert a == [a[0]] + a[1..];
  }

  /** Two sorted lines holding the same elements are equal: the outcome of a sort does
      not depend on the algorithm or on how ties are broken. */
  lemma {:induction false} SortedUnique(a: seq<real>, b: seq<real>, desc: bool)
    requires Sorted(a, desc) && Sorted(b, desc) && multiset(a) == multiset(b)
    ensures a == b
    decreases |a|
  {
    assert |a| == |multiset(a)| == |multiset(b)| == |b|;
    if a != [] {
      assert a[0] in multiset(b) && b[0] in multiset(a);
      HeadFirst(b, a[0], desc);
      HeadFirst(a, b[0], desc);
      TailMultiset(a);
      TailMultiset(b);
      SortedUnique(a[1..], b[1..], desc);
      assert a == [a[0]] + a[1..] && b == [b[0]] + b[1..];
    }
  }

  /** Every row sorted (hsort). */
  function SortRows(m: Matrix, desc: bool): (r: Matrix)
    ensures r.rows == m.rows && r.cols == m.cols
    ensures forall i :: 0 <= i < m.rows ==> Row(r, i) == SortSeq(Row(m, i), desc)
  {
    var r := Build(m.rows, m.cols, (i: nat, j: nat) =>
      var s := SortSeq(Row(m, i), desc); if j < |s| then s[j] else 0.0);
    forall i | 0 <= i < m.rows
      ensures Row(r, i) == SortSeq(Row(m, i), desc)
    {
      SortedLength(Row(m, i), desc);
    }
    r
  }

  /** Every column sorted (vsort). */
  function SortCols(m: Matrix, desc: bool): (r: Matrix)
    ensures r.rows == m.rows && r.cols == m.cols
    ensures forall j :: 0 <= j < m.cols ==> Col(r, j) == SortSeq(Col(m, j), desc)
  {
    var r := Build(m.rows, m.cols, (i: nat, j: nat) =>
      var s := SortSeq(Col(m, j), desc); if i < |s| then s[i] else 0.0);
    forall j | 0 <= j < m.cols
      ensures Col(r, j) == SortSeq(Col(m, j), desc)
    {
      SortedLength(Col(m, j), desc);
    }
    r
  }

  /** The whole buffer sorted, read back with the same shape. */
  function SortAll(m: Matrix, desc: bool): (r: Matrix)
    ensures r.rows == m.rows && r.cols == m.cols
    ensures r.data == SortSeq(m.data, desc)
  {
    SortedLength(m.data, desc);
    Mat(m.rows, m.cols, SortSeq(m.data, desc))
  }

  /** sort(desc, axis) as a value: each selected line is sorted and keeps its elements. */
  function Sort(m: Matrix, desc: bool := false, axis: int := 0): (r: Result<Matrix>)
    ensures r.Ok? <==> -1 <= axis <= 1
    ensures r.Err? ==> r.error == IndexOutOfRange
    ensures r.Ok? ==> r.value.rows == m.rows && r.value.cols == m.cols
    ensures r.Ok? && axis == -1 ==>
      Sorted(r.value.data, desc) && multiset(r.value.data) == multiset(m.data)
    ensures r.Ok? && axis == 0 ==> forall j :: 0 <= j < m.cols ==>
      Sorted(Col(r.value, j), desc) && multiset(Col(r.value, j)) == multiset(Col(m, j))
    ensures r.Ok? && axis == 1 ==> forall i :: 0 <= i < m.rows ==>
      Sorted(Row(r.value, i), desc) && multiset(Row(r.value, i)) == multiset(Row(m, i))
  {
    if axis == -1 then Ok(SortAll(m, desc))
    else if axis == 0 then Ok(SortCols(m, desc))
    else if axis == 1 then Ok(SortRows(m, desc))
    else Err(IndexOutOfRange)
  }

  /** A plain sort() orders each column ascending. */
  lemma SortDefault(m: Matrix)
    ensures Sort(m) == Ok(SortCols(m, false))
  {
  }

  /** Sorting the only row of a one-row matrix yields any sorted line with its elements. */
  lemma SortSingleRow(m: Matrix, desc: bool, e: seq<real>)
    requires m.rows == 1 && Sorted(e, desc) && multiset(e) == multiset(m.data)
    ensures Sort(m, desc, 1).Ok? && Sort(m, desc, 1).value.data == e
  {
    var r := Sort(m, desc, 1).value;
    SingleRowData(m);
    SingleRowData(r);
    SortedUnique(r.data, e, desc);
  }

  /** sort(false, 1) of the single row [3, 1, 2] gives [1, 2, 3]. */
  lemma SortRowExample()
    ensures Sort(Mat(1, 3, [3.0, 1.0, 2.0]), false, 1).Ok?
    ensures Sort(Mat(1, 3, [3.0, 1.0, 2.0]), false, 1).value.data == [1.0, 2.0, 3.0]
  {
    var e := [1.0, 2.0, 3.0];
    assert Sorted(e, false);
    assert multiset([3.0, 1.0, 2.0]) == multiset(e);
    SortSingleRow(Mat(1, 3, [3.0, 1.0, 2.0]), false, e);
  }
}
