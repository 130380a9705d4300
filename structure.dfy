/** Conversion, slicing, concatenation, reshaping, transposition and the row/column
    exchange of nml::algmat, as functions returning fresh matrices. */
module Structure {
  import opened Matrices

  /** The axis selectors that pick rows (0) or columns (1). */
  predicate IsLineAxis(axis: int) {
    axis == 0 || axis == 1
  }

  /** The number of rows (axis 0) or columns (axis 1). */
  function Extent(m: Matrix, axis: int): nat {
    if axis == 0 then m.rows else m.cols
  }

  // ----- conversion from a flat sequence (to_algmat) -----

  /** to_algmat(vdata): the sequence as a single row. */
  function ToAlgmat(v: seq<real>): (m: Matrix)
    ensures m.rows == 1 && m.cols == |v|
    ensures Row(m, 0) == v
  {
    Mat(1, |v|, v)
  }

  /** to_algmat(vdata, nrows): the sequence read row-major into `nrows` rows. */
  function ToAlgmatRows(v: seq<real>, nrows: int): (r: Result<Matrix>)
    ensures r.Ok? <==> nrows > 0 && |v| % nrows == 0
    ensures r.Err? ==> r.error == IndivisibleReshape
    ensures r.Ok? ==> r.value.rows == nrows && r.value.data == v
  {
    if nrows <= 0 || |v| % nrows != 0 then Err(IndivisibleReshape)
    else
      ExactDiv(|v|, nrows);
      var m: Matrix := Mat(nrows, |v| / nrows, v);
      Ok(m)
  }

  lemma ExactDiv(n: nat, d: nat)
    requires d > 0 && n % d == 0
    ensures d * (n / d) == n
  {
  }

  /** reshape(nrows): the same buffer read with a new row count. */
  function Reshape(m: Matrix, nrows: int): (r: Result<Matrix>)
    ensures r.Ok? <==> nrows > 0 && |m.data| % nrows == 0
    ensures r.Err? ==> r.error == IndivisibleReshape
    ensures r.Ok? ==> r.value.rows == nrows && r.value.data == m.data
  {
    ToAlgmatRows(m.data, nrows)
  }

  /** Reshaping back to the original row count restores the matrix. */
  lemma ReshapeRoundTrip(m: Matrix, nrows: int)
    requires m.rows > 0 && Reshape(m, nrows).Ok?
    ensures Reshape(Reshape(m, nrows).value, m.rows) == Ok(m)
  {
    FlatDivMod(m.rows, m.cols, 0);
    assert Flat(m.rows, m.cols, 0) == |m.data|;
  }

  // ----- slicing (submat) -----

  /** The k-th index visited from `bi` with step `ii`. */
  function Stride(bi: int, ii: int, k: int): int {
    bi + k * ii
  }

  /** The number of indices bi, bi+ii, bi+2*ii, ... that lie below ei. */
  function StrideCount(bi: int, ei: int, ii: int): (n: nat)
    requires ii >= 1
    ensures forall k :: 0 <= k < n ==> Stride(bi, ii, k) < ei
    ensures Stride(bi, ii, n) >= ei
  {
    if bi >= ei then 0
    else
      var n := (ei - bi - 1) / ii + 1;
      assert (n - 1) * ii <= ei - bi - 1 < n * ii;
      n
  }

  /** A stride never exceeds the length of the window it walks. */
  lemma StrideCountBound(bi: int, ei: int, ii: int)
    requires ii >= 1 && bi <= ei
    ensures StrideCount(bi, ei, ii) <= ei - bi
  {
    if bi < ei {
      var d := ei - bi - 1;
      assert (d / ii) * ii <= d;
      assert d / ii <= (d / ii) * ii;
    }
  }

  /** With step 1 the window [bi, ei) is walked index by index. */
  lemma UnitStride(bi: int, ei: int)
    requires bi <= ei
    ensures StrideCount(bi, ei, 1) == ei - bi
    ensures forall k :: Stride(bi, 1, k) == bi + k
  {
    StrideCountBound(bi, ei, 1);
  }

  /** submat(idx, axis): the single row (axis 0) or column (axis 1) idx. */
  function Submat(m: Matrix, idx: int, axis: int := 0): (r: Result<Matrix>)
    ensures r.Ok? <==> IsLineAxis(axis) && 0 <= idx < Extent(m, axis)
    ensures r.Err? ==> r.error == IndexOutOfRange
    ensures r.Ok? && axis == 0 ==> r.value.rows == 1 && r.value.cols == m.cols && Row(r.value, 0) == Row(m, idx)
    ensures r.Ok? && axis == 1 ==> r.value.rows == m.rows && r.value.cols == 1 && Col(r.value, 0) == Col(m, idx)
  {
    if !IsLineAxis(axis) || idx < 0 || idx >= Extent(m, axis) then Err(IndexOutOfRange)
    else if axis == 0 then Ok(Build(1, m.cols, (i: nat, j: nat) => At(m, idx, j)))
    else Ok(Build(m.rows, 1, (i: nat, j: nat) => At(m, i, idx)))
  }

  /** submat(bi, ei, ii, axis): rows (axis 0) or columns (axis 1) bi, bi+ii, ... below ei. */
  function SubmatRange(m: Matrix, bi: int, ei: int, ii: int, axis: int := 0): (r: Result<Matrix>)
    ensures r.Ok? <==> IsLineAxis(axis) && ii >= 1 && 0 <= bi < ei <= Extent(m, axis)
    ensures r.Err? && !IsLineAxis(axis) ==> r.error == IndexOutOfRange
    ensures r.Err? && IsLineAxis(axis) && ii < 1 ==> r.error == InvalidInterval
    ensures r.Err? && IsLineAxis(axis) && ii >= 1 ==> r.error == IndexOutOfRange
    ensures r.Ok? && axis == 0 ==>
      r.value.rows == StrideCount(bi, ei, ii) && r.value.cols == m.cols &&
      forall k :: 0 <= k < r.value.rows ==> Row(r.value, k) == Row(m, Stride(bi, ii, k))
    ensures r.Ok? && axis == 1 ==>
      r.value.rows == m.rows && r.value.cols == StrideCount(bi, ei, ii) &&
      forall k :: 0 <= k < r.value.cols ==> Col(r.value, k) == Col(m, Stride(bi, ii, k))
  {
    if !IsLineAxis(axis) then Err(IndexOutOfRange)
    else if ii < 1 then Err(InvalidInterval)
    else if bi < 0 || bi >= ei || ei > Extent(m, axis) then Err(IndexOutOfRange)
    else
      var n := StrideCount(bi, ei, ii);
      if axis == 0 then
        var s := Build(n, m.cols, (i: nat, j: nat) => At(m, Stride(bi, ii, i), j));
        assert forall k :: 0 <= k < n ==> Row(s, k) == Row(m, Stride(bi, ii, k));
        Ok(s)
      else
        var s := Build(m.rows, n, (i: nat, j: nat) => At(m, i, Stride(bi, ii, j)));
        assert forall k :: 0 <= k < n ==> Col(s, k) == Col(m, Stride(bi, ii, k));
        Ok(s)
  }

  /** submat(1, 4, 2) of a five-row matrix selects rows 1 and 3. */
  lemma SubmatStrideExample(m: Matrix)
    requires m.rows == 5
    ensures SubmatRange(m, 1, 4, 2).Ok?
    ensures SubmatRange(m, 1, 4, 2).value.rows == 2
    ensures Row(SubmatRange(m, 1, 4, 2).value, 0) == Row(m, 1)
    ensures Row(SubmatRange(m, 1, 4, 2).value, 1) == Row(m, 3)
  {
    assert StrideCount(1, 4, 2) == 2;
  }

  /** Selecting a single line equals selecting the one-line window [idx, idx + 1). */
  lemma SubmatIsUnitWindow(m: Matrix, idx: int, axis: int)
    requires IsLineAxis(axis) && 0 <= idx < Extent(m, axis)
    ensures Submat(m, idx, axis) == SubmatRange(m, idx, idx + 1, 1, axis)
  {
    var a, b := Submat(m, idx, axis).value, SubmatRange(m, idx, idx + 1, 1, axis).value;
    assert StrideCount(idx, idx + 1, 1) == 1;
    if axis == 0 {
      assert Row(b, 0) == Row(m, Stride(idx, 1, 0));
      RowExt(a, b);
    } else {
      assert Col(b, 0) == Col(m, Stride(idx, 1, 0));
      ColExt(a, b);
    }
  }

  // ----- minor -----

  /** The index in the original matrix of line k once line idx is removed. */
  function Skip(idx: int, k: int): int {
    if k < idx then k else k + 1
  }

  /** `m` without row idx (vminor). */
  function DropRow(m: Matrix, idx: nat): (r: Matrix)
    requires idx < m.rows
    ensures r.rows == m.rows - 1 && r.cols == m.cols
    ensures forall k :: 0 <= k < r.rows ==> Row(r, k) == Row(m, Skip(idx, k))
  {
    var r := Build(m.rows - 1, m.cols, (i: nat, j: nat) => At(m, Skip(idx, i), j));
    assert forall k :: 0 <= k < r.rows ==> Row(r, k) == Row(m, Skip(idx, k));
    r
  }

  /** `m` without column idx (hminor). */
  function DropCol(m: Matrix, idx: nat): (r: Matrix)
    requires idx < m.cols
    ensures r.rows == m.rows && r.cols == m.cols - 1
    ensures forall k :: 0 <= k < r.cols ==> Col(r, k) == Col(m, Skip(idx, k))
  {
    var r := Build(m.rows, m.cols - 1, (i: nat, j: nat) => At(m, i, Skip(idx, j)));
    assert forall k :: 0 <= k < r.cols ==> Col(r, k) == Col(m, Skip(idx, k));
    r
  }

  /** minor(idx, axis): `m` with row (axis 0) or column (axis 1) idx removed. */
  function Minor(m: Matrix, idx: int, axis: int := 0): (r: Result<Matrix>)
    ensures r.Ok? <==> IsLineAxis(axis) && 0 <= idx < Extent(m, axis)
    ensures r.Err? ==> r.error == IndexOutOfRange
    ensures r.Ok? && axis == 0 ==> r.value.rows == m.rows - 1 && r.value.cols == m.cols
    ensures r.Ok? && axis == 1 ==> r.value.rows == m.rows && r.value.cols == m.cols - 1
  {
    if !IsLineAxis(axis) || idx < 0 || idx >= Extent(m, axis) then Err(IndexOutOfRange)
    else if axis == 0 then Ok(DropRow(m, idx))
    else Ok(DropCol(m, idx))
  }

  /** Every row but the removed one survives a row minor, in its original order. */
  lemma MinorKeepsOtherRows(m: Matrix, idx: nat, i: nat)
    requires idx < m.rows && i < m.rows && i != idx
    ensures Minor(m, idx, 0).Ok?
    ensures var k := if i < idx then i else i - 1;
      k < Minor(m, idx, 0).value.rows && Row(Minor(m, idx, 0).value, k) == Row(m, i)
  {
    var k := if i < idx then i else i - 1;
    assert Skip(idx, k) == i;
  }

  /** Every column but the removed one survives a column minor, in its original order. */
  lemma MinorKeepsOtherCols(m: Matrix, idx: nat, j: nat)
    requires idx < m.cols && j < m.cols && j != idx
    ensures Minor(m, idx, 1).Ok?
    ensures var k := if j < idx then j else j - 1;
      k < Minor(m, idx, 1).value.cols && Col(Minor(m, idx, 1).value, k) == Col(m, j)
  {
    var k := if j < idx then j else j - 1;
    assert Skip(idx, k) == j;
  }

  // ----- transposition -----

  /** t(): rows become columns. */
  function Transpose(m: Matrix): (r: Matrix)
    ensures r.rows == m.cols && r.cols == m.rows
    ensures forall i :: 0 <= i < r.rows ==> Row(r, i) == Col(m, i)
  {
    var r := Build(m.cols, m.rows, (i: nat, j: nat) => At(m, j, i));
    assert forall i :: 0 <= i < r.rows ==> Row(r, i) == Col(m, i);
    r
  }

  lemma TransposeAt(m: Matrix, i: nat, j: nat)
    requires i < m.cols && j < m.rows
    ensures At(Transpose(m), i, j) == At(m, j, i)
  {
    assert Row(Transpose(m), i)[j] == Col(m, i)[j];
  }

  /** Transposition is an involution. */
  lemma TransposeInvolution(m: Matrix)
    ensures Transpose(Transpose(m)) == m
  {
    var t := Transpose(m);
    forall i, j | 0 <= i < m.rows && 0 <= j < m.cols
      ensures At(Transpose(t), i, j) == At(m, i, j)
    {
      TransposeAt(t, i, j);
      TransposeAt(m, j, i);
    }
    Ext(Transpose(t), m);
  }

  // ----- concatenation (append) -----

  /** vappend of two matrices: b's rows below a's. */
  function StackRows(a: Matrix, b: Matrix): (r: Matrix)
    requires a.cols == b.cols
    ensures r.rows == a.rows + b.rows && r.cols == a.cols
    ensures forall i :: 0 <= i < r.rows ==> Row(r, i) == if i < a.rows then Row(a, i) else Row(b, i - a.rows)
  {
    var r := Build(a.rows + b.rows, a.cols,
      (i: nat, j: nat) => if i < a.rows then At(a, i, j) else At(b, i - a.rows, j));
    assert forall i :: 0 <= i < r.rows ==> Row(r, i) == if i < a.rows then Row(a, i) else Row(b, i - a.rows);
    r
  }

  /** happend of two matrices: b's columns right of a's. */
  function StackCols(a: Matrix, b: Matrix): (r: Matrix)
    requires a.rows == b.rows
    ensures r.rows == a.rows && r.cols == a.cols + b.cols
    ensures forall j :: 0 <= j < r.cols ==> Col(r, j) == if j < a.cols then Col(a, j) else Col(b, j - a.cols)
  {
    var r := Build(a.rows, a.cols + b.cols,
      (i: nat, j: nat) => if j < a.cols then At(a, i, j) else At(b, i, j - a.cols));
    assert forall j :: 0 <= j < r.cols ==> Col(r, j) == if j < a.cols then Col(a, j) else Col(b, j - a.cols);
    r
  }

  /** append(mat, axis): vertical (axis 0) or horizontal (axis 1) concatenation. */
  function Append(a: Matrix, b: Matrix, axis: int := 0): (r: Result<Matrix>)
    ensures r.Ok? <==> (axis == 0 && a.cols == b.cols) || (axis == 1 && a.rows == b.rows)
    ensures r.Err? && !IsLineAxis(axis) ==> r.error == IndexOutOfRange
    ensures r.Err? && IsLineAxis(axis) ==> r.error == ShapeMismatch
    ensures r.Ok? && axis == 0 ==> r.value.rows == a.rows + b.rows && r.value.cols == a.cols
    ensures r.Ok? && axis == 1 ==> r.value.rows == a.rows && r.value.cols == a.cols + b.cols
    ensures r.Ok? && axis == 0 ==> r.value == StackRows(a, b)
    ensures r.Ok? && axis == 1 ==> r.value == StackCols(a, b)
  {
    if !IsLineAxis(axis) then Err(IndexOutOfRange)
    else if axis == 0 then (if a.cols == b.cols then Ok(StackRows(a, b)) else Err(ShapeMismatch))
    else if a.rows == b.rows then Ok(StackCols(a, b)) else Err(ShapeMismatch)
  }

  /** Vertical append concatenates the row-major buffers. */
  lemma StackRowsData(a: Matrix, b: Matrix)
    requires a.cols == b.cols
    ensures StackRows(a, b).data == a.data + b.data
  {
    var r := StackRows(a, b);
    assert |a.data + b.data| == (a.rows + b.rows) * a.cols;
    var c: Matrix := Mat(a.rows + b.rows, a.cols, a.data + b.data);
    forall i, j | 0 <= i < r.rows && 0 <= j < r.cols
      ensures At(r, i, j) == At(c, i, j)
    {
      assert Row(r, i)[j] == At(r, i, j);
      StackedCell(a, b, c, i, j);
    }
    Ext(r, c);
  }

  lemma StackedCell(a: Matrix, b: Matrix, c: Matrix, i: nat, j: nat)
    requires a.cols == b.cols && c == Mat(a.rows + b.rows, a.cols, a.data + b.data)
    requires i < c.rows && j < c.cols
    ensures At(c, i, j) == if i < a.rows then At(a, i, j) else At(b, i - a.rows, j)
  {
    FlatBound(c.rows, c.cols, i, j);
    if i < a.rows {
      FlatBound(a.rows, a.cols, i, j);
    } else {
      FlatBound(b.rows, b.cols, i - a.rows, j);
      assert Flat(a.cols, i, j) == a.rows * a.cols + Flat(a.cols, i - a.rows, j);
    }
  }

  /** The first rows of a vertical append are the first operand. */
  lemma AppendThenSubmatFirst(a: Matrix, b: Matrix)
    requires a.cols == b.cols && a.rows > 0
    ensures SubmatRange(Append(a, b, 0).value, 0, a.rows, 1, 0) == Ok(a)
  {
    var ab := StackRows(a, b);
    assert Append(a, b, 0).value == ab;
    UnitStride(0, a.rows);
    var r := SubmatRange(ab, 0, a.rows, 1, 0);
    assert r.Ok?;
    var s := r.value;
    assert s.rows == a.rows && s.cols == a.cols;
    forall k | 0 <= k < a.rows
      ensures Row(s, k) == Row(a, k)
    {
      assert Stride(0, 1, k) == k;
      assert Row(s, k) == Row(ab, k);
      assert 0 <= k < ab.rows;
      assert Row(ab, k) == if k < a.rows then Row(a, k) else Row(b, k - a.rows);
    }
    RowExt(s, a);
  }

  /** The last rows of a vertical append are the second operand. */
  lemma AppendThenSubmatSecond(a: Matrix, b: Matrix)
    requires a.cols == b.cols && b.rows > 0
    ensures SubmatRange(Append(a, b, 0).value, a.rows, a.rows + b.rows, 1, 0) == Ok(b)
  {
    var ab := StackRows(a, b);
    UnitStride(a.rows, a.rows + b.rows);
    var s := SubmatRange(ab, a.rows, a.rows + b.rows, 1, 0).value;
    assert s.rows == b.rows;
    forall k | 0 <= k < b.rows
      ensures Row(s, k) == Row(b, k)
    {
      assert Stride(a.rows, 1, k) == a.rows + k;
      assert Row(s, k) == Row(ab, a.rows + k);
      assert Row(ab, a.rows + k) == Row(b, k);
    }
    RowExt(s, b);
  }

  /** Transposing a vertical append gives the horizontal append of the transposes. */
  lemma TransposeStackRows(a: Matrix, b: Matrix)
    requires a.cols == b.cols
    ensures Transpose(StackRows(a, b)) == StackCols(Transpose(a), Transpose(b))
  {
    var l, r := Transpose(StackRows(a, b)), StackCols(Transpose(a), Transpose(b));
    forall j | 0 <= j < l.cols
      ensures Col(l, j) == Col(r, j)
    {
      forall i | 0 <= i < l.rows
        ensures Col(l, j)[i] == Col(r, j)[i]
      {
        TransposeAt(StackRows(a, b), i, j);
        assert At(StackRows(a, b), j, i) == Row(StackRows(a, b), j)[i];
        if j < a.rows {
          TransposeAt(a, i, j);
          assert Col(r, j)[i] == Col(Transpose(a), j)[i];
        } else {
          TransposeAt(b, i, j - a.rows);
          assert Col(r, j)[i] == Col(Transpose(b), j - a.rows)[i];
        }
      }
    }
    ColExt(l, r);
  }

  /** The total row count (axis 0) or column count (axis 1) of a list of matrices. */
  function TotalExtent(vmat: seq<Matrix>, axis: int): nat {
    if vmat == [] then 0 else TotalExtent(vmat[..|vmat| - 1], axis) + Extent(vmat[|vmat| - 1], axis)
  }

  /** True iff every matrix has the same column count (axis 0) or row count (axis 1) as the first. */
  predicate Aligned(vmat: seq<Matrix>, axis: int) {
    forall k :: 0 <= k < |vmat| ==> Extent(vmat[k], 1 - axis) == Extent(vmat[0], 1 - axis)
  }

  /** The buffers of the list, one after the other. */
  function JoinedData(vmat: seq<Matrix>): seq<real> {
    if vmat == [] then [] else JoinedData(vmat[..|vmat| - 1]) + vmat[|vmat| - 1].data
  }

  /** Row i of every matrix of the list, one after the other. */
  function JoinedRow(vmat: seq<Matrix>, i: int): seq<real> {
    if vmat == [] then [] else JoinedRow(vmat[..|vmat| - 1], i) + Row(vmat[|vmat| - 1], i)
  }

  /** Each row of a horizontal append is a's row followed by b's row. */
  lemma StackColsRows(a: Matrix, b: Matrix)
    requires a.rows == b.rows
    ensures forall i :: 0 <= i < a.rows ==> Row(StackCols(a, b), i) == Row(a, i) + Row(b, i)
  {
    var r := StackCols(a, b);
    forall i | 0 <= i < a.rows
      ensures Row(r, i) == Row(a, i) + Row(b, i)
    {
      forall j | 0 <= j < r.cols
        ensures Row(r, i)[j] == (Row(a, i) + Row(b, i))[j]
      {
        assert Row(r, i)[j] == Col(r, j)[i];
        if j < a.cols {
          assert Col(a, j)[i] == Row(a, i)[j];
        } else {
          assert Col(b, j - a.cols)[i] == Row(b, i)[j - a.cols];
        }
      }
    }
  }

  /** append(vmat, axis): the list stacked in order along the axis. */
  function AppendAll(vmat: seq<Matrix>, axis: int := 0): (r: Result<Matrix>)
    ensures r.Ok? <==> IsLineAxis(axis) && vmat != [] && Aligned(vmat, axis)
    ensures r.Err? ==>
      r.error == if !IsLineAxis(axis) then IndexOutOfRange else if vmat == [] then EmptyMatrix else ShapeMismatch
    ensures r.Ok? ==> Extent(r.value, axis) == TotalExtent(vmat, axis)
    ensures r.Ok? ==> Extent(r.value, 1 - axis) == Extent(vmat[0], 1 - axis)
    ensures r.Ok? && axis == 0 ==> r.value.data == JoinedData(vmat)
    ensures r.Ok? && axis == 1 ==> forall i :: 0 <= i < r.value.rows ==> Row(r.value, i) == JoinedRow(vmat, i)
  {
    if !IsLineAxis(axis) then Err(IndexOutOfRange)
    else if vmat == [] then Err(EmptyMatrix)
    else if |vmat| == 1 then
      assert vmat[..0] == [];
      Ok(vmat[0])
    else
      var init, last := vmat[..|vmat| - 1], vmat[|vmat| - 1];
      assert init[0] == vmat[0];
      assert Aligned(vmat, axis) ==> Aligned(init, axis);
      match AppendAll(init, axis)
      case Err(e) => Err(e)
      case Ok(m) =>
        var r := Append(m, last, axis);
        assert r.Err? ==> !Aligned(vmat, axis);
        if r.Ok? && axis == 0 then
          StackRowsData(m, last);
          r
        else if r.Ok? then
          StackColsRows(m, last);
          r
        else r
  }

  /** The instance append(mat, axis) is the list form over the pair. */
  lemma AppendPair(a: Matrix, b: Matrix, axis: int)
    requires IsLineAxis(axis)
    ensures AppendAll([a, b], axis) == Append(a, b, axis)
  {
    assert [a, b][..1] == [a];
  }

  // ----- exchanging two rows or columns (swap) -----

  /** `m` with rows a and b exchanged (vswap). */
  function SwapRows(m: Matrix, a: nat, b: nat): (r: Matrix)
    requires a < m.rows && b < m.rows
    ensures r.rows == m.rows && r.cols == m.cols
    ensures forall i :: 0 <= i < m.rows ==> Row(r, i) == Row(m, Swapped(a, b, i))
  {
    var r := Build(m.rows, m.cols, (i: nat, j: nat) => At(m, Swapped(a, b, i), j));
    assert forall i :: 0 <= i < m.rows ==> Row(r, i) == Row(m, Swapped(a, b, i));
    r
  }

  /** `m` with columns a and b exchanged (hswap). */
  function SwapCols(m: Matrix, a: nat, b: nat): (r: Matrix)
    requires a < m.cols && b < m.cols
    ensures r.rows == m.rows && r.cols == m.cols
    ensures forall j :: 0 <= j < m.cols ==> Col(r, j) == Col(m, Swapped(a, b, j))
  {
    var r := Build(m.rows, m.cols, (i: nat, j: nat) => At(m, i, Swapped(a, b, j)));
    assert forall j :: 0 <= j < m.cols ==> Col(r, j) == Col(m, Swapped(a, b, j));
    r
  }

  /** swap(fi, ti, axis) as a value: the exchanged matrix, or why the call is refused. */
  function Swap(m: Matrix, fi: int, ti: int, axis: int := 0): (r: Result<Matrix>)
    ensures r.Ok? <==> IsLineAxis(axis) && 0 <= fi < Extent(m, axis) && 0 <= ti < Extent(m, axis)
    ensures r.Err? ==> r.error == IndexOutOfRange
    ensures r.Ok? ==> r.value.rows == m.rows && r.value.cols == m.cols
    ensures r.Ok? && axis == 0 ==>
      forall i :: 0 <= i < m.rows ==> Row(r.value, i) == Row(m, Swapped(fi, ti, i))
    ensures r.Ok? && axis == 1 ==>
      forall j :: 0 <= j < m.cols ==> Col(r.value, j) == Col(m, Swapped(fi, ti, j))
  {
    if !IsLineAxis(axis) || fi < 0 || ti < 0 || fi >= Extent(m, axis) || ti >= Extent(m, axis) then
      Err(IndexOutOfRange)
    else if axis == 0 then Ok(SwapRows(m, fi, ti))
    else Ok(SwapCols(m, fi, ti))
  }

  /** Swapping the same two lines twice restores the matrix. */
  lemma SwapTwice(m: Matrix, fi: int, ti: int, axis: int)
    requires Swap(m, fi, ti, axis).Ok?
    ensures Swap(Swap(m, fi, ti, axis).value, fi, ti, axis) == Ok(m)
  {
    var once := Swap(m, fi, ti, axis).value;
    var twice := Swap(once, fi, ti, axis).value;
    if axis == 0 {
      forall i | 0 <= i < m.rows ensures Row(twice, i) == Row(m, i) {
        assert Swapped(fi, ti, Swapped(fi, ti, i)) == i;
      }
      RowExt(twice, m);
    } else {
      forall j | 0 <= j < m.cols ensures Col(twice, j) == Col(m, j) {
        assert Swapped(fi, ti, Swapped(fi, ti, j)) == j;
      }
      ColExt(twice, m);
    }
  }
}
