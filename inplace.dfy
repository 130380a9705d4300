/** nml::algmat as an object whose buffer is updated in place: indexed reads and writes,
    the fill assignment, the compound operators +=, -=, *= and /=, and swap and sort.
    Each method is proved against the value-level function that says what it computes. */
module InPlace {
  import opened Matrices
  import Structure
  import Sorting
  import Elementwise
  import Algebra

  // ----- value-level descriptions of partly done line writes -----

  /** x with the first n cells of row i taken from s. */
  function WithRowPrefix(x: Matrix, i: nat, s: seq<real>, n: nat): (r: Matrix)
    ensures r.rows == x.rows && r.cols == x.cols
  {
    Build(x.rows, x.cols, (r: nat, c: nat) => if r == i && c < n && c < |s| then s[c] else At(x, r, c))
  }

  /** x with row i replaced by s: row i reads s and every other row is untouched. */
  function WithRow(x: Matrix, i: nat, s: seq<real>): (r: Matrix)
    requires i < x.rows && |s| == x.cols
    ensures r.rows == x.rows && r.cols == x.cols
    ensures Row(r, i) == s
    ensures forall k :: 0 <= k < x.rows && k != i ==> Row(r, k) == Row(x, k)
  {
    WithRowPrefix(x, i, s, |s|)
  }

  /** x with the first n cells of column j taken from s. */
  function WithColPrefix(x: Matrix, j: nat, s: seq<real>, n: nat): (r: Matrix)
    ensures r.rows == x.rows && r.cols == x.cols
  {
    Build(x.rows, x.cols, (r: nat, c: nat) => if c == j && r < n && r < |s| then s[r] else At(x, r, c))
  }

  /** x with column j replaced by s: column j reads s and every other column is untouched. */
  function WithCol(x: Matrix, j: nat, s: seq<real>): (r: Matrix)
    requires j < x.cols && |s| == x.rows
    ensures r.rows == x.rows && r.cols == x.cols
    ensures Col(r, j) == s
    ensures forall k :: 0 <= k < x.cols && k != j ==> Col(r, k) == Col(x, k)
  {
    WithColPrefix(x, j, s, |s|)
  }

  lemma WithRowPrefixStep(x: Matrix, i: nat, s: seq<real>, n: nat)
    requires i < x.rows && n < x.cols && |s| == x.cols
    ensures SetAt(WithRowPrefix(x, i, s, n), i, n, s[n]) == WithRowPrefix(x, i, s, n + 1)
  {
    Ext(SetAt(WithRowPrefix(x, i, s, n), i, n, s[n]), WithRowPrefix(x, i, s, n + 1));
  }

  lemma WithColPrefixStep(x: Matrix, j: nat, s: seq<real>, n: nat)
    requires j < x.cols && n < x.rows && |s| == x.rows
    ensures SetAt(WithColPrefix(x, j, s, n), n, j, s[n]) == WithColPrefix(x, j, s, n + 1)
  {
    Ext(SetAt(WithColPrefix(x, j, s, n), n, j, s[n]), WithColPrefix(x, j, s, n + 1));
  }

  lemma WithRowPrefixNone(x: Matrix, i: nat, s: seq<real>)
    ensures WithRowPrefix(x, i, s, 0) == x
  {
    Ext(WithRowPrefix(x, i, s, 0), x);
  }

  lemma WithColPrefixNone(x: Matrix, j: nat, s: seq<real>)
    ensures WithColPrefix(x, j, s, 0) == x
  {
    Ext(WithColPrefix(x, j, s, 0), x);
  }

  /** Rows below n taken from t, the others from m. */
  function RowsFrom(m: Matrix, t: Matrix, n: nat): (r: Matrix)
    requires t.rows == m.rows && t.cols == m.cols
    ensures r.rows == m.rows && r.cols == m.cols
  {
    Build(m.rows, m.cols, (r: nat, c: nat) => if r < n then At(t, r, c) else At(m, r, c))
  }

  /** Columns below n taken from t, the others from m. */
  function ColsFrom(m: Matrix, t: Matrix, n: nat): (r: Matrix)
    requires t.rows == m.rows && t.cols == m.cols
    ensures r.rows == m.rows && r.cols == m.cols
  {
    Build(m.rows, m.cols, (r: nat, c: nat) => if c < n then At(t, r, c) else At(m, r, c))
  }

  lemma RowsFromStep(m: Matrix, t: Matrix, n: nat)
    requires t.rows == m.rows && t.cols == m.cols && n < m.rows
    ensures Row(RowsFrom(m, t, n), n) == Row(m, n)
    ensures WithRow(RowsFrom(m, t, n), n, Row(t, n)) == RowsFrom(m, t, n + 1)
  {
    var x := RowsFrom(m, t, n);
    var y := WithRow(x, n, Row(t, n));
    forall k | 0 <= k < m.rows
      ensures Row(y, k) == Row(RowsFrom(m, t, n + 1), k)
    {
      if k != n {
        assert Row(y, k) == Row(x, k);
      }
    }
    RowExt(y, RowsFrom(m, t, n + 1));
  }

  lemma ColsFromStep(m: Matrix, t: Matrix, n: nat)
    requires t.rows == m.rows && t.cols == m.cols && n < m.cols
    ensures Col(ColsFrom(m, t, n), n) == Col(m, n)
    ensures WithCol(ColsFrom(m, t, n), n, Col(t, n)) == ColsFrom(m, t, n + 1)
  {
    var x := ColsFrom(m, t, n);
    var y := WithCol(x, n, Col(t, n));
    forall k | 0 <= k < m.cols
      ensures Col(y, k) == Col(ColsFrom(m, t, n + 1), k)
    {
      if k != n {
        assert Col(y, k) == Col(x, k);
      }
    }
    ColExt(y, ColsFrom(m, t, n + 1));
  }

  lemma RowsFromEnds(m: Matrix, t: Matrix)
    requires t.rows == m.rows && t.cols == m.cols
    ensures RowsFrom(m, t, 0) == m && RowsFrom(m, t, m.rows) == t
  {
    Ext(RowsFrom(m, t, 0), m);
    Ext(RowsFrom(m, t, m.rows), t);
  }

  lemma ColsFromEnds(m: Matrix, t: Matrix)
    requires t.rows == m.rows && t.cols == m.cols
    ensures ColsFrom(m, t, 0) == m && ColsFrom(m, t, m.cols) == t
  {
    Ext(ColsFrom(m, t, 0), m);
    Ext(ColsFrom(m, t, m.cols), t);
  }

  /** Writing each of two rows with the other's old contents is the row exchange. */
  lemma ExchangeRows(m: Matrix, fi: nat, ti: nat)
    requires fi < m.rows && ti < m.rows
    ensures WithRow(WithRow(m, fi, Row(m, ti)), ti, Row(m, fi)) == Structure.SwapRows(m, fi, ti)
  {
    var y := WithRow(WithRow(m, fi, Row(m, ti)), ti, Row(m, fi));
    forall k | 0 <= k < m.rows
      ensures Row(y, k) == Row(Structure.SwapRows(m, fi, ti), k)
    {
    }
    RowExt(y, Structure.SwapRows(m, fi, ti));
  }

  lemma ExchangeCols(m: Matrix, fi: nat, ti: nat)
    requires fi < m.cols && ti < m.cols
    ensures WithCol(WithCol(m, fi, Col(m, ti)), ti, Col(m, fi)) == Structure.SwapCols(m, fi, ti)
  {
    var y := WithCol(WithCol(m, fi, Col(m, ti)), ti, Col(m, fi));
    forall k | 0 <= k < m.cols
      ensures Col(y, k) == Col(Structure.SwapCols(m, fi, ti), k)
    {
    }
    ColExt(y, Structure.SwapCols(m, fi, ti));
  }

  // ----- the object -----

  class Algmat {
    var rows: nat
    var cols: nat
    var data: array<real>

    ghost predicate Valid()
      reads this
    {
      data.Length == rows * cols
    }

    /** The matrix the object currently holds. */
    function Value(): Matrix
      reads this, data
      requires Valid()
    {
      Mat(rows, cols, data[..])
    }

    /** algmat(obj): a deep copy of a matrix value into a fresh buffer. */
    constructor (m: Matrix)
      ensures Valid() && fresh(data)
      ensures Value() == m
    {
      rows, cols := m.rows, m.cols;
      data := new real[|m.data|](k requires 0 <= k < |m.data| => m.data[k]);
      new;
      assert data[..] == m.data;
    }

    /** algmat(sz, val): a rows-by-cols matrix filled with v. */
    constructor Filled(rows: nat, cols: nat, v: real)
      ensures Valid() && fresh(data)
      ensures Value() == Algebra.Values(rows, cols, v)
    {
      this.rows, this.cols := rows, cols;
      data := new real[rows * cols](_ => v);
      new;
      Algebra.ValuesData(rows, cols, v);
      assert data[..] == Algebra.Values(rows, cols, v).data;
    }

    // ----- indexed access -----

    /** operator()(idx0, idx1) for reading: the cell, or a refusal outside the shape. */
    method Get(i: int, j: int) returns (r: Result<real>)
      requires Valid()
      ensures r.Ok? <==> 0 <= i < rows && 0 <= j < cols
      ensures r.Err? ==> r.error == IndexOutOfRange
      ensures r.Ok? ==> r.value == Row(Value(), i)[j] && r.value == Col(Value(), j)[i]
    {
      if i < 0 || j < 0 || i >= rows || j >= cols {
        return Err(IndexOutOfRange);
      }
      FlatBound(rows, cols, i, j);
      r := Ok(data[i * cols + j]);
    }

    /** operator()(idx) for reading: the linear index walks the buffer row by row. */
    method GetFlat(k: int) returns (r: Result<real>)
      requires Valid()
      ensures r.Ok? <==> 0 <= k < rows * cols
      ensures r.Err? ==> r.error == IndexOutOfRange
      ensures r.Ok? ==> 0 < cols && r.value == At(Value(), k / cols, k % cols)
    {
      if k < 0 || k >= data.Length {
        return Err(IndexOutOfRange);
      }
      FlatSplit(rows, cols, k);
      r := Ok(data[k]);
    }

    /** The unchecked write of one cell. */
    method Write(i: nat, j: nat, x: real)
      requires Valid() && i < rows && j < cols
      modifies data
      ensures Valid()
      ensures Value() == SetAt(old(Value()), i, j, x)
    {
      FlatBound(rows, cols, i, j);
      data[i * cols + j] := x;
    }

    /** operator()(idx0, idx1) for writing: only the addressed cell changes. */
    method Set(i: int, j: int, x: real) returns (r: Result<()>)
      requires Valid()
      modifies data
      ensures Valid()
      ensures r.Ok? <==> 0 <= i < rows && 0 <= j < cols
      ensures r.Err? ==> r.error == IndexOutOfRange && data[..] == old(data[..])
      ensures r.Ok? ==> Value() == SetAt(old(Value()), i, j, x)
    {
      if i < 0 || j < 0 || i >= rows || j >= cols {
        return Err(IndexOutOfRange);
      }
      Write(i, j, x);
      r := Ok(());
    }

    /** operator=(val): every element becomes v. */
    method Fill(v: real)
      requires Valid()
      modifies data
      ensures Valid()
      ensures Value() == Algebra.Values(rows, cols, v)
    {
      var k := 0;
      while k < data.Length
        invariant 0 <= k <= data.Length
        invariant forall p :: 0 <= p < k ==> data[p] == v
      {
        data[k] := v;
        k := k + 1;
      }
      Algebra.ValuesData(rows, cols, v);
      assert data[..] == Algebra.Values(rows, cols, v).data;
    }

    // ----- compound assignment -----

    /** mat0 += mat1: refuses an empty operand, then differing extents; otherwise adds
        mat1 into the buffer element by element. `other` may be this very object. */
    method AddAssign(other: Algmat) returns (r: Result<Matrix>)
      requires Valid() && other.Valid()
      modifies data
      ensures Valid()
      ensures r == Elementwise.Add(old(Value()), old(other.Value()))
      ensures other.data != data ==> other.data[..] == old(other.data[..])
      ensures r.Err? ==> data[..] == old(data[..])
      ensures r.Ok? ==> Value() == r.value
    {
      ghost var a, b := Value(), other.Value();
      if data.Length == 0 || other.data.Length == 0 {
        return Err(EmptyMatrix);
      }
      if rows != other.rows || cols != other.cols {
        return Err(ShapeMismatch);
      }
      ghost var target := Elementwise.Add(a, b).value.data;
      var i := 0;
      while i < data.Length
        invariant 0 <= i <= data.Length
        invariant forall k :: 0 <= k < i ==> data[k] == target[k]
        invariant forall k :: i <= k < data.Length ==> data[k] == a.data[k]
        invariant forall k :: i <= k < other.data.Length ==> other.data[k] == b.data[k]
      {
        data[i] := data[i] + other.data[i];
        i := i + 1;
      }
      assert data[..] == target;
      r := Ok(Value());
    }

    /** mat0 -= mat1, with the checks of +=. */
    method SubAssign(other: Algmat) returns (r: Result<Matrix>)
      requires Valid() && other.Valid()
      modifies data
      ensures Valid()
      ensures r == Elementwise.Sub(old(Value()), old(other.Value()))
      ensures other.data != data ==> other.data[..] == old(other.data[..])
      ensures r.Err? ==> data[..] == old(data[..])
      ensures r.Ok? ==> Value() == r.value
    {
      ghost var a, b := Value(), other.Value();
      if data.Length == 0 || other.data.Length == 0 {
        return Err(EmptyMatrix);
      }
      if rows != other.rows || cols != other.cols {
        return Err(ShapeMismatch);
      }
      ghost var target := Elementwise.Sub(a, b).value.data;
      var i := 0;
      while i < data.Length
        invariant 0 <= i <= data.Length
        invariant forall k :: 0 <= k < i ==> data[k] == target[k]
        invariant forall k :: i <= k < data.Length ==> data[k] == a.data[k]
        invariant forall k :: i <= k < other.data.Length ==> other.data[k] == b.data[k]
      {
        data[i] := data[i] - other.data[i];
        i := i + 1;
      }
      assert data[..] == target;
      r := Ok(Value());
    }

    /** mat0 *= mat1, with the checks of +=. */
    method MulAssign(other: Algmat) returns (r: Result<Matrix>)
      requires Valid() && other.Valid()
      modifies data
      ensures Valid()
      ensures r == Elementwise.Mul(old(Value()), old(other.Value()))
      ensures other.data != data ==> other.data[..] == old(other.data[..])
      ensures r.Err? ==> data[..] == old(data[..])
      ensures r.Ok? ==> Value() == r.value
    {
      ghost var a, b := Value(), other.Value();
      if data.Length == 0 || other.data.Length == 0 {
        return Err(EmptyMatrix);
      }
      if rows != other.rows || cols != other.cols {
        return Err(ShapeMismatch);
      }
      ghost var target := Elementwise.Mul(a, b).value.data;
      var i := 0;
      while i < data.Length
        invariant 0 <= i <= data.Length
        invariant forall k :: 0 <= k < i ==> data[k] == target[k]
        invariant forall k :: i <= k < data.Length ==> data[k] == a.data[k]
        invariant forall k :: i <= k < other.data.Length ==> other.data[k] == b.data[k]
      {
        var x, y := data[i], other.data[i];
        assert target[i] == x * y;
        data[i] := x * y;
        i := i + 1;
      }
      assert data[..] == target;
      r := Ok(Value());
    }

    /** mat0 /= mat1: after the checks of +=, every divisor is checked to be nonzero
        before the first element is written. */
    method DivAssign(other: Algmat) returns (r: Result<Matrix>)
      requires Valid() && other.Valid()
      modifies data
      ensures Valid()
      ensures r == Elementwise.Div(old(Value()), old(other.Value()))
      ensures other.data != data ==> other.data[..] == old(other.data[..])
      ensures r.Err? ==> data[..] == old(data[..])
      ensures r.Ok? ==> Value() == r.value
    {
      ghost var a, b := Value(), other.Value();
      if data.Length == 0 || other.data.Length == 0 {
        return Err(EmptyMatrix);
      }
      if rows != other.rows || cols != other.cols {
        return Err(ShapeMismatch);
      }
      var j := 0;
      while j < other.data.Length
        invariant 0 <= j <= other.data.Length
        invariant forall k :: 0 <= k < j ==> other.data[k] != 0.0
      {
        if other.data[j] == 0.0 {
          return Err(DivisionByZero);
        }
        j := j + 1;
      }
      ghost var target := Elementwise.Div(a, b).value.data;
      var i := 0;
      while i < data.Length
        invariant 0 <= i <= data.Length
        invariant forall k :: 0 <= k < i ==> data[k] == target[k]
        invariant forall k :: i <= k < data.Length ==> data[k] == a.data[k]
        invariant forall k :: i <= k < other.data.Length ==> other.data[k] == b.data[k]
      {
        data[i] := data[i] / other.data[i];
        i := i + 1;
      }
      assert data[..] == target;
      r := Ok(Value());
    }

    // ----- whole-line writes -----

    /** Overwrites row i with s, cell by cell. */
    method WriteRow(i: nat, s: seq<real>)
      requires Valid() && i < rows && |s| == cols
      modifies data
      ensures Valid()
      ensures Value() == WithRow(old(Value()), i, s)
    {
      ghost var m := Value();
      WithRowPrefixNone(m, i, s);
      var c := 0;
      while c < cols
        invariant 0 <= c <= cols && Valid()
        invariant Value() == WithRowPrefix(m, i, s, c)
      {
        Write(i, c, s[c]);
        WithRowPrefixStep(m, i, s, c);
        c := c + 1;
      }
    }

    /** Overwrites column j with s, cell by cell. */
    method WriteCol(j: nat, s: seq<real>)
      requires Valid() && j < cols && |s| == rows
      modifies data
      ensures Valid()
      ensures Value() == WithCol(old(Value()), j, s)
    {
      ghost var m := Value();
      WithColPrefixNone(m, j, s);
      var r := 0;
      while r < rows
        invariant 0 <= r <= rows && Valid()
        invariant Value() == WithColPrefix(m, j, s, r)
      {
        Write(r, j, s[r]);
        WithColPrefixStep(m, j, s, r);
        r := r + 1;
      }
    }

    // ----- swap -----

    /** vswap(fi, ti): rows fi and ti exchange their contents. */
    method VSwap(fi: nat, ti: nat)
      requires Valid() && fi < rows && ti < rows
      modifies data
      ensures Valid()
      ensures Value() == Structure.SwapRows(old(Value()), fi, ti)
    {
      ghost var m := Value();
      var from, to := Row(Value(), fi), Row(Value(), ti);
      WriteRow(fi, to);
      WriteRow(ti, from);
      ExchangeRows(m, fi, ti);
    }

    /** hswap(fi, ti): columns fi and ti exchange their contents. */
    method HSwap(fi: nat, ti: nat)
      requires Valid() && fi < cols && ti < cols
      modifies data
      ensures Valid()
      ensures Value() == Structure.SwapCols(old(Value()), fi, ti)
    {
      ghost var m := Value();
      var from, to := Col(Value(), fi), Col(Value(), ti);
      WriteCol(fi, to);
      WriteCol(ti, from);
      ExchangeCols(m, fi, ti);
    }

    /** swap(fi, ti, axis): rows (axis 0) or columns (axis 1) fi and ti exchanged in place;
        a bad axis or index changes nothing. */
    method Swap(fi: int, ti: int, axis: int := 0) returns (r: Result<()>)
      requires Valid()
      modifies data
      ensures Valid()
      ensures r.Ok? <==> Structure.Swap(old(Value()), fi, ti, axis).Ok?
      ensures r.Err? ==> r.error == IndexOutOfRange && data[..] == old(data[..])
      ensures r.Ok? ==> Value() == Structure.Swap(old(Value()), fi, ti, axis).value
    {
      if axis == 0 && 0 <= fi < rows && 0 <= ti < rows {
        VSwap(fi, ti);
        r := Ok(());
      } else if axis == 1 && 0 <= fi < cols && 0 <= ti < cols {
        HSwap(fi, ti);
        r := Ok(());
      } else {
        r := Err(IndexOutOfRange);
      }
    }

    // ----- sort -----

    /** hsort(desc): every row sorted in turn. */
    method HSort(desc: bool)
      requires Valid()
      modifies data
      ensures Valid()
      ensures Value() == Sorting.SortRows(old(Value()), desc)
    {
      ghost var m := Value();
      ghost var t := Sorting.SortRows(m, desc);
      RowsFromEnds(m, t);
      var i := 0;
      while i < rows
        invariant 0 <= i <= rows && Valid()
        invariant Value() == RowsFrom(m, t, i)
      {
        RowsFromStep(m, t, i);
        var line := Row(Value(), i);
        Sorting.SortedLength(line, desc);
        WriteRow(i, Sorting.SortSeq(line, desc));
        i := i + 1;
      }
    }

    /** vsort(desc): every column sorted in turn. */
    method VSort(desc: bool)
      requires Valid()
      modifies data
      ensures Valid()
      ensures Value() == Sorting.SortCols(old(Value()), desc)
    {
      ghost var m := Value();
      ghost var t := Sorting.SortCols(m, desc);
      ColsFromEnds(m, t);
      var j := 0;
      while j < cols
        invariant 0 <= j <= cols && Valid()
        invariant Value() == ColsFrom(m, t, j)
      {
        ColsFromStep(m, t, j);
        var line := Col(Value(), j);
        Sorting.SortedLength(line, desc);
        WriteCol(j, Sorting.SortSeq(line, desc));
        j := j + 1;
      }
    }

    /** The whole buffer sorted as one line, keeping the shape. */
    method FlatSort(desc: bool)
      requires Valid()
      modifies data
      ensures Valid()
      ensures Value() == Sorting.SortAll(old(Value()), desc)
    {
      var s := Sorting.SortSeq(data[..], desc);
      Sorting.SortedLength(data[..], desc);
      var k := 0;
      while k < data.Length
        invariant 0 <= k <= data.Length
        invariant forall p :: 0 <= p < k ==> data[p] == s[p]
      {
        data[k] := s[k];
        k := k + 1;
      }
      assert data[..] == s;
    }

    /** sort(desc, axis): columns (axis 0), rows (axis 1) or the whole buffer (axis -1)
        sorted in place; any other axis changes nothing. */
    method Sort(desc: bool := false, axis: int := 0) returns (r: Result<()>)
      requires Valid()
      modifies data
      ensures Valid()
      ensures r.Ok? <==> -1 <= axis <= 1
      ensures r.Err? ==> r.error == IndexOutOfRange && data[..] == old(data[..])
      ensures r.Ok? ==> Value() == Sorting.Sort(old(Value()), desc, axis).value
    {
      if axis == 0 {
        VSort(desc);
      } else if axis == 1 {
        HSort(desc);
      } else if axis == -1 {
        FlatSort(desc);
      } else {
        return Err(IndexOutOfRange);
      }
      r := Ok(());
    }
  }
}
