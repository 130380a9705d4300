/** The 2-D matrix value underlying nml::algmat: a (rows, cols) shape over a
    row-major flat buffer of reals, with the index arithmetic proved once here. */
module Matrices {

  /** The error kinds an engine operation reports where the original aborts on an assertion. */
  datatype Error =
    | EmptyMatrix         // an operand holds no element
    | ShapeMismatch       // extents differ where they must agree
    | IndexOutOfRange     // a row, column or linear index, or an axis selector, is outside its domain
    | InvalidInterval     // a slicing interval below 1
    | DivisionByZero      // a divisor element is zero
    | NonSquareMatrix     // determinant, cofactor or inverse of a non-square matrix
    | SingularMatrix      // inverse of a matrix whose determinant is zero
    | IndivisibleReshape  // the element count is not a multiple of the requested row count

  datatype Result<T> = Ok(value: T) | Err(error: Error)

  /** A shape and a flat row-major buffer; `Matrix` is the well-formed kind. */
  datatype Mat = Mat(rows: nat, cols: nat, data: seq<real>)

  type Matrix = m: Mat | |m.data| == m.rows * m.cols witness Mat(0, 0, [])

  /** True iff the matrix holds no element (ndarray::empty). */
  predicate IsEmpty(m: Matrix) {
    |m.data| == 0
  }

  /** The row-major offset of cell (i, j) in a buffer with `c` columns. */
  function Flat(c: nat, i: int, j: int): int {
    i * c + j
  }

  lemma MulLe(a: int, b: int, c: nat)
    requires a <= b
    ensures a * c <= b * c
  {
    assert b * c - a * c == (b - a) * c;
  }

  lemma FlatBound(r: nat, c: nat, i: nat, j: nat)
    requires i < r && j < c
    ensures 0 <= Flat(c, i, j) < r * c
  {
    MulLe(i + 1, r, c);
  }

  lemma FlatDivMod(c: nat, i: nat, j: nat)
    requires j < c
    ensures Flat(c, i, j) / c == i && Flat(c, i, j) % c == j
  {
    var k := Flat(c, i, j);
    var q, m := k / c, k % c;
    assert q * c + m == i * c + j;
    if q < i {
      MulLe(q + 1, i, c);
    } else if q > i {
      MulLe(i + 1, q, c);
    }
  }

  lemma FlatSplit(r: nat, c: nat, k: nat)
    requires k < r * c
    ensures c > 0 && 0 <= k / c < r && k % c < c && Flat(c, k / c, k % c) == k
  {
    if k / c >= r {
      MulLe(r, k / c, c);
    }
  }

  lemma FlatInjective(c: nat, i: nat, j: nat, i': nat, j': nat)
    requires j < c && j' < c
    ensures Flat(c, i, j) == Flat(c, i', j') <==> i == i' && j == j'
  {
    FlatDivMod(c, i, j);
    FlatDivMod(c, i', j');
  }

  /** Cell (i, j) of `m`, and 0 outside the shape. */
  function At(m: Matrix, i: int, j: int): real {
    if 0 <= i < m.rows && 0 <= j < m.cols then
      FlatBound(m.rows, m.cols, i, j);
      m.data[Flat(m.cols, i, j)]
    else 0.0
  }

  /** Row i and column j as sequences. */
  function Row(m: Matrix, i: int): (s: seq<real>)
    ensures |s| == m.cols
  {
    seq(m.cols, j => At(m, i, j))
  }

  function Col(m: Matrix, j: int): (s: seq<real>)
    ensures |s| == m.rows
  {
    seq(m.rows, i => At(m, i, j))
  }

  /** A one-row matrix's only row is its buffer. */
  lemma SingleRowData(m: Matrix)
    requires m.rows == 1
    ensures Row(m, 0) == m.data
  {
    forall j | 0 <= j < m.cols
      ensures Row(m, 0)[j] == m.data[j]
    {
      assert Flat(m.cols, 0, j) == j;
    }
  }

  function Cell(r: nat, c: nat, f: (nat, nat) -> real, k: int): real
    requires 0 <= k < r * c
  {
    FlatSplit(r, c, k);
    f(k / c, k % c)
  }

  /** The r-by-c matrix whose cell (i, j) is f(i, j). */
  function Build(r: nat, c: nat, f: (nat, nat) -> real): (m: Matrix)
    ensures m.rows == r && m.cols == c
    ensures forall i: nat, j: nat :: i < r && j < c ==> At(m, i, j) == f(i, j)
  {
    var m := Mat(r, c, seq(r * c, k requires 0 <= k < r * c => Cell(r, c, f, k)));
    BuildAt(m, f);
    m
  }

  lemma BuildAt(m: Mat, f: (nat, nat) -> real)
    requires |m.data| == m.rows * m.cols
    requires forall k :: 0 <= k < m.rows * m.cols ==> m.data[k] == Cell(m.rows, m.cols, f, k)
    ensures forall i: nat, j: nat :: i < m.rows && j < m.cols ==> At(m, i, j) == f(i, j)
  {
    forall i: nat, j: nat | i < m.rows && j < m.cols
      ensures At(m, i, j) == f(i, j)
    {
      FlatBound(m.rows, m.cols, i, j);
      FlatDivMod(m.cols, i, j);
    }
  }

  /** Two matrices with the same shape and the same cells are equal. */
  lemma Ext(a: Matrix, b: Matrix)
    requires a.rows == b.rows && a.cols == b.cols
    requires forall i, j :: 0 <= i < a.rows && 0 <= j < a.cols ==> At(a, i, j) == At(b, i, j)
    ensures a == b
  {
    forall k | 0 <= k < |a.data|
      ensures a.data[k] == b.data[k]
    {
      FlatSplit(a.rows, a.cols, k);
      assert At(a, k / a.cols, k % a.cols) == At(b, k / a.cols, k % a.cols);
    }
  }

  /** Two matrices with the same shape and the same rows are equal. */
  lemma RowExt(a: Matrix, b: Matrix)
    requires a.rows == b.rows && a.cols == b.cols
    requires forall i :: 0 <= i < a.rows ==> Row(a, i) == Row(b, i)
    ensures a == b
  {
    forall i, j | 0 <= i < a.rows && 0 <= j < a.cols
      ensures At(a, i, j) == At(b, i, j)
    {
      assert Row(a, i)[j] == Row(b, i)[j];
    }
    Ext(a, b);
  }

  /** Two matrices with the same shape and the same columns are equal. */
  lemma ColExt(a: Matrix, b: Matrix)
    requires a.rows == b.rows && a.cols == b.cols
    requires forall j :: 0 <= j < a.cols ==> Col(a, j) == Col(b, j)
    ensures a == b
  {
    forall i, j | 0 <= i < a.rows && 0 <= j < a.cols
      ensures At(a, i, j) == At(b, i, j)
    {
      assert Col(a, j)[i] == Col(b, j)[i];
    }
    Ext(a, b);
  }

  /** `m` with cell (i, j) replaced by x: the indexed write operator()(idx0, idx1). */
  function SetAt(m: Matrix, i: nat, j: nat, x: real): (r: Matrix)
    requires i < m.rows && j < m.cols
    ensures r.rows == m.rows && r.cols == m.cols
    ensures forall i', j' :: 0 <= i' < m.rows && 0 <= j' < m.cols ==>
      At(r, i', j') == if i' == i && j' == j then x else At(m, i', j')
  {
    FlatBound(m.rows, m.cols, i, j);
    var r: Matrix := Mat(m.rows, m.cols, m.data[Flat(m.cols, i, j) := x]);
    forall i', j' | 0 <= i' < m.rows && 0 <= j' < m.cols
      ensures At(r, i', j') == if i' == i && j' == j then x else At(m, i', j')
    {
      FlatBound(m.rows, m.cols, i', j');
      FlatInjective(m.cols, i, j, i', j');
    }
    r
  }

  /** The index that a swap of a and b sends i to. */
  function Swapped(a: int, b: int, i: int): int {
    if i == a then b else if i == b then a else i
  }
}
