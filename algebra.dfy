/** The algebraic side of nml::algmat: fill constructors, identity and permutation
    matrices, matrix product, diagonal, distinct values, and the determinant by
    recursive cofactor expansion along the first row with the cofactor matrix and
    adjugate inverse built on it. Over exact reals these are the textbook values. */
module Algebra {
  import opened Matrices
  import Structure
  import Reductions

  // ----- fill constructors -----

  /** values(sz, val): every element is v. */
  function Values(rows: nat, cols: nat, v: real): (m: Matrix)
    ensures m.rows == rows && m.cols == cols
    ensures forall i, j :: 0 <= i < rows && 0 <= j < cols ==> At(m, i, j) == v
  {
    Build(rows, cols, (i: nat, j: nat) => v)
  }

  /** zeros(sz) and ones(sz). */
  function Zeros(rows: nat, cols: nat): (m: Matrix)
    ensures m.rows == rows && m.cols == cols
    ensures forall i, j :: 0 <= i < rows && 0 <= j < cols ==> At(m, i, j) == 0.0
  {
    Values(rows, cols, 0.0)
  }

  function Ones(rows: nat, cols: nat): (m: Matrix)
    ensures m.rows == rows && m.cols == cols
    ensures forall i, j :: 0 <= i < rows && 0 <= j < cols ==> At(m, i, j) == 1.0
  {
    Values(rows, cols, 1.0)
  }

  lemma ValuesData(rows: nat, cols: nat, v: real)
    ensures forall k :: 0 <= k < |Values(rows, cols, v).data| ==> Values(rows, cols, v).data[k] == v
  {
    var m := Values(rows, cols, v);
    forall k | 0 <= k < |m.data|
      ensures m.data[k] == v
    {
      FlatSplit(rows, cols, k);
      assert At(m, k / cols, k % cols) == v;
    }
  }

  /** A non-empty zeros matrix sums to 0 and has maximum and minimum 0. */
  lemma ZerosReductions(rows: nat, cols: nat)
    requires rows > 0 && cols > 0
    ensures At(Reductions.Sum(Zeros(rows, cols), -1).value, 0, 0) == 0.0
    ensures At(Reductions.Max(Zeros(rows, cols), -1).value, 0, 0) == 0.0
    ensures At(Reductions.Min(Zeros(rows, cols), -1).value, 0, 0) == 0.0
  {
    var z := Zeros(rows, cols);
    ValuesData(rows, cols, 0.0);
    Reductions.SumZeros(z.data);
    assert |z.data| > 0 by {
      assert At(z, 0, 0) == 0.0;
      FlatBound(rows, cols, 0, 0);
    }
  }

  // ----- identity and permutation matrices -----

  /** The unit line of length n with its 1 at position q. */
  function Unit(n: nat, q: int): (u: seq<real>)
    ensures |u| == n
  {
    seq(n, k => if k == q then 1.0 else 0.0)
  }

  /** eyes(len): the len-by-len identity. */
  function Eyes(n: nat): (m: Matrix)
    ensures m.rows == n && m.cols == n
    ensures forall i :: 0 <= i < n ==> Row(m, i) == Unit(n, i)
  {
    var m := Build(n, n, (i: nat, j: nat) => if i == j then 1.0 else 0.0);
    assert forall i :: 0 <= i < n ==> Row(m, i) == Unit(n, i);
    m
  }

  /** permut(len, i0, i1): the identity with rows i0 and i1 exchanged. */
  function Permut(n: nat, i0: int, i1: int): (r: Result<Matrix>)
    ensures r.Ok? <==> 0 <= i0 < n && 0 <= i1 < n
    ensures r.Err? ==> r.error == IndexOutOfRange
    ensures r.Ok? ==>
      r.value.rows == n && r.value.cols == n &&
      forall i :: 0 <= i < n ==> Row(r.value, i) == Unit(n, Swapped(i0, i1, i))
  {
    if i0 < 0 || i1 < 0 || i0 >= n || i1 >= n then Err(IndexOutOfRange)
    else
      var p := Build(n, n, (i: nat, j: nat) => if j == Swapped(i0, i1, i) then 1.0 else 0.0);
      assert forall i :: 0 <= i < n ==> Row(p, i) == Unit(n, Swapped(i0, i1, i));
      Ok(p)
  }

  /** The permutation matrix is the identity with its rows swapped. */
  lemma PermutIsSwappedEyes(n: nat, i0: nat, i1: nat)
    requires i0 < n && i1 < n
    ensures Permut(n, i0, i1) == Ok(Structure.SwapRows(Eyes(n), i0, i1))
  {
    RowExt(Permut(n, i0, i1).value, Structure.SwapRows(Eyes(n), i0, i1));
  }

  /** Exchanging a row with itself leaves the identity. */
  lemma PermutSameIsEyes(n: nat, i: nat)
    requires i < n
    ensures Permut(n, i, i) == Ok(Eyes(n))
  {
    RowExt(Permut(n, i, i).value, Eyes(n));
  }

  // ----- matrix product (dot) -----

  /** The inner product of two lines, over their common length. */
  function Inner(u: seq<real>, v: seq<real>): real {
    if u == [] || v == [] then 0.0 else u[0] * v[0] + Inner(u[1..], v[1..])
  }

  lemma {:induction false} InnerComm(u: seq<real>, v: seq<real>)
    ensures Inner(u, v) == Inner(v, u)
  {
    if u != [] && v != [] {
      InnerComm(u[1..], v[1..]);
    }
  }

  lemma {:induction false} InnerZero(u: seq<real>, v: seq<real>)
    requires forall k :: 0 <= k < |u| ==> u[k] == 0.0
    ensures Inner(u, v) == 0.0
  {
    if u != [] && v != [] {
      InnerZero(u[1..], v[1..]);
    }
  }

  /** The inner product with a unit line picks out one element. */
  lemma {:induction false} InnerUnit(n: nat, q: nat, v: seq<real>)
    requires q < n && |v| == n
    ensures Inner(Unit(n, q), v) == v[q]
  {
    var u := Unit(n, q);
    if q == 0 {
      InnerZero(u[1..], v[1..]);
    } else {
      assert u[1..] == Unit(n - 1, q - 1);
      InnerUnit(n - 1, q - 1, v[1..]);
    }
  }

  /** dot(mat): the matrix product, defined when the inner extents agree. */
  function Dot(a: Matrix, b: Matrix): (r: Result<Matrix>)
    ensures r.Ok? <==> a.cols == b.rows
    ensures r.Err? ==> r.error == ShapeMismatch
    ensures r.Ok? ==>
      r.value.rows == a.rows && r.value.cols == b.cols &&
      forall i, j :: 0 <= i < a.rows && 0 <= j < b.cols ==> At(r.value, i, j) == Inner(Row(a, i), Col(b, j))
  {
    if a.cols != b.rows then Err(ShapeMismatch)
    else Ok(Build(a.rows, b.cols, (i: nat, j: nat) => Inner(Row(a, i), Col(b, j))))
  }

  /** A row of the left operand that is the unit line at q selects row q of the right one. */
  lemma DotUnitRow(p: Matrix, a: Matrix, i: nat, q: nat)
    requires p.cols == a.rows && i < p.rows && q < a.rows && Row(p, i) == Unit(p.cols, q)
    ensures Row(Dot(p, a).value, i) == Row(a, q)
  {
    forall j | 0 <= j < a.cols
      ensures Row(Dot(p, a).value, i)[j] == Row(a, q)[j]
    {
      InnerUnit(p.cols, q, Col(a, j));
    }
  }

  /** The identity is a left unit of the product. */
  lemma DotEyesLeft(a: Matrix)
    ensures Dot(Eyes(a.rows), a) == Ok(a)
  {
    var r := Dot(Eyes(a.rows), a).value;
    forall i | 0 <= i < a.rows
      ensures Row(r, i) == Row(a, i)
    {
      DotUnitRow(Eyes(a.rows), a, i, i);
    }
    RowExt(r, a);
  }

  /** The identity is a right unit of the product. */
  lemma DotEyesRight(a: Matrix)
    ensures Dot(a, Eyes(a.cols)) == Ok(a)
  {
    var e := Eyes(a.cols);
    var r := Dot(a, e).value;
    forall i, j | 0 <= i < a.rows && 0 <= j < a.cols
      ensures At(r, i, j) == At(a, i, j)
    {
      assert Col(e, j) == Unit(a.cols, j) by {
        forall k | 0 <= k < a.cols
          ensures Col(e, j)[k] == Unit(a.cols, j)[k]
        {
          assert Row(e, k)[j] == Unit(a.cols, k)[j];
        }
      }
      InnerComm(Row(a, i), Col(e, j));
      InnerUnit(a.cols, j, Row(a, i));
    }
    Ext(r, a);
  }

  /** Multiplying by permut(n, i0, i1) on the left swaps rows i0 and i1. */
  lemma DotPermutSwapsRows(a: Matrix, i0: nat, i1: nat)
    requires i0 < a.rows && i1 < a.rows
    ensures Dot(Permut(a.rows, i0, i1).value, a) == Ok(Structure.SwapRows(a, i0, i1))
  {
    var p := Permut(a.rows, i0, i1).value;
    var r := Dot(p, a).value;
    forall i | 0 <= i < a.rows
      ensures Row(r, i) == Row(Structure.SwapRows(a, i0, i1), i)
    {
      DotUnitRow(p, a, i, Swapped(i0, i1, i));
    }
    RowExt(r, Structure.SwapRows(a, i0, i1));
  }

  /** A permutation matrix is its own inverse. */
  lemma PermutSquared(n: nat, i0: nat, i1: nat)
    requires i0 < n && i1 < n
    ensures Dot(Permut(n, i0, i1).value, Permut(n, i0, i1).value) == Ok(Eyes(n))
  {
    var p := Permut(n, i0, i1).value;
    DotPermutSwapsRows(p, i0, i1);
    PermutIsSwappedEyes(n, i0, i1);
    Structure.SwapTwice(Eyes(n), i0, i1, 0);
  }

  // ----- determinant by cofactor expansion -----

  /** isSquared(): as many rows as columns, so that t() keeps the shape. */
  predicate IsSquared(m: Matrix): (b: bool)
    ensures b <==> Structure.Transpose(m).rows == m.rows && Structure.Transpose(m).cols == m.cols
    ensures b ==> |m.data| == m.rows * m.rows
  {
    m.rows == m.cols
  }

  /** The matrix without row i and column j. */
  function MinorAt(m: Matrix, i: nat, j: nat): (r: Matrix)
    requires i < m.rows && j < m.cols
    ensures r.rows == m.rows - 1 && r.cols == m.cols - 1
  {
    Structure.DropCol(Structure.DropRow(m, i), j)
  }

  lemma MinorAtCell(m: Matrix, i: nat, j: nat, r: nat, c: nat)
    requires i < m.rows && j < m.cols && r < m.rows - 1 && c < m.cols - 1
    ensures At(MinorAt(m, i, j), r, c) == At(m, Structure.Skip(i, r), Structure.Skip(j, c))
  {
    var d := Structure.DropRow(m, i);
    assert Col(MinorAt(m, i, j), c)[r] == Col(d, Structure.Skip(j, c))[r];
    assert Row(d, r)[Structure.Skip(j, c)] == Row(m, Structure.Skip(i, r))[Structure.Skip(j, c)];
  }

  /** (-1)^k * x. */
  function Signed(k: int, x: real): real {
    if k % 2 == 0 then x else -x
  }

  /** The term of column j in a first-row expansion: the element x times the expansion
      d of its minor, signed by the column's parity. */
  function Term(j: nat, x: real, d: real): real {
    Signed(j, x * d)
  }

  /** expansion(mat): a 1x1 matrix is its own element; a larger one is the signed sum
      over its first row of element times the expansion of the matching minor. The
      0x0 matrix, reached only as the minor of a 1x1 matrix's cofactor, counts as 1. */
  function Expansion(m: Matrix): (r: real)
    requires IsSquared(m)
    ensures m.rows == 0 ==> r == 1.0
    ensures m.rows == 1 ==> r == m.data[0]
    decreases m.rows, 1
  {
    if m.rows == 0 then 1.0
    else if m.rows == 1 then At(m, 0, 0)
    else ExpandFrom(m, 0)
  }

  /** The terms j, j+1, ... of the first-row expansion. */
  function ExpandFrom(m: Matrix, j: nat): real
    requires IsSquared(m) && 0 < m.rows && j <= m.cols
    decreases m.rows, 0, m.cols - j
  {
    if j == m.cols then 0.0
    else Term(j, At(m, 0, j), Expansion(MinorAt(m, 0, j))) + ExpandFrom(m, j + 1)
  }

  lemma ExpandStep(m: Matrix, j: nat)
    requires IsSquared(m) && 0 < m.rows && j < m.cols
    ensures ExpandFrom(m, j) == Term(j, At(m, 0, j), Expansion(MinorAt(m, 0, j))) + ExpandFrom(m, j + 1)
  {
  }

  /** det(): the cofactor expansion of a non-empty square matrix. */
  function Det(m: Matrix): (r: Result<real>)
    ensures r.Ok? <==> IsSquared(m) && m.rows > 0
    ensures r.Err? ==> r.error == if IsSquared(m) then EmptyMatrix else NonSquareMatrix
  {
    if !IsSquared(m) then Err(NonSquareMatrix)
    else if m.rows == 0 then Err(EmptyMatrix)
    else Ok(Expansion(m))
  }

  /** The rest of an expansion whose remaining first-row elements are 0 is 0. */
  lemma {:induction false} ExpandFromZeroHead(m: Matrix, j: nat)
    requires IsSquared(m) && 0 < m.rows && j <= m.cols
    requires forall k :: j <= k < m.cols ==> At(m, 0, k) == 0.0
    ensures ExpandFrom(m, j) == 0.0
    decreases m.cols - j
  {
    if j < m.cols {
      ExpandFromZeroHead(m, j + 1);
    }
  }

  /** The identity's minor at a diagonal cell is the smaller identity. */
  lemma EyesMinorDiagonal(n: nat, i: nat)
    requires i < n
    ensures MinorAt(Eyes(n), i, i) == Eyes(n - 1)
  {
    var e := Eyes(n);
    forall r, c | 0 <= r < n - 1 && 0 <= c < n - 1
      ensures At(MinorAt(e, i, i), r, c) == At(Eyes(n - 1), r, c)
    {
      MinorAtCell(e, i, i, r, c);
      assert Row(e, Structure.Skip(i, r))[Structure.Skip(i, c)] == At(e, Structure.Skip(i, r), Structure.Skip(i, c));
      assert Row(Eyes(n - 1), r)[c] == At(Eyes(n - 1), r, c);
    }
    Ext(MinorAt(e, i, i), Eyes(n - 1));
  }

  /** det(eyes(n)) == 1. */
  lemma {:induction false} DetEyes(n: nat)
    requires n > 0
    ensures Det(Eyes(n)) == Ok(1.0)
  {
    EyesExpansion(n);
  }

  lemma {:induction false} EyesExpansion(n: nat)
    ensures Expansion(Eyes(n)) == 1.0
  {
    var e := Eyes(n);
    if n == 1 {
      assert Row(e, 0)[0] == At(e, 0, 0);
    } else if n > 1 {
      forall k | 1 <= k < n
        ensures At(e, 0, k) == 0.0
      {
        assert Row(e, 0)[k] == At(e, 0, k);
      }
      ExpandFromZeroHead(e, 1);
      assert Row(e, 0)[0] == At(e, 0, 0);
      EyesMinorDiagonal(n, 0);
      EyesExpansion(n - 1);
    }
  }

  /** A matrix with a row of zeros has determinant 0. */
  lemma {:induction false} ZeroRowExpansion(m: Matrix, z: nat)
    requires IsSquared(m) && z < m.rows
    requires forall c :: 0 <= c < m.cols ==> At(m, z, c) == 0.0
    ensures Expansion(m) == 0.0
    decreases m.rows
  {
    if m.rows > 1 {
      if z == 0 {
        ExpandFromZeroHead(m, 0);
      } else {
        ZeroRowTerms(m, z, 0);
      }
    }
  }

  lemma {:induction false} ZeroRowTerms(m: Matrix, z: nat, j: nat)
    requires IsSquared(m) && 1 < m.rows && 0 < z < m.rows && j <= m.cols
    requires forall c :: 0 <= c < m.cols ==> At(m, z, c) == 0.0
    ensures ExpandFrom(m, j) == 0.0
    decreases m.rows, m.cols - j
  {
    if j < m.cols {
      var minor := MinorAt(m, 0, j);
      var zm: nat := z - 1;
      forall c | 0 <= c < minor.cols
        ensures At(minor, zm, c) == 0.0
      {
        MinorAtCell(m, 0, j, zm, c);
      }
      ZeroRowExpansion(minor, zm);
      ZeroRowTerms(m, z, j + 1);
    }
  }

  /** The 1x1 determinant is the element itself. */
  lemma Det1(m: Matrix)
    requires m.rows == 1 && m.cols == 1
    ensures Det(m) == Ok(m.data[0])
  {
    var x := Expansion(m);
    assert x == At(m, 0, 0);
    FirstCell(m);
  }

  lemma FirstCell(m: Matrix)
    requires m.rows > 0 && m.cols > 0
    ensures At(m, 0, 0) == m.data[0]
  {
    assert Flat(m.cols, 0, 0) == 0;
  }

  /** The 2x2 determinant is ad - bc. */
  lemma Det2(m: Matrix)
    requires m.rows == 2 && m.cols == 2
    ensures Det(m) == Ok(At(m, 0, 0) * At(m, 1, 1) - At(m, 0, 1) * At(m, 1, 0))
  {
    Expansion2(m);
  }

  lemma Expansion2(m: Matrix)
    requires m.rows == 2 && m.cols == 2
    ensures Expansion(m) == At(m, 0, 0) * At(m, 1, 1) - At(m, 0, 1) * At(m, 1, 0)
  {
    Term2(m, 0);
    Term2(m, 1);
    ExpandStep(m, 0);
    ExpandStep(m, 1);
    assert ExpandFrom(m, 2) == 0.0;
    assert Expansion(m) == ExpandFrom(m, 0);
  }

  /** The term of column j in the expansion of a 2x2 matrix. */
  lemma Term2(m: Matrix, j: nat)
    requires m.rows == 2 && m.cols == 2 && j < 2
    ensures Term(j, At(m, 0, j), Expansion(MinorAt(m, 0, j))) ==
      if j == 0 then At(m, 0, 0) * At(m, 1, 1) else -(At(m, 0, 1) * At(m, 1, 0))
  {
    var x, a := MinorAt(m, 0, j), At(m, 0, j);
    Minor2(m, 0, j);
    assert Term(j, a, Expansion(x)) == Term(j, a, At(m, 1, 1 - j));
  }

  /** Each minor of a 2x2 matrix is the 1x1 matrix of the opposite corner. */
  lemma Minor2(m: Matrix, i: nat, j: nat)
    requires m.rows == 2 && m.cols == 2 && i < 2 && j < 2
    ensures Expansion(MinorAt(m, i, j)) == At(m, 1 - i, 1 - j)
  {
    var x := MinorAt(m, i, j);
    assert Expansion(x) == At(x, 0, 0);
    MinorAtCell(m, i, j, 0, 0);
    assert Structure.Skip(i, 0) == 1 - i && Structure.Skip(j, 0) == 1 - j;
  }

  /** A 2x2 buffer lists the four cells row by row. */
  lemma Cells2(v: Matrix)
    requires v.rows == 2 && v.cols == 2
    ensures v.data == [At(v, 0, 0), At(v, 0, 1), At(v, 1, 0), At(v, 1, 1)]
  {
    Cell2(v, 0, 0);
    Cell2(v, 0, 1);
    Cell2(v, 1, 0);
    Cell2(v, 1, 1);
  }

  lemma Cell2(v: Matrix, i: nat, j: nat)
    requires v.rows == 2 && v.cols == 2 && i < 2 && j < 2
    ensures |v.data| == 4 && v.data[2 * i + j] == At(v, i, j)
  {
    assert Flat(v.cols, i, j) == 2 * i + j;
  }

  /** det of the exchange of the two rows of a 2x2 identity is -1. */
  lemma DetPermut2()
    ensures Det(Permut(2, 0, 1).value) == Ok(-1.0)
  {
    var p := Permut(2, 0, 1).value;
    Det2(p);
    assert Row(p, 0)[0] == At(p, 0, 0) && Row(p, 0)[1] == At(p, 0, 1);
    assert Row(p, 1)[0] == At(p, 1, 0) && Row(p, 1)[1] == At(p, 1, 1);
  }

  // ----- cofactor matrix and inverse -----

  /** The signed minor determinant at (i, j). */
  function Cofactor(m: Matrix, i: nat, j: nat): real
    requires IsSquared(m) && i < m.rows && j < m.cols
  {
    Signed(i + j, Expansion(MinorAt(m, i, j)))
  }

  /** cof(): the matrix of cofactors of a non-empty square matrix. */
  function Cof(m: Matrix): (r: Result<Matrix>)
    ensures r.Ok? <==> IsSquared(m) && m.rows > 0
    ensures r.Err? ==> r.error == if IsSquared(m) then EmptyMatrix else NonSquareMatrix
    ensures r.Ok? ==>
      r.value.rows == m.rows && r.value.cols == m.cols &&
      forall i, j :: 0 <= i < m.rows && 0 <= j < m.cols ==> At(r.value, i, j) == Cofactor(m, i, j)
  {
    if !IsSquared(m) then Err(NonSquareMatrix)
    else if m.rows == 0 then Err(EmptyMatrix)
    else Ok(Build(m.rows, m.cols, (i: nat, j: nat) =>
      if i < m.rows && j < m.cols then Cofactor(m, i, j) else 0.0))
  }

  /** inv(): the adjugate (the transposed cofactor matrix) divided by the determinant. */
  function Inv(m: Matrix): (r: Result<Matrix>)
    ensures r.Ok? <==> IsSquared(m) && m.rows > 0 && Expansion(m) != 0.0
    ensures r.Err? ==>
      r.error == if !IsSquared(m) then NonSquareMatrix else if m.rows == 0 then EmptyMatrix else SingularMatrix
    ensures r.Ok? ==>
      r.value.rows == m.rows && r.value.cols == m.cols &&
      forall i, j :: 0 <= i < m.rows && 0 <= j < m.cols ==> At(r.value, i, j) == Cofactor(m, j, i) / Expansion(m)
  {
    if !IsSquared(m) then Err(NonSquareMatrix)
    else if m.rows == 0 then Err(EmptyMatrix)
    else
      var d := Expansion(m);
      if d == 0.0 then Err(SingularMatrix)
      else
        var adj := Structure.Transpose(Cof(m).value);
        var r := Build(m.rows, m.cols, (i: nat, j: nat) => At(adj, i, j) / d);
        assert forall i, j :: 0 <= i < m.rows && 0 <= j < m.cols ==> At(r, i, j) == Cofactor(m, j, i) / d by {
          forall i, j | 0 <= i < m.rows && 0 <= j < m.cols
            ensures At(r, i, j) == Cofactor(m, j, i) / d
          {
            Structure.TransposeAt(Cof(m).value, i, j);
          }
        }
        Ok(r)
  }

  /** Off the diagonal, the identity's minor keeps a zero row: the one that held the 1 of
      the deleted column. */
  lemma EyesMinorOffDiagonal(n: nat, i: nat, j: nat)
    requires i < n && j < n && i != j
    ensures Expansion(MinorAt(Eyes(n), i, j)) == 0.0
  {
    var e := Eyes(n);
    var minor := MinorAt(e, i, j);
    var z: nat := if j < i then j else j - 1;
    assert Structure.Skip(i, z) == j;
    forall c | 0 <= c < n - 1
      ensures At(minor, z, c) == 0.0
    {
      MinorAtCell(e, i, j, z, c);
      assert Row(e, j)[Structure.Skip(j, c)] == At(e, j, Structure.Skip(j, c));
    }
    ZeroRowExpansion(minor, z);
  }

  lemma EyesAt(n: nat, i: nat, j: nat)
    requires i < n && j < n
    ensures At(Eyes(n), i, j) == if i == j then 1.0 else 0.0
  {
    assert Row(Eyes(n), i)[j] == At(Eyes(n), i, j);
  }

  /** The identity's cofactors are its own cells. */
  lemma EyesCofactor(n: nat, i: nat, j: nat)
    requires i < n && j < n
    ensures Cofactor(Eyes(n), i, j) == if i == j then 1.0 else 0.0
  {
    if i == j {
      EyesMinorDiagonal(n, i);
      EyesExpansion(n - 1);
      assert (i + j) % 2 == 0;
    } else {
      EyesMinorOffDiagonal(n, i, j);
    }
  }

  /** The cofactor matrix of the identity is the identity. */
  lemma CofEyes(n: nat)
    requires n > 0
    ensures Cof(Eyes(n)) == Ok(Eyes(n))
  {
    var e := Eyes(n);
    var c := Cof(e).value;
    forall i, j | 0 <= i < n && 0 <= j < n
      ensures At(c, i, j) == At(e, i, j)
    {
      EyesAt(n, i, j);
      EyesCofactor(n, i, j);
    }
    Ext(c, e);
  }

  /** inv(eyes(n)) == eyes(n). */
  lemma InvEyes(n: nat)
    requires n > 0
    ensures Inv(Eyes(n)) == Ok(Eyes(n))
  {
    var e := Eyes(n);
    EyesExpansion(n);
    CofEyes(n);
    var v := Inv(e).value;
    forall i, j | 0 <= i < n && 0 <= j < n
      ensures At(v, i, j) == At(e, i, j)
    {
      assert At(Cof(e).value, j, i) == Cofactor(e, j, i);
      assert Row(e, i)[j] == At(e, i, j) && Row(e, j)[i] == At(e, j, i);
    }
    Ext(v, e);
  }

  /** The 2x2 inverse is [[d, -b], [-c, a]] / (ad - bc). */
  lemma Inv2(m: Matrix)
    requires m.rows == 2 && m.cols == 2
    requires At(m, 0, 0) * At(m, 1, 1) - At(m, 0, 1) * At(m, 1, 0) != 0.0
    ensures var d := At(m, 0, 0) * At(m, 1, 1) - At(m, 0, 1) * At(m, 1, 0);
      Inv(m).Ok? &&
      At(Inv(m).value, 0, 0) == At(m, 1, 1) / d && At(Inv(m).value, 0, 1) == -At(m, 0, 1) / d &&
      At(Inv(m).value, 1, 0) == -At(m, 1, 0) / d && At(Inv(m).value, 1, 1) == At(m, 0, 0) / d
  {
    Det2(m);
    var v := Inv(m).value;
    Minor2(m, 0, 0);
    Minor2(m, 0, 1);
    Minor2(m, 1, 0);
    Minor2(m, 1, 1);
    assert At(v, 0, 0) == Cofactor(m, 0, 0) / Expansion(m);
    assert At(v, 0, 1) == Cofactor(m, 1, 0) / Expansion(m);
    assert At(v, 1, 0) == Cofactor(m, 0, 1) / Expansion(m);
    assert At(v, 1, 1) == Cofactor(m, 1, 1) / Expansion(m);
  }

  /** [[1, 2], [3, 4]] has determinant -2. */
  lemma ExampleDet(m: Matrix)
    requires m.rows == 2 && m.cols == 2 && m.data == [1.0, 2.0, 3.0, 4.0]
    ensures Det(m) == Ok(-2.0)
  {
    Cells2(m);
    Det2(m);
  }

  /** The buffer of a 2x2 inverse, row by row. */
  lemma Inv2Data(m: Matrix)
    requires m.rows == 2 && m.cols == 2
    requires At(m, 0, 0) * At(m, 1, 1) - At(m, 0, 1) * At(m, 1, 0) != 0.0
    ensures var d := At(m, 0, 0) * At(m, 1, 1) - At(m, 0, 1) * At(m, 1, 0);
      Inv(m).Ok? &&
      Inv(m).value.data == [At(m, 1, 1) / d, -At(m, 0, 1) / d, -At(m, 1, 0) / d, At(m, 0, 0) / d]
  {
    Inv2(m);
    Cells2(Inv(m).value);
  }

  /** [[1, 2], [3, 4]] has inverse [[-2, 1], [1.5, -0.5]]. */
  lemma ExampleInv(m: Matrix)
    requires m.rows == 2 && m.cols == 2 && m.data == [1.0, 2.0, 3.0, 4.0]
    ensures Inv(m).Ok? && Inv(m).value.data == [-2.0, 1.0, 1.5, -0.5]
  {
    Cells2(m);
    Inv2Data(m);
  }

  // ----- diagonal -----

  /** diag(): the main diagonal of a square matrix as a column; a row or column vector
      that is not 1x1 becomes the square matrix with it on the diagonal. */
  function Diag(m: Matrix): (r: Result<Matrix>)
    ensures r.Ok? <==> IsSquared(m) || m.rows == 1 || m.cols == 1
    ensures r.Err? ==> r.error == NonSquareMatrix
    ensures r.Ok? && IsSquared(m) ==>
      r.value.rows == m.rows && r.value.cols == 1 &&
      forall i :: 0 <= i < m.rows ==> At(r.value, i, 0) == At(m, i, i)
    ensures r.Ok? && !IsSquared(m) ==> var n := |m.data|;
      r.value.rows == n && r.value.cols == n &&
      forall i, j :: 0 <= i < n && 0 <= j < n ==> At(r.value, i, j) == if i == j then m.data[i] else 0.0
  {
    if IsSquared(m) then Ok(Build(m.rows, 1, (i: nat, j: nat) => At(m, i, i)))
    else if m.rows == 1 || m.cols == 1 then
      var n := |m.data|;
      Ok(Build(n, n, (i: nat, j: nat) => if i == j && i < n then m.data[i] else 0.0))
    else Err(NonSquareMatrix)
  }

  /** Taking the diagonal of the diagonal matrix of a column vector gives the vector back. */
  lemma DiagRoundTrip(v: Matrix)
    requires v.cols == 1
    ensures Diag(v).Ok? && Diag(Diag(v).value) == Ok(v)
  {
    var d := Diag(v).value;
    var back := Diag(d).value;
    forall i, j | 0 <= i < v.rows && 0 <= j < 1
      ensures At(back, i, j) == At(v, i, j)
    {
      assert Flat(1, i, 0) == i;
    }
    Ext(back, v);
  }

  // ----- distinct values -----

  /** The distinct elements of s in order of first occurrence. */
  function Distinct(s: seq<real>): (d: seq<real>)
    ensures forall i, j :: 0 <= i < j < |d| ==> d[i] != d[j]
    ensures forall x :: x in d <==> x in s
  {
    if s == [] then []
    else
      var d := Distinct(s[..|s| - 1]);
      assert forall x :: x in s <==> x in s[..|s| - 1] || x == s[|s| - 1] by {
        assert s == s[..|s| - 1] + [s[|s| - 1]];
      }
      if s[|s| - 1] in d then d else d + [s[|s| - 1]]
  }

  /** uniq(): the distinct elements of the matrix as one row. */
  function Uniq(m: Matrix): (r: Matrix)
    ensures r.rows == 1
    ensures forall i, j :: 0 <= i < j < r.cols ==> At(r, 0, i) != At(r, 0, j)
    ensures forall x :: x in Row(r, 0) <==> x in m.data
  {
    var r: Matrix := Mat(1, |Distinct(m.data)|, Distinct(m.data));
    SingleRowData(r);
    r
  }
}
