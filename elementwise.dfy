/** The element-by-element arithmetic of the compound operators +=, -=, *= and /= of
    nml::algmat, as values: the checks they make before writing, in the order they make
    them, and the matrix they leave behind. */
module Elementwise {
  import opened Matrices

  /** Both operands hold elements and have the same extents. */
  predicate Compatible(a: Matrix, b: Matrix) {
    !IsEmpty(a) && !IsEmpty(b) && a.rows == b.rows && a.cols == b.cols
  }

  /** The refusal of an incompatible pair: emptiness is checked before the extents. */
  function ShapeError(a: Matrix, b: Matrix): Error {
    if IsEmpty(a) || IsEmpty(b) then EmptyMatrix else ShapeMismatch
  }

  /** No element of the buffer is zero. */
  predicate NonZero(m: Matrix) {
    forall k :: 0 <= k < |m.data| ==> m.data[k] != 0.0
  }

  /** mat0 += mat1. */
  function Add(a: Matrix, b: Matrix): (r: Result<Matrix>)
    ensures r.Ok? <==> Compatible(a, b)
    ensures r.Err? ==> r.error == ShapeError(a, b)
    ensures r.Ok? ==>
      r.value.rows == a.rows && r.value.cols == a.cols &&
      forall k :: 0 <= k < |a.data| ==> r.value.data[k] == a.data[k] + b.data[k]
  {
    if !Compatible(a, b) then Err(ShapeError(a, b))
    else
      var r: Matrix := Mat(a.rows, a.cols, seq(|a.data|, k requires 0 <= k < |a.data| => a.data[k] + b.data[k]));
      Ok(r)
  }

  /** mat0 -= mat1. */
  function Sub(a: Matrix, b: Matrix): (r: Result<Matrix>)
    ensures r.Ok? <==> Compatible(a, b)
    ensures r.Err? ==> r.error == ShapeError(a, b)
    ensures r.Ok? ==>
      r.value.rows == a.rows && r.value.cols == a.cols &&
      forall k :: 0 <= k < |a.data| ==> r.value.data[k] == a.data[k] - b.data[k]
  {
    if !Compatible(a, b) then Err(ShapeError(a, b))
    else
      var r: Matrix := Mat(a.rows, a.cols, seq(|a.data|, k requires 0 <= k < |a.data| => a.data[k] - b.data[k]));
      Ok(r)
  }

  /** mat0 *= mat1. */
  function Mul(a: Matrix, b: Matrix): (r: Result<Matrix>)
    ensures r.Ok? <==> Compatible(a, b)
    ensures r.Err? ==> r.error == ShapeError(a, b)
    ensures r.Ok? ==>
      r.value.rows == a.rows && r.value.cols == a.cols &&
      forall k :: 0 <= k < |a.data| ==> r.value.data[k] == a.data[k] * b.data[k]
  {
    if !Compatible(a, b) then Err(ShapeError(a, b))
    else
      var r: Matrix := Mat(a.rows, a.cols, seq(|a.data|, k requires 0 <= k < |a.data| => a.data[k] * b.data[k]));
      Ok(r)
  }

  /** mat0 /= mat1: after the shape checks, every divisor is checked before any write. */
  function Div(a: Matrix, b: Matrix): (r: Result<Matrix>)
    ensures r.Ok? <==> Compatible(a, b) && NonZero(b)
    ensures r.Err? ==> r.error == if Compatible(a, b) then DivisionByZero else ShapeError(a, b)
    ensures r.Ok? ==>
      r.value.rows == a.rows && r.value.cols == a.cols &&
      forall k :: 0 <= k < |a.data| ==> r.value.data[k] == a.data[k] / b.data[k]
  {
    if !Compatible(a, b) then Err(ShapeError(a, b))
    else if !NonZero(b) then Err(DivisionByZero)
    else
      var r: Matrix := Mat(a.rows, a.cols, seq(|a.data|, k requires 0 <= k < |a.data| => a.data[k] / b.data[k]));
      Ok(r)
  }

  /** The elementwise laws read cell by cell. */
  lemma AddAt(a: Matrix, b: Matrix, i: nat, j: nat)
    requires Compatible(a, b) && i < a.rows && j < a.cols
    ensures At(Add(a, b).value, i, j) == At(a, i, j) + At(b, i, j)
  {
    FlatBound(a.rows, a.cols, i, j);
  }

  /** Subtracting what was added gives the original back. */
  lemma SubUndoesAdd(a: Matrix, b: Matrix)
    requires Compatible(a, b)
    ensures Sub(Add(a, b).value, b) == Ok(a)
  {
    var r := Sub(Add(a, b).value, b).value;
    forall k | 0 <= k < |a.data|
      ensures r.data[k] == a.data[k]
    {
    }
    assert r.data == a.data;
  }

  /** Adding what was subtracted gives the original back. */
  lemma AddUndoesSub(a: Matrix, b: Matrix)
    requires Compatible(a, b)
    ensures Add(Sub(a, b).value, b) == Ok(a)
  {
    var r := Add(Sub(a, b).value, b).value;
    forall k | 0 <= k < |a.data|
      ensures r.data[k] == a.data[k]
    {
    }
    assert r.data == a.data;
  }

  /** Dividing by a nonzero factor undoes multiplying by it. */
  lemma DivUndoesMul(a: Matrix, b: Matrix)
    requires Compatible(a, b) && NonZero(b)
    ensures Div(Mul(a, b).value, b) == Ok(a)
  {
    var r := Div(Mul(a, b).value, b).value;
    forall k | 0 <= k < |a.data|
      ensures r.data[k] == a.data[k]
    {
    }
    assert r.data == a.data;
  }

  /** Multiplying by a divisor undoes dividing by it. */
  lemma MulUndoesDiv(a: Matrix, b: Matrix)
    requires Compatible(a, b) && NonZero(b)
    ensures Mul(Div(a, b).value, b) == Ok(a)
  {
    var r := Mul(Div(a, b).value, b).value;
    forall k | 0 <= k < |a.data|
      ensures r.data[k] == a.data[k]
    {
    }
    assert r.data == a.data;
  }

  /** += and *= do not depend on the order of their operands. */
  lemma AddCommutes(a: Matrix, b: Matrix)
    requires Compatible(a, b)
    ensures Add(a, b) == Add(b, a)
  {
    assert Add(a, b).value.data == Add(b, a).value.data;
  }

  lemma MulCommutes(a: Matrix, b: Matrix)
    requires Compatible(a, b)
    ensures Mul(a, b) == Mul(b, a)
  {
    assert Mul(a, b).value.data == Mul(b, a).value.data;
  }
}
