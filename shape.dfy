/** Shapes, contiguous row-major strides and the index <-> offset correspondence
    that every `MultiArray` relies on. */
module Shape {

  /** The element count of a shape, `shape.reduce(1, *)`. */
  function Product(shape: seq<int>): int
  {
    if shape == [] then 1 else shape[0] * Product(shape[1..])
  }

  /** Every dimension is non-negative (the first construction assertion). */
  predicate ValidShape(shape: seq<int>)
  {
    forall i :: 0 <= i < |shape| ==> shape[i] >= 0
  }

  lemma {:induction false} ProductNonNegative(shape: seq<int>)
    requires ValidShape(shape)
    ensures Product(shape) >= 0
  {
    if shape != [] {
      ProductNonNegative(shape[1..]);
    }
  }

  /** Contiguous row-major strides: each stride is the product of the dimensions after it. */
  function RowMajorStrides(shape: seq<int>): (strides: seq<int>)
    ensures |strides| == |shape|
  {
    if shape == [] then [] else [Product(shape[1..])] + RowMajorStrides(shape[1..])
  }

  /** The closed form: `strides[i] == product(shape[i+1..])`. */
  lemma {:induction false} StridesClosedForm(shape: seq<int>, i: int)
    requires 0 <= i < |shape|
    ensures RowMajorStrides(shape)[i] == Product(shape[i + 1..])
  {
    if i > 0 {
      StridesClosedForm(shape[1..], i - 1);
      assert shape[1..][i..] == shape[i + 1..];
    }
  }

  /** The recurrence the stride loop computes: the last stride is 1 and every other stride is
      the next dimension times the next stride. */
  lemma StridesRecurrence(shape: seq<int>, i: int)
    requires 0 <= i < |shape|
    ensures i == |shape| - 1 ==> RowMajorStrides(shape)[i] == 1
    ensures i < |shape| - 1 ==> RowMajorStrides(shape)[i] == shape[i + 1] * RowMajorStrides(shape)[i + 1]
  {
    StridesClosedForm(shape, i);
    if i < |shape| - 1 {
      StridesClosedForm(shape, i + 1);
      assert shape[i + 1..][1..] == shape[i + 2..];
    } else {
      assert shape[i + 1..] == [];
    }
  }

  /** The strides of a [5, 4, 3, 2] and of a [5] array, as CoreML computes them. */
  lemma StridesMatchCoreML()
    ensures RowMajorStrides([5, 4, 3, 2]) == [24, 6, 2, 1]
    ensures RowMajorStrides([5]) == [1]
  {
    var s := [5, 4, 3, 2];
    assert s[1..] == [4, 3, 2] && [4, 3, 2][1..] == [3, 2] && [3, 2][1..] == [2] && [2][1..] == [];
    assert Product([2]) == 2 && Product([3, 2]) == 6 && Product([4, 3, 2]) == 24;
    assert [5][1..] == [];
  }

  /** `contiguousStrides(shape:)`: fills a fresh buffer from the last dimension backwards.
      The source writes index `shape.count - 1` first, so a rank-0 shape is out of range. */
  method ContiguousStrides(shape: seq<int>) returns (strides: array<int>)
    requires |shape| >= 1
    ensures fresh(strides)
    ensures strides[..] == RowMajorStrides(shape)
  {
    var n := |shape|;
    StridesRecurrence(shape, n - 1);
    strides := new int[n];
    strides[n - 1] := 1;
    var i := n - 1;
    while i > 0
      invariant 0 <= i <= n - 1
      invariant forall j :: i <= j < n ==> strides[j] == RowMajorStrides(shape)[j]
    {
      StridesRecurrence(shape, i - 1);
      strides[i - 1] := shape[i] * strides[i];
      i := i - 1;
    }
  }

  /** The flat offset of a multi-index: the sum of `index[i] * strides[i]`. */
  function Offset(index: seq<int>, strides: seq<int>): int
    requires |index| == |strides|
  {
    if index == [] then 0 else index[0] * strides[0] + Offset(index[1..], strides[1..])
  }

  /** An index of the right rank whose every component lies inside its dimension. */
  predicate ValidIndex(index: seq<int>, shape: seq<int>)
  {
    |index| == |shape| && forall i :: 0 <= i < |index| ==> 0 <= index[i] < shape[i]
  }

  lemma MulMonotone(a: int, b: int, p: int)
    requires a <= b && p >= 0
    ensures a * p <= b * p
  {
  }

  lemma MulStep(a: int, b: int, p: int)
    requires a < b && p >= 0
    ensures a * p + p <= b * p
  {
    MulMonotone(a + 1, b, p);
    assert (a + 1) * p == a * p + p;
  }

  /** Every valid index maps into the buffer. */
  lemma {:induction false} OffsetInBounds(index: seq<int>, shape: seq<int>)
    requires ValidShape(shape) && ValidIndex(index, shape)
    ensures 0 <= Offset(index, RowMajorStrides(shape)) < Product(shape)
  {
    if shape != [] {
      var s := RowMajorStrides(shape);
      ProductNonNegative(shape[1..]);
      assert ValidIndex(index[1..], shape[1..]);
      OffsetInBounds(index[1..], shape[1..]);
      var p := s[0];
      var rest := Offset(index[1..], s[1..]);
      assert Offset(index, s) == index[0] * p + rest;
      MulMonotone(0, index[0], p);
      MulMonotone(index[0] + 1, shape[0], p);
      assert (index[0] + 1) * p == index[0] * p + p;
    }
  }

  /** Two "digits" in base `p` are equal when the numbers they spell are. */
  lemma DigitsUnique(a: int, ra: int, b: int, rb: int, p: int)
    requires 0 <= ra < p && 0 <= rb < p
    requires a * p + ra == b * p + rb
    ensures a == b && ra == rb
  {
    if a < b {
      MulStep(a, b, p);
      assert false;
    } else if b < a {
      MulStep(b, a, p);
      assert false;
    }
  }

  /** Distinct valid indices have distinct offsets. */
  lemma {:induction false} OffsetInjective(i: seq<int>, j: seq<int>, shape: seq<int>)
    requires ValidShape(shape) && ValidIndex(i, shape) && ValidIndex(j, shape)
    requires Offset(i, RowMajorStrides(shape)) == Offset(j, RowMajorStrides(shape))
    ensures i == j
  {
    if shape != [] {
      var s := RowMajorStrides(shape);
      assert ValidIndex(i[1..], shape[1..]) && ValidIndex(j[1..], shape[1..]);
      OffsetInBounds(i[1..], shape[1..]);
      OffsetInBounds(j[1..], shape[1..]);
      DigitsUnique(i[0], Offset(i[1..], s[1..]), j[0], Offset(j[1..], s[1..]), s[0]);
      OffsetInjective(i[1..], j[1..], shape[1..]);
      assert i == [i[0]] + i[1..] && j == [j[0]] + j[1..];
    }
  }

  /** One step of the mixed-radix split: quotient and remainder of an offset below `n * p`. */
  lemma DivDigit(offset: int, n: int, p: int)
    requires p > 0 && 0 <= offset < n * p
    ensures 0 <= offset / p < n && 0 <= offset % p < p
    ensures (offset / p) * p + offset % p == offset
  {
    var q := offset / p;
    if q >= n {
      MulMonotone(n, q, p);
      assert false;
    }
  }

  /** The multi-index at a flat offset: quotient by each stride, remainder to the next axis. */
  function IndexAt(offset: int, shape: seq<int>): (index: seq<int>)
    requires ValidShape(shape) && 0 <= offset < Product(shape)
    ensures ValidIndex(index, shape)
    ensures Offset(index, RowMajorStrides(shape)) == offset
    decreases |shape|
  {
    if shape == [] then []
    else
      var p := Product(shape[1..]);
      ProductNonNegative(shape[1..]);
      assert p > 0;
      DivDigit(offset, shape[0], p);
      var tail := IndexAt(offset % p, shape[1..]);
      var index := [offset / p] + tail;
      assert index[1..] == tail;
      index
  }

  /** The element at a multi-index of a buffer in row-major order (the subscript getter). */
  function ElementAt<T>(cells: seq<T>, shape: seq<int>, index: seq<int>): T
    requires ValidShape(shape) && |cells| == Product(shape) && ValidIndex(index, shape)
  {
    OffsetInBounds(index, shape);
    cells[Offset(index, RowMajorStrides(shape))]
  }

  /** Reading through every valid multi-index determines a buffer completely. */
  lemma ElementsDetermineCells<T>(a: seq<T>, b: seq<T>, shape: seq<int>)
    requires ValidShape(shape) && |a| == Product(shape) && |b| == Product(shape)
    requires forall index :: ValidIndex(index, shape) ==> ElementAt(a, shape, index) == ElementAt(b, shape, index)
    ensures a == b
  {
    forall o | 0 <= o < |a|
      ensures a[o] == b[o]
    {
      var index := IndexAt(o, shape);
      assert ElementAt(a, shape, index) == ElementAt(b, shape, index);
    }
  }

  /** The buffer after writing `v` at a multi-index (the subscript setter, `initializeElement(at:to:)`). */
  function WriteElement<T>(cells: seq<T>, shape: seq<int>, index: seq<int>, v: T): (updated: seq<T>)
    requires ValidShape(shape) && |cells| == Product(shape) && ValidIndex(index, shape)
    ensures |updated| == |cells|
  {
    OffsetInBounds(index, shape);
    cells[Offset(index, RowMajorStrides(shape)) := v]
  }

  /** A write is read back at its own index and leaves every other element as it was. */
  lemma WriteThenRead<T>(cells: seq<T>, shape: seq<int>, written: seq<int>, index: seq<int>, v: T)
    requires ValidShape(shape) && |cells| == Product(shape)
    requires ValidIndex(written, shape) && ValidIndex(index, shape)
    ensures ElementAt(WriteElement(cells, shape, written, v), shape, index)
      == if index == written then v else ElementAt(cells, shape, index)
  {
    OffsetInBounds(written, shape);
    OffsetInBounds(index, shape);
    if index != written && Offset(index, RowMajorStrides(shape)) == Offset(written, RowMajorStrides(shape)) {
      OffsetInjective(index, written, shape);
    }
  }

  /** The offset of a rank-3 index in closed form. */
  lemma Offset3(a: int, b: int, c: int, shape: seq<int>)
    requires |shape| == 3
    ensures Offset([a, b, c], RowMajorStrides(shape)) == (a * shape[1] + b) * shape[2] + c
  {
    var s1, s2 := shape[1], shape[2];
    assert shape[1..] == [s1, s2] && [s1, s2][1..] == [s2] && [s2][1..] == [];
    assert RowMajorStrides([s2]) == [1];
    assert RowMajorStrides([s1, s2]) == [s2, 1];
    assert RowMajorStrides(shape) == [s1 * s2, s2, 1];
    assert [a, b, c][1..] == [b, c] && [b, c][1..] == [c] && [c][1..] == [];
    assert [s1 * s2, s2, 1][1..] == [s2, 1] && [s2, 1][1..] == [1] && [1][1..] == [];
    assert Offset([c], [1]) == c;
    assert Offset([b, c], [s2, 1]) == b * s2 + c;
    assert Offset([a, b, c], [s1 * s2, s2, 1]) == a * (s1 * s2) + (b * s2 + c);
    Horner(a, b, s1, s2);
  }

  lemma Horner(a: int, b: int, s1: int, s2: int)
    ensures a * (s1 * s2) + b * s2 == (a * s1 + b) * s2
  {
    assert a * (s1 * s2) == (a * s1) * s2;
    assert (a * s1) * s2 + b * s2 == (a * s1 + b) * s2;
  }
}
