/** Multi-indices, their row-major and column-major positions, and byte offsets. */
module Strides {

  /** `byte_offset_unsafe`: the sum of index times stride. */
  function ByteOffset(strides: seq<int>, index: seq<int>): int
    requires |strides| == |index|
  {
    if index == [] then 0 else index[0] * strides[0] + ByteOffset(strides[1..], index[1..])
  }

  function Size(shape: seq<int>): int {
    if shape == [] then 1 else shape[0] * Size(shape[1..])
  }

  ghost predicate InShape(index: seq<int>, shape: seq<int>) {
    |index| == |shape| && forall d | 0 <= d < |shape| :: 0 <= index[d] < shape[d]
  }

  /** Position in row-major order. */
  function Row(index: seq<int>, shape: seq<int>): int
    requires |index| == |shape|
  {
    if index == [] then 0 else index[0] * Size(shape[1..]) + Row(index[1..], shape[1..])
  }

  /** Position in column-major order. */
  function Column(index: seq<int>, shape: seq<int>): int
    requires |index| == |shape|
  {
    if index == [] then 0 else index[0] + shape[0] * Column(index[1..], shape[1..])
  }

  /** The row-major mixed-radix digits of a position. */
  function Digits(k: int, shape: seq<int>): seq<int>
    requires forall d | 0 <= d < |shape| :: shape[d] >= 1
    decreases |shape|
  {
    if shape == [] then []
    else SizePositive(shape[1..]); [k / Size(shape[1..])] + Digits(k % Size(shape[1..]), shape[1..])
  }

  lemma {:induction false} SizePositive(shape: seq<int>)
    requires forall d | 0 <= d < |shape| :: shape[d] >= 1
    ensures Size(shape) >= 1
  {
    if shape != [] {
      SizePositive(shape[1..]);
      MulMono(1, shape[0], Size(shape[1..]));
    }
  }

  lemma MulMono(a: int, b: int, c: int)
    requires a <= b && 0 <= c
    ensures a * c <= b * c
  {
  }

  lemma DivModOf(a: int, r: int, n: int)
    requires 0 <= r < n
    ensures (a * n + r) / n == a && (a * n + r) % n == r
  {
    var q, m := (a * n + r) / n, (a * n + r) % n;
    assert (q - a) * n == r - m;
    if q - a >= 1 { MulMono(1, q - a, n); }
    if q - a <= -1 { MulMono(q - a, -1, n); }
  }

  lemma {:induction false} RowBounds(index: seq<int>, shape: seq<int>)
    requires InShape(index, shape)
    ensures 0 <= Row(index, shape) < Size(shape)
  {
    if index != [] {
      RowBounds(index[1..], shape[1..]);
      var s := Size(shape[1..]);
      MulMono(0, index[0], s);
      MulMono(index[0] + 1, shape[0], s);
    }
  }

  /** A multi-index is the digits of its position. */
  lemma {:induction false} DigitsOfRow(index: seq<int>, shape: seq<int>)
    requires InShape(index, shape)
    ensures (forall d | 0 <= d < |shape| :: shape[d] >= 1) && Digits(Row(index, shape), shape) == index
  {
    if index != [] {
      DigitsOfRow(index[1..], shape[1..]);
      RowBounds(index[1..], shape[1..]);
      assert forall d | 0 <= d < |shape| :: index[d] < shape[d];
      DivModOf(index[0], Row(index[1..], shape[1..]), Size(shape[1..]));
    }
  }

  lemma QuotientBelow(k: int, n: int, s: int)
    requires 0 <= k < n * s && 1 <= s
    ensures 0 <= k / s < n && k == k / s * s + k % s
  {
    var q := k / s;
    if q >= n { MulMono(n, q, s); }
    if q < 0 { MulMono(q, -1, s); }
  }

  /** The digits of a position are a multi-index with that position. */
  lemma {:induction false} RowOfDigits(k: int, shape: seq<int>)
    requires (forall d | 0 <= d < |shape| :: shape[d] >= 1) && 0 <= k < Size(shape)
    ensures InShape(Digits(k, shape), shape) && Row(Digits(k, shape), shape) == k
    decreases |shape|
  {
    if shape != [] {
      var s := Size(shape[1..]);
      SizePositive(shape[1..]);
      RowOfDigits(k % s, shape[1..]);
      QuotientBelow(k, shape[0], s);
      var rest := Digits(k % s, shape[1..]);
      assert Digits(k, shape) == [k / s] + rest && Digits(k, shape)[1..] == rest;
      assert forall d | 0 < d < |shape| :: Digits(k, shape)[d] == rest[d - 1] && shape[d] == shape[1..][d - 1];
    }
  }

  // ---- The two orders of storage ----

  function CStrides(shape: seq<int>, itemsize: int): seq<int> {
    if shape == [] then [] else [itemsize * Size(shape[1..])] + CStrides(shape[1..], itemsize)
  }

  function FStrides(shape: seq<int>, itemsize: int): seq<int> {
    if shape == [] then [] else [itemsize] + FStrides(shape[1..], itemsize * shape[0])
  }

  lemma {:induction false} StridesLength(shape: seq<int>, itemsize: int)
    ensures |CStrides(shape, itemsize)| == |shape| && |FStrides(shape, itemsize)| == |shape|
  {
    if shape != [] {
      StridesLength(shape[1..], itemsize);
      StridesLength(shape[1..], itemsize * shape[0]);
    }
  }

  /** With C strides the offset of an element is its row-major position. */
  lemma {:induction false} COffset(shape: seq<int>, itemsize: int, index: seq<int>)
    requires |index| == |shape| == |CStrides(shape, itemsize)|
    ensures ByteOffset(CStrides(shape, itemsize), index) == itemsize * Row(index, shape)
  {
    if index != [] {
      StridesLength(shape[1..], itemsize);
      COffset(shape[1..], itemsize, index[1..]);
      var s, r := Size(shape[1..]), Row(index[1..], shape[1..]);
      assert CStrides(shape, itemsize)[1..] == CStrides(shape[1..], itemsize);
      assert index[0] * (itemsize * s) + itemsize * r == itemsize * (index[0] * s + r);
    }
  }

  /** With Fortran strides it is its column-major position. */
  lemma {:induction false} FOffset(shape: seq<int>, itemsize: int, index: seq<int>)
    requires |index| == |shape| == |FStrides(shape, itemsize)|
    ensures ByteOffset(FStrides(shape, itemsize), index) == itemsize * Column(index, shape)
  {
    if index != [] {
      StridesLength(shape[1..], itemsize * shape[0]);
      FOffset(shape[1..], itemsize * shape[0], index[1..]);
      var c := Column(index[1..], shape[1..]);
      assert FStrides(shape, itemsize)[1..] == FStrides(shape[1..], itemsize * shape[0]);
      assert index[0] * itemsize + itemsize * shape[0] * c == itemsize * (index[0] + shape[0] * c);
    }
  }

  lemma {:induction false} CStridesFrom(shape: seq<int>, itemsize: int, i: nat)
    requires i < |shape|
    ensures |CStrides(shape, itemsize)| == |shape| && CStrides(shape, itemsize)[i] == itemsize * Size(shape[i + 1..])
  {
    StridesLength(shape, itemsize);
    if i > 0 {
      CStridesFrom(shape[1..], itemsize, i - 1);
      assert shape[1..][i..] == shape[i + 1..];
    }
  }

  lemma {:induction false} FStridesStep(shape: seq<int>, itemsize: int, i: nat)
    requires 0 < i < |shape|
    ensures |FStrides(shape, itemsize)| == |shape| && FStrides(shape, itemsize)[i] == FStrides(shape, itemsize)[i - 1] * shape[i - 1]
  {
    StridesLength(shape, itemsize);
    StridesLength(shape[1..], itemsize * shape[0]);
    if i > 1 {
      FStridesStep(shape[1..], itemsize * shape[0], i - 1);
    }
  }

  lemma Regrouped(a: int, b: int, c: int)
    ensures a * b * c == a * (c * b)
  {
  }

  method MakeCStrides(shape: seq<int>, itemsize: int) returns (strides: seq<int>)
    ensures strides == CStrides(shape, itemsize)
  {
    var ndim := |shape|;
    strides := seq(ndim, _ => itemsize);
    StridesLength(shape, itemsize);
    if ndim > 0 {
      CStridesFrom(shape, itemsize, ndim - 1);
      var i := ndim - 1;
      while i > 0
        invariant 0 <= i < ndim == |strides|
        invariant forall j | i <= j < ndim :: strides[j] == CStrides(shape, itemsize)[j]
      {
        CStridesFrom(shape, itemsize, i);
        CStridesFrom(shape, itemsize, i - 1);
        assert Size(shape[i..]) == shape[i] * Size(shape[i + 1..]) by { assert shape[i..][1..] == shape[i + 1..]; }
        Regrouped(itemsize, Size(shape[i + 1..]), shape[i]);
        strides := strides[i - 1 := strides[i] * shape[i]];
        i := i - 1;
      }
    }
  }

  method MakeFStrides(shape: seq<int>, itemsize: int) returns (strides: seq<int>)
    ensures strides == FStrides(shape, itemsize)
  {
    var ndim := |shape|;
    strides := seq(ndim, _ => itemsize);
    StridesLength(shape, itemsize);
    var i := 1;
    while i < ndim
      invariant 1 <= i && |strides| == ndim
      invariant forall j | 0 <= j < i && j < ndim :: strides[j] == FStrides(shape, itemsize)[j]
    {
      FStridesStep(shape, itemsize, i);
      strides := strides[i := strides[i - 1] * shape[i - 1]];
      i := i + 1;
    }
  }
}
