/** A vectorized call: every element of the output is computed from the input elements that
    broadcasting assigns to it, whichever way the loop goes. */
module Vectorize {
  import opened Options
  import opened Strides
  import opened ArrayIterator
  import opened Broadcasting

  // ---- The element of a buffer for an output index ----

  /** Each extent is 1 or that of the output shape it is aligned with. */
  ghost predicate Fits(b: Buffer, shape: seq<int>) {
    && b.Ok() && |b.shape| <= |shape|
    && forall d | 0 <= d < |shape| :: Extent(b.shape, |shape|, d) == 1 || Extent(b.shape, |shape|, d) == shape[d]
  }

  /** Dimensions of extent 1 are repeated, missing ones ignored. */
  function OwnIndex(b: Buffer, shape: seq<int>, index: seq<int>): seq<int>
    requires |b.shape| <= |shape| == |index|
  {
    seq(|b.shape|, e requires 0 <= e < |b.shape| => if b.shape[e] == 1 then 0 else index[e + (|shape| - |b.shape|)])
  }

  function Element(b: Buffer, shape: seq<int>, index: seq<int>): int
    requires Fits(b, shape) && |shape| == |index|
  {
    b.ptr + ByteOffset(b.strides, OwnIndex(b, shape, index))
  }

  function BroadcastStrides(b: Buffer, shape: seq<int>): seq<int>
    requires Fits(b, shape)
  {
    var pad := |shape| - |b.shape|;
    seq(|shape|, d requires 0 <= d < |shape| => if d < pad then 0 else if shape[d] == b.shape[d - pad] then b.strides[d - pad] else 0)
  }

  lemma {:induction false} SameTerms(s: seq<int>, i: seq<int>, t: seq<int>, j: seq<int>)
    requires |s| == |i| == |t| == |j| && forall d | 0 <= d < |s| :: i[d] * s[d] == j[d] * t[d]
    ensures ByteOffset(s, i) == ByteOffset(t, j)
  {
    if s != [] { SameTerms(s[1..], i[1..], t[1..], j[1..]); }
  }

  lemma {:induction false} LeadingZeros(pad: nat, s: seq<int>, i: seq<int>)
    requires pad <= |s| == |i| && forall d | 0 <= d < pad :: s[d] == 0
    ensures ByteOffset(s, i) == ByteOffset(s[pad..], i[pad..])
  {
    if pad > 0 {
      LeadingZeros(pad - 1, s[1..], i[1..]);
      assert s[1..][pad - 1..] == s[pad..] && i[1..][pad - 1..] == i[pad..];
    }
  }

  /** Zero strides repeat what broadcasting repeats. */
  lemma StridesReachElement(b: Buffer, shape: seq<int>, index: seq<int>)
    requires Fits(b, shape) && InShape(index, shape)
    ensures b.ptr + ByteOffset(BroadcastStrides(b, shape), index) == Element(b, shape, index)
  {
    var pad, s, own := |shape| - |b.shape|, BroadcastStrides(b, shape), OwnIndex(b, shape, index);
    LeadingZeros(pad, s, index);
    forall e | 0 <= e < |b.shape| ensures index[pad..][e] * s[pad..][e] == own[e] * b.strides[e] {
      var d := e + pad;
      assert Extent(b.shape, |shape|, d) == b.shape[e];
      assert 0 <= index[d] < shape[d];
    }
    SameTerms(s[pad..], index[pad..], b.strides, own);
  }

  // ---- The general walk ----

  /** `init_common_iterator` up to the constructor call, over strides left by another buffer. */
  method FillStrides(b: Buffer, shape: seq<int>, before: seq<int>) returns (strides: seq<int>)
    requires Fits(b, shape) && |shape| == |before|
    ensures strides == BroadcastStrides(b, shape)
  {
    strides := before;
    var n, m := |shape|, |b.shape|;
    var t := 0;
    while t < m
      invariant t <= m && |strides| == n
      invariant forall d | n - t <= d < n :: strides[d] == BroadcastStrides(b, shape)[d]
    {
      if shape[n - 1 - t] == b.shape[m - 1 - t] {
        strides := strides[n - 1 - t := b.strides[m - 1 - t]];
      } else {
        strides := strides[n - 1 - t := 0];
      }
      t := t + 1;
    }
    while t < n
      invariant m <= t <= n == |strides|
      invariant forall d | n - t <= d < n :: strides[d] == BroadcastStrides(b, shape)[d]
    {
      strides := strides[n - 1 - t := 0];
      t := t + 1;
    }
  }

  method AllStrides(buffers: seq<Buffer>, shape: seq<int>) returns (ptrs: seq<int>, strides: seq<seq<int>>)
    requires forall b | 0 <= b < |buffers| :: Fits(buffers[b], shape)
    ensures |ptrs| == |strides| == |buffers|
    ensures forall b | 0 <= b < |buffers| ::
              ptrs[b] == buffers[b].ptr && strides[b] == BroadcastStrides(buffers[b], shape) && |strides[b]| == |shape|
  {
    ptrs, strides := [], [];
    var current := seq(|shape|, _ => 0);
    var b := 0;
    while b < |buffers|
      invariant b <= |buffers| && |ptrs| == |strides| == b && |current| == |shape|
      invariant forall c | 0 <= c < b :: ptrs[c] == buffers[c].ptr && strides[c] == BroadcastStrides(buffers[c], shape)
    {
      current := FillStrides(buffers[b], shape, current);
      ptrs, strides := ptrs + [buffers[b].ptr], strides + [current];
      b := b + 1;
    }
  }

  function Pointers(its: seq<CommonIterator>): seq<int> {
    seq(|its|, b requires 0 <= b < |its| => its[b].ptr)
  }

  /** The input addresses of the call for an output index. */
  function Elements(buffers: seq<Buffer>, shape: seq<int>, index: seq<int>): seq<int>
    requires |shape| == |index|
    requires forall b | 0 <= b < |buffers| :: Fits(buffers[b], shape)
  {
    seq(|buffers|, b requires 0 <= b < |buffers| => Element(buffers[b], shape, index))
  }

  /** The calls, in the order of the output elements: row-major. */
  method ApplyBroadcast(buffers: seq<Buffer>, shape: seq<int>) returns (calls: seq<seq<int>>)
    requires forall b | 0 <= b < |buffers| :: Fits(buffers[b], shape)
    requires |shape| > 0 && forall d | 0 <= d < |shape| :: shape[d] >= 1
    ensures |calls| == Size(shape)
    ensures forall index | InShape(index, shape) :: 0 <= Row(index, shape) < |calls| && calls[Row(index, shape)] == Elements(buffers, shape, index)
  {
    var size := Size(shape);
    SizePositive(shape);
    var ptrs, strides := AllStrides(buffers, shape);
    hide Fits, Element, BroadcastStrides, Size;
    var it := new MultiArrayIterator(ptrs, strides, shape);
    calls := [];
    var i := 0;
    while i < size
      invariant 0 <= i <= size && |calls| == i
      invariant it.shape == shape && it.bases == ptrs && it.strides == strides && fresh(it)
      invariant it.Valid() && (i < size ==> it.Positioned() && Row(it.index, shape) == i)
      invariant forall k | 0 <= k < i :: InShape(Digits(k, shape), shape) && calls[k] == Elements(buffers, shape, Digits(k, shape))
    {
      DigitsOfRow(it.index, shape);
      forall b | 0 <= b < |buffers| ensures it.iterators[b].ptr == Element(buffers[b], shape, it.index) {
        StridesReachElement(buffers[b], shape, it.index);
      }
      calls := calls + [Pointers(it.iterators)];
      assert calls[i] == Elements(buffers, shape, it.index);
      it.Increment();
      i := i + 1;
    }
    forall index | InShape(index, shape)
      ensures 0 <= Row(index, shape) < |calls| && calls[Row(index, shape)] == Elements(buffers, shape, index)
    {
      RowBounds(index, shape);
      DigitsOfRow(index, shape);
    }
  }

  // ---- The flat walk ----

  function Step(b: Buffer): int {
    if b.size == 1 then 0 else b.itemsize
  }

  method ApplyTrivial(buffers: seq<Buffer>, size: nat) returns (calls: seq<seq<int>>)
    ensures |calls| == size
    ensures forall k | 0 <= k < size ::
              |calls[k]| == |buffers| && forall b | 0 <= b < |buffers| :: calls[k][b] == buffers[b].ptr + k * Step(buffers[b])
  {
    var params := seq(|buffers|, b requires 0 <= b < |buffers| => buffers[b].ptr);
    calls := [];
    var i := 0;
    while i < size
      invariant i <= size && |calls| == i && |params| == |buffers|
      invariant forall b | 0 <= b < |buffers| :: params[b] == buffers[b].ptr + i * Step(buffers[b])
      invariant forall k | 0 <= k < i ::
                  |calls[k]| == |buffers| && forall b | 0 <= b < |buffers| :: calls[k][b] == buffers[b].ptr + k * Step(buffers[b])
    {
      calls := calls + [params];
      var b := 0;
      while b < |params|
        invariant b <= |params| == |buffers|
        invariant forall c | 0 <= c < |buffers| ::
                    params[c] == buffers[c].ptr + (if c < b then (i + 1) * Step(buffers[c]) else i * Step(buffers[c]))
      {
        assert (i + 1) * Step(buffers[b]) == i * Step(buffers[b]) + Step(buffers[b]);
        params := params[b := params[b] + Step(buffers[b])];
        b := b + 1;
      }
      i := i + 1;
    }
  }

  lemma {:induction false} SizeOne(shape: seq<int>)
    requires Size(shape) == 1 && forall d | 0 <= d < |shape| :: shape[d] >= 0
    ensures forall d | 0 <= d < |shape| :: shape[d] == 1
  {
    if shape != [] {
      var s := Size(shape[1..]);
      assert shape[0] >= 1;
      if s <= 0 { MulMono(s, 0, shape[0]); }
      if shape[0] >= 2 { MulMono(2, shape[0], s); }
      assert shape[0] == 1;
      SizeOne(shape[1..]);
    }
  }

  lemma {:induction false} ZeroIndex(strides: seq<int>, index: seq<int>)
    requires |strides| == |index| && forall e | 0 <= e < |index| :: index[e] == 0
    ensures ByteOffset(strides, index) == 0
  {
    if index != [] { ZeroIndex(strides[1..], index[1..]); }
  }

  lemma {:induction false} ColumnBounds(index: seq<int>, shape: seq<int>)
    requires InShape(index, shape)
    ensures 0 <= Column(index, shape) < Size(shape)
  {
    if index != [] {
      ColumnBounds(index[1..], shape[1..]);
      Below(index[0], shape[0], Column(index[1..], shape[1..]), Size(shape[1..]));
    }
  }

  lemma Below(i: int, n: int, c: int, s: int)
    requires 0 <= i < n && 0 <= c < s
    ensures 0 <= i + n * c < n * s
  {
    MulMono(0, c, n);
    MulMono(c + 1, s, n);
  }

  /** The element of a single-element buffer is that element. */
  lemma SingleElement(b: Buffer, shape: seq<int>, index: seq<int>)
    requires Fits(b, shape) && |index| == |shape| && b.size == 1
    ensures Element(b, shape, index) == b.ptr
  {
    SizeOne(b.shape);
    ZeroIndex(b.strides, OwnIndex(b, shape, index));
  }

  /** In a full-size buffer the own index is the output index. */
  lemma FullElement(b: Buffer, shape: seq<int>, index: seq<int>)
    requires Fits(b, shape) && InShape(index, shape) && b.shape == shape
    ensures Element(b, shape, index) == b.ptr + ByteOffset(b.strides, index)
  {
    hide ByteOffset, Size;
    assert OwnIndex(b, shape, index) == index;
  }

  /** The flat walk meets the element of a contiguous or single-element buffer at the output
      index's row-major position. */
  lemma FlatC(b: Buffer, shape: seq<int>, index: seq<int>)
    requires Fits(b, shape) && InShape(index, shape) && CReady(b, shape)
    ensures b.ptr + Row(index, shape) * Step(b) == Element(b, shape, index)
  {
    if b.size == 1 {
      SingleElement(b, shape, index);
    } else {
      FullElement(b, shape, index);
      COffset(shape, b.itemsize, index);
    }
  }

  /** At its column-major position for Fortran order. */
  lemma FlatF(b: Buffer, shape: seq<int>, index: seq<int>)
    requires Fits(b, shape) && InShape(index, shape) && FReady(b, shape)
    ensures b.ptr + Column(index, shape) * Step(b) == Element(b, shape, index)
  {
    if b.size == 1 {
      SingleElement(b, shape, index);
    } else {
      FullElement(b, shape, index);
      FOffset(shape, b.itemsize, index);
    }
  }

  lemma ReadyAll(buffers: seq<Buffer>, shape: seq<int>, k: nat)
    requires k < |buffers|
    ensures Triviality(buffers, shape) == CTrivial ==> CReady(buffers[k], shape)
    ensures Triviality(buffers, shape) == FTrivial ==> FReady(buffers[k], shape)
  {
  }

  // ---- The whole call ----

  /** An output array: the inputs of the call that computed each element, in storage order. */
  datatype Output = Output(shape: seq<int>, strides: seq<int>, calls: seq<seq<int>>)

  /** Every element of the output was computed from the input elements of its index. */
  ghost predicate Elementwise(buffers: seq<Buffer>, out: Output) {
    && |out.strides| == |out.shape|
    && (forall b | 0 <= b < |buffers| :: Fits(buffers[b], out.shape))
    && |out.calls| == Size(out.shape)
    && forall index | InShape(index, out.shape) ::
         var at := ByteOffset(out.strides, index);
         0 <= at < |out.calls| && out.calls[at] == Elements(buffers, out.shape, index)
  }

  lemma CommonFits(buffers: seq<Buffer>, shape: seq<int>)
    requires forall k | 0 <= k < |buffers| :: buffers[k].Ok() && |buffers[k].shape| <= |shape|
    requires AllCommon(buffers, |shape|, |buffers|, shape)
    ensures forall b | 0 <= b < |buffers| :: Fits(buffers[b], shape)
    ensures forall d | 0 <= d < |shape| :: shape[d] >= 0
  {
    forall d | 0 <= d < |shape| ensures shape[d] >= 0 {
      assert Common(buffers, |shape|, |buffers|, d, shape[d]);
    }
    forall b, d | 0 <= b < |buffers| && 0 <= d < |shape|
      ensures Extent(buffers[b].shape, |shape|, d) == 1 || Extent(buffers[b].shape, |shape|, d) == shape[d]
    {
      assert Common(buffers, |shape|, |buffers|, d, shape[d]);
    }
  }

  lemma {:induction false} SizeZero(shape: seq<int>, d: nat)
    requires d < |shape| && shape[d] == 0
    ensures Size(shape) == 0
  {
    if d > 0 { SizeZero(shape[1..], d - 1); }
  }

  lemma {:induction false} SizeNonNegative(shape: seq<int>)
    requires forall d | 0 <= d < |shape| :: shape[d] >= 0
    ensures Size(shape) >= 0
    ensures Size(shape) == 0 ==> exists d :: 0 <= d < |shape| && shape[d] == 0
  {
    if shape != [] {
      SizeNonNegative(shape[1..]);
      MulMono(0, shape[0], Size(shape[1..]));
      if shape[0] != 0 && Size(shape[1..]) == 0 {
        var d :| 0 <= d < |shape[1..]| && shape[1..][d] == 0;
        assert shape[d + 1] == 0;
      }
      if shape[0] >= 1 { MulMono(1, shape[0], Size(shape[1..])); }
    }
  }

  method ApplyContiguous(buffers: seq<Buffer>, shape: seq<int>, trivial: Trivial) returns (out: Output)
    requires forall b | 0 <= b < |buffers| :: Fits(buffers[b], shape)
    requires Size(shape) >= 0 && trivial != NonTrivial && trivial == Triviality(buffers, shape)
    ensures out.shape == shape && Elementwise(buffers, out)
    ensures out.strides == if trivial == FTrivial then FStrides(shape, 1) else CStrides(shape, 1)
  {
    StridesLength(shape, 1);
    var strides;
    if trivial == FTrivial { strides := MakeFStrides(shape, 1); } else { strides := MakeCStrides(shape, 1); }
    var calls := ApplyTrivial(buffers, Size(shape));
    out := Output(shape, strides, calls);
    forall index | InShape(index, shape)
      ensures var at := ByteOffset(strides, index); 0 <= at < |calls| && calls[at] == Elements(buffers, shape, index)
    {
      FlatAt(buffers, shape, trivial, index, calls);
    }
  }

  lemma FlatAt(buffers: seq<Buffer>, shape: seq<int>, trivial: Trivial, index: seq<int>, calls: seq<seq<int>>)
    requires forall b | 0 <= b < |buffers| :: Fits(buffers[b], shape)
    requires trivial != NonTrivial && trivial == Triviality(buffers, shape)
    requires InShape(index, shape) && |calls| == Size(shape)
    requires forall k | 0 <= k < |calls| ::
               |calls[k]| == |buffers| && forall b | 0 <= b < |buffers| :: calls[k][b] == buffers[b].ptr + k * Step(buffers[b])
    ensures |FStrides(shape, 1)| == |CStrides(shape, 1)| == |shape|
    ensures var at := ByteOffset(if trivial == FTrivial then FStrides(shape, 1) else CStrides(shape, 1), index);
            0 <= at < |calls| && calls[at] == Elements(buffers, shape, index)
  {
    StridesLength(shape, 1);
    FOffset(shape, 1, index);
    COffset(shape, 1, index);
    RowBounds(index, shape);
    ColumnBounds(index, shape);
    hide Triviality, Element, Step, Fits, Row, Column;
    var at := if trivial == FTrivial then Column(index, shape) else Row(index, shape);
    forall b | 0 <= b < |buffers| ensures calls[at][b] == Element(buffers[b], shape, index) {
      FlatOne(buffers, shape, trivial, index, b);
    }
  }

  lemma FlatOne(buffers: seq<Buffer>, shape: seq<int>, trivial: Trivial, index: seq<int>, b: nat)
    requires b < |buffers| && Fits(buffers[b], shape) && InShape(index, shape)
    requires trivial != NonTrivial && trivial == Triviality(buffers, shape)
    ensures var at := if trivial == FTrivial then Column(index, shape) else Row(index, shape);
            buffers[b].ptr + at * Step(buffers[b]) == Element(buffers[b], shape, index)
  {
    ReadyAll(buffers, shape, b);
    if trivial == FTrivial { FlatF(buffers[b], shape, index); } else { FlatC(buffers[b], shape, index); }
    hide *;
  }

  /** The extent of a shape, counted from its last dimension. */
  function FromEnd(shape: seq<int>, t: nat): int
    requires t < |shape|
  {
    shape[|shape| - 1 - t]
  }

  /** Two inputs have different extents, neither of them 1, at one dimension. */
  ghost predicate Incompatible(buffers: seq<Buffer>) {
    exists j, k, t: nat ::
      && 0 <= j < |buffers| && 0 <= k < |buffers| && t < |buffers[j].shape| && t < |buffers[k].shape|
      && FromEnd(buffers[j].shape, t) != FromEnd(buffers[k].shape, t)
      && FromEnd(buffers[j].shape, t) != 1 && FromEnd(buffers[k].shape, t) != 1
  }

  /** The shape of the output has the largest rank of an input, and at each dimension the extent
      that some input has there, or 1 if none has another. */
  ghost predicate IsOutputShape(buffers: seq<Buffer>, shape: seq<int>) {
    && (forall k | 0 <= k < |buffers| :: |buffers[k].shape| <= |shape|)
    && (shape == [] || exists k :: 0 <= k < |buffers| && |buffers[k].shape| == |shape|)
    && (forall k, t: nat | 0 <= k < |buffers| && t < |buffers[k].shape| ::
          FromEnd(buffers[k].shape, t) == 1 || FromEnd(buffers[k].shape, t) == FromEnd(shape, t))
    && (forall t: nat | t < |shape| && FromEnd(shape, t) != 1 ::
          exists k :: 0 <= k < |buffers| && t < |buffers[k].shape| && FromEnd(buffers[k].shape, t) == FromEnd(shape, t))
  }

  lemma ExtentFromEnd(shape: seq<int>, n: nat, d: nat)
    requires |shape| <= n && d < n
    ensures Extent(shape, n, d) == if n - 1 - d < |shape| then FromEnd(shape, n - 1 - d) else 1
  {
  }

  lemma ConformCompatible(buffers: seq<Buffer>, n: nat)
    requires forall k | 0 <= k < |buffers| :: |buffers[k].shape| <= n
    ensures Conform(buffers, n) <==> !Incompatible(buffers)
  {
    if j, k, t: nat :|
      && 0 <= j < |buffers| && 0 <= k < |buffers| && t < |buffers[j].shape| && t < |buffers[k].shape|
      && FromEnd(buffers[j].shape, t) != FromEnd(buffers[k].shape, t)
      && FromEnd(buffers[j].shape, t) != 1 && FromEnd(buffers[k].shape, t) != 1
    {
      ExtentFromEnd(buffers[j].shape, n, n - 1 - t);
      ExtentFromEnd(buffers[k].shape, n, n - 1 - t);
      assert !Conform(buffers, n);
    } else {
      forall d, j, k | 0 <= d < n && 0 <= j < |buffers| && 0 <= k < |buffers|
        ensures var a, b := Extent(buffers[j].shape, n, d), Extent(buffers[k].shape, n, d); a == 1 || b == 1 || a == b
      {
        ExtentFromEnd(buffers[j].shape, n, d);
        ExtentFromEnd(buffers[k].shape, n, d);
      }
    }
  }

  lemma CommonIsOutputShape(buffers: seq<Buffer>, shape: seq<int>)
    requires forall k | 0 <= k < |buffers| :: |buffers[k].shape| <= |shape|
    requires shape == [] || exists k :: 0 <= k < |buffers| && |buffers[k].shape| == |shape|
    requires AllCommon(buffers, |shape|, |buffers|, shape)
    ensures IsOutputShape(buffers, shape)
  {
    var n := |shape|;
    forall k, t: nat | 0 <= k < |buffers| && t < |buffers[k].shape|
      ensures FromEnd(buffers[k].shape, t) == 1 || FromEnd(buffers[k].shape, t) == FromEnd(shape, t)
    {
      assert Common(buffers, n, |buffers|, n - 1 - t, shape[n - 1 - t]);
      ExtentFromEnd(buffers[k].shape, n, n - 1 - t);
    }
    forall t: nat | t < |shape| && FromEnd(shape, t) != 1
      ensures exists k :: 0 <= k < |buffers| && t < |buffers[k].shape| && FromEnd(buffers[k].shape, t) == FromEnd(shape, t)
    {
      assert Common(buffers, n, |buffers|, n - 1 - t, shape[n - 1 - t]);
      var k :| 0 <= k < |buffers| && Extent(buffers[k].shape, n, n - 1 - t) == shape[n - 1 - t];
      ExtentFromEnd(buffers[k].shape, n, n - 1 - t);
    }
  }

  lemma ModuloExtent(x: int, m: int, n: int)
    requires 0 <= x < n && (m == 1 || m == n)
    ensures m > 0 && x % m == if m == 1 then 0 else x
  {
  }

  lemma OwnIndexAt(b: Buffer, shape: seq<int>, index: seq<int>, e: nat)
    requires Fits(b, shape) && InShape(index, shape) && e < |b.shape|
    ensures 0 <= OwnIndex(b, shape, index)[e] < b.shape[e]
    ensures OwnIndex(b, shape, index)[e] == index[e + (|shape| - |b.shape|)] % b.shape[e]
  {
    var d := e + (|shape| - |b.shape|);
    assert Extent(b.shape, |shape|, d) == b.shape[e];
    assert 0 <= index[d] < shape[d];
    ModuloExtent(index[d], b.shape[e], shape[d]);
  }

  /** An input is read inside its shape, at the output index modulo its own extents, aligned at
      the last dimensions. */
  lemma OwnIndexModulo(b: Buffer, shape: seq<int>, index: seq<int>)
    requires Fits(b, shape) && InShape(index, shape)
    ensures InShape(OwnIndex(b, shape, index), b.shape)
    ensures forall e | 0 <= e < |b.shape| ::
              b.shape[e] > 0 && OwnIndex(b, shape, index)[e] == index[e + (|shape| - |b.shape|)] % b.shape[e]
  {
    forall e | 0 <= e < |b.shape|
      ensures 0 <= OwnIndex(b, shape, index)[e] < b.shape[e]
      ensures OwnIndex(b, shape, index)[e] == index[e + (|shape| - |b.shape|)] % b.shape[e]
    {
      OwnIndexAt(b, shape, index, e);
    }
    hide OwnIndex, Fits;
  }

  /** The storage order of the output: row-major, unless all inputs are single elements or in
      column-major order and not all in row-major order, too. */
  ghost predicate IsOutputOrder(buffers: seq<Buffer>, out: Output) {
    if (exists k :: 0 <= k < |buffers| && !CReady(buffers[k], out.shape)) && (forall k | 0 <= k < |buffers| :: FReady(buffers[k], out.shape))
    then out.strides == FStrides(out.shape, 1) else out.strides == CStrides(out.shape, 1)
  }

  /** `run`: `None` when two inputs are incompatible. A call on single values returns a plain
      value, here an output without dimensions. */
  method Run(buffers: seq<Buffer>) returns (r: Option<Output>)
    requires forall k | 0 <= k < |buffers| :: buffers[k].Ok()
    ensures r.None? <==> Incompatible(buffers)
    ensures r.Some? ==> IsOutputShape(buffers, r.value.shape) && IsOutputOrder(buffers, r.value) && Elementwise(buffers, r.value)
  {
    var ndim, b := Broadcast(buffers);
    ConformCompatible(buffers, ndim);
    if b.None? {
      return None;
    }
    var trivial, shape := b.value.0, b.value.1;
    CommonFits(buffers, shape);
    CommonIsOutputShape(buffers, shape);
    SizeNonNegative(shape);
    OrderedBy(buffers, shape, trivial);
    var size := Size(shape);
    hide *;
    StridesLength(shape, 1);
    if size == 1 && ndim == 0 {
      var ptrs := seq(|buffers|, k requires 0 <= k < |buffers| => buffers[k].ptr);
      SingleElementwise(buffers, ptrs);
      return Some(Output([], [], [ptrs]));
    }
    var strides := if trivial == FTrivial then FStrides(shape, 1) else CStrides(shape, 1);
    if size == 0 {
      EmptyElementwise(buffers, shape, strides);
      return Some(Output(shape, strides, []));
    }
    var out;
    if trivial == NonTrivial {
      var calls := ApplyBroadcast(buffers, shape) by { NoExtentZero(shape); }
      out := Output(shape, CStrides(shape, 1), calls);
      RowMajorElementwise(buffers, out);
    } else {
      out := ApplyContiguous(buffers, shape, trivial);
    }
    r := Some(out);
  }

  lemma OrderedBy(buffers: seq<Buffer>, shape: seq<int>, trivial: Trivial)
    requires trivial == Triviality(buffers, shape)
    ensures forall out: Output | out.shape == shape && out.strides == (if trivial == FTrivial then FStrides(shape, 1) else CStrides(shape, 1)) ::
              IsOutputOrder(buffers, out)
  {
    hide CReady, FReady, FStrides, CStrides;
  }

  lemma NoExtentZero(shape: seq<int>)
    requires Size(shape) != 0 && forall d | 0 <= d < |shape| :: shape[d] >= 0
    ensures forall d | 0 <= d < |shape| :: shape[d] >= 1
  {
    forall d | 0 <= d < |shape| ensures shape[d] >= 1 {
      if shape[d] == 0 { SizeZero(shape, d); }
    }
  }

  lemma SingleElementwise(buffers: seq<Buffer>, ptrs: seq<int>)
    requires forall b | 0 <= b < |buffers| :: Fits(buffers[b], [])
    requires |ptrs| == |buffers| && forall k | 0 <= k < |buffers| :: ptrs[k] == buffers[k].ptr
    ensures Elementwise(buffers, Output([], [], [ptrs])) && CStrides([], 1) == FStrides([], 1) == []
  {
    StridesLength([], 1);
    assert ptrs == Elements(buffers, [], []);
  }

  lemma EmptyElementwise(buffers: seq<Buffer>, shape: seq<int>, strides: seq<int>)
    requires (forall b | 0 <= b < |buffers| :: Fits(buffers[b], shape)) && |strides| == |shape|
    requires Size(shape) == 0 && forall d | 0 <= d < |shape| :: shape[d] >= 0
    ensures Elementwise(buffers, Output(shape, strides, []))
  {
    SizeNonNegative(shape);
    var d :| 0 <= d < |shape| && shape[d] == 0;
    assert forall index :: !InShape(index, shape);
  }

  lemma RowMajorElementwise(buffers: seq<Buffer>, out: Output)
    requires (forall b | 0 <= b < |buffers| :: Fits(buffers[b], out.shape)) && |out.calls| == Size(out.shape)
    requires |CStrides(out.shape, 1)| == |out.shape| && out.strides == CStrides(out.shape, 1)
    requires forall index | InShape(index, out.shape) ::
               0 <= Row(index, out.shape) < |out.calls| && out.calls[Row(index, out.shape)] == Elements(buffers, out.shape, index)
    ensures Elementwise(buffers, out)
  {
    forall index | InShape(index, out.shape) ensures ByteOffset(out.strides, index) == Row(index, out.shape) {
      COffset(out.shape, 1, index);
    }
    hide Fits, Row, CStrides, ByteOffset, Elements;
  }
}
