/** Broadcasting several buffers to one shape, and the two ways of applying a function to
    them: the flat walk when the broadcast is trivial, the iterator otherwise. */
module Broadcasting {
  import opened Options
  import opened Strides
  import opened ArrayIterator

  datatype Buffer = Buffer(ptr: int, itemsize: int, size: int, shape: seq<int>, strides: seq<int>) {
    /** What the constructor of `buffer_info` establishes. */
    ghost predicate Ok() {
      |shape| == |strides| && size == Size(shape) && forall d | 0 <= d < |shape| :: shape[d] >= 0
    }
  }

  datatype Trivial = NonTrivial | CTrivial | FTrivial

  // ---- Shapes aligned at their last dimensions ----

  /** The extent of a shape at dimension `d` of `n`, 1 where it has no such dimension. */
  function Extent(shape: seq<int>, n: nat, d: nat): int
    requires |shape| <= n && d < n
  {
    if d < n - |shape| then 1 else shape[d - (n - |shape|)]
  }

  /** `out` is the common extent of the first `i` buffers at `d`: each has it or 1, and it is 1
      only if all are. */
  ghost predicate Common(buffers: seq<Buffer>, n: nat, i: nat, d: nat, out: int)
    requires d < n && i <= |buffers| && forall k | 0 <= k < |buffers| :: |buffers[k].shape| <= n
  {
    && (forall k | 0 <= k < i :: Extent(buffers[k].shape, n, d) == 1 || Extent(buffers[k].shape, n, d) == out)
    && (out == 1 || exists k :: 0 <= k < i && Extent(buffers[k].shape, n, d) == out)
  }

  ghost predicate AllCommon(buffers: seq<Buffer>, n: nat, i: nat, shape: seq<int>)
    requires i <= |buffers| && forall k | 0 <= k < |buffers| :: |buffers[k].shape| <= n
  {
    |shape| == n && forall d | 0 <= d < n :: Common(buffers, n, i, d, shape[d])
  }

  /** No two buffers have different extents, neither of them 1, at one dimension. */
  ghost predicate Conform(buffers: seq<Buffer>, n: nat)
    requires forall k | 0 <= k < |buffers| :: |buffers[k].shape| <= n
  {
    forall d, j, k | 0 <= d < n && 0 <= j < |buffers| && 0 <= k < |buffers| ::
      var a, b := Extent(buffers[j].shape, n, d), Extent(buffers[k].shape, n, d);
      a == 1 || b == 1 || a == b
  }

  method MaxDims(buffers: seq<Buffer>) returns (n: nat)
    ensures forall k | 0 <= k < |buffers| :: |buffers[k].shape| <= n
    ensures n == 0 || exists k :: 0 <= k < |buffers| && |buffers[k].shape| == n
  {
    n := 0;
    var i := 0;
    while i < |buffers|
      invariant i <= |buffers|
      invariant forall k | 0 <= k < i :: |buffers[k].shape| <= n
      invariant n == 0 || exists k :: 0 <= k < i && |buffers[k].shape| == n
    {
      if n < |buffers[i].shape| { n := |buffers[i].shape|; }
      i := i + 1;
    }
  }

  /** Merge one input shape into the output shape, from the last dimension. */
  method MergeShape(buffers: seq<Buffer>, i: nat, n: nat, shape: seq<int>) returns (merged: Option<seq<int>>)
    requires i < |buffers| && forall k | 0 <= k < |buffers| :: |buffers[k].shape| <= n
    requires AllCommon(buffers, n, i, shape)
    ensures merged.Some? ==> AllCommon(buffers, n, i + 1, merged.value)
    ensures merged.None? ==> !Conform(buffers, n)
  {
    var input := buffers[i].shape;
    var out := shape;
    var t := 0;
    while t < |input|
      invariant t <= |input| && |out| == n
      invariant forall d | 0 <= d < n :: if d < n - t then out[d] == shape[d] else Common(buffers, n, i + 1, d, out[d])
    {
      var d := n - 1 - t;
      var dimIn := input[|input| - 1 - t];
      assert dimIn == Extent(input, n, d);
      if out[d] == 1 {
        out := out[d := dimIn];
      } else if dimIn != 1 && dimIn != out[d] {
        var k :| 0 <= k < i && Extent(buffers[k].shape, n, d) == shape[d];
        return None;
      }
      t := t + 1;
    }
    forall d | 0 <= d < n ensures Common(buffers, n, i + 1, d, out[d]) {
      if d < n - |input| {
        assert Extent(input, n, d) == 1;
        assert Common(buffers, n, i, d, shape[d]);
      }
    }
    merged := Some(out);
  }

  // ---- Contiguity ----

  lemma SizeFrom(shape: seq<int>, i: nat)
    requires i < |shape|
    ensures Size(shape[i..]) == shape[i] * Size(shape[i + 1..])
  {
    assert shape[i..][1..] == shape[i + 1..];
  }

  method IsCContiguous(b: Buffer) returns (yes: bool)
    requires |b.shape| == |b.strides|
    ensures yes <==> b.strides == CStrides(b.shape, b.itemsize)
  {
    var n := |b.shape|;
    var stride := b.itemsize;
    StridesLength(b.shape, b.itemsize);
    assert b.shape[n..] == [];
    assert Size(b.shape[n..]) == 1;
    hide Size, CStrides;
    yes := true;
    var i := n;
    while yes && i > 0
      invariant 0 <= i <= n
      invariant yes ==> stride == b.itemsize * Size(b.shape[i..])
      invariant yes ==> forall j | i <= j < n :: b.strides[j] == CStrides(b.shape, b.itemsize)[j]
      invariant !yes ==> b.strides != CStrides(b.shape, b.itemsize)
      decreases i, yes
    {
      CStridesFrom(b.shape, b.itemsize, i - 1);
      SizeFrom(b.shape, i - 1);
      if stride == b.strides[i - 1] {
        Regrouped(b.itemsize, Size(b.shape[i..]), b.shape[i - 1]);
        stride := stride * b.shape[i - 1];
        i := i - 1;
      } else {
        yes := false;
      }
    }
  }

  method IsFContiguous(b: Buffer) returns (yes: bool)
    requires |b.shape| == |b.strides|
    ensures yes <==> b.strides == FStrides(b.shape, b.itemsize)
  {
    var n := |b.shape|;
    var stride := b.itemsize;
    StridesLength(b.shape, b.itemsize);
    yes := true;
    var i := 0;
    while yes && i < n
      invariant 0 <= i <= n
      invariant yes && i < n ==> stride == FStrides(b.shape, b.itemsize)[i]
      invariant yes ==> forall j | 0 <= j < i :: b.strides[j] == FStrides(b.shape, b.itemsize)[j]
      invariant !yes ==> b.strides != FStrides(b.shape, b.itemsize)
      decreases n - i, yes
    {
      if stride == b.strides[i] {
        stride := stride * b.shape[i];
        i := i + 1;
        if i < n { FStridesStep(b.shape, b.itemsize, i); }
      } else {
        yes := false;
      }
    }
  }

  ghost predicate CReady(b: Buffer, shape: seq<int>) {
    b.size == 1 || (b.shape == shape && b.strides == CStrides(b.shape, b.itemsize))
  }

  ghost predicate FReady(b: Buffer, shape: seq<int>) {
    b.size == 1 || (b.shape == shape && b.strides == FStrides(b.shape, b.itemsize))
  }

  ghost function Triviality(buffers: seq<Buffer>, shape: seq<int>): Trivial {
    if forall k | 0 <= k < |buffers| :: CReady(buffers[k], shape) then CTrivial
    else if forall k | 0 <= k < |buffers| :: FReady(buffers[k], shape) then FTrivial
    else NonTrivial
  }

  method Classify(buffers: seq<Buffer>, shape: seq<int>) returns (t: Trivial)
    requires forall k | 0 <= k < |buffers| :: buffers[k].Ok()
    ensures t == Triviality(buffers, shape)
  {
    var c, f := true, true;
    var i := 0;
    while i < |buffers| && (c || f)
      invariant i <= |buffers|
      invariant c <==> forall k | 0 <= k < i :: CReady(buffers[k], shape)
      invariant f <==> forall k | 0 <= k < i :: FReady(buffers[k], shape)
    {
      var b := buffers[i];
      if b.size != 1 {
        if |b.shape| != |shape| || b.shape != shape {
          assert !CReady(b, shape) && !FReady(b, shape);
          return NonTrivial;
        }
        if c { c := IsCContiguous(b); }
        if f { f := IsFContiguous(b); }
      }
      i := i + 1;
    }
    t := if c then CTrivial else if f then FTrivial else NonTrivial;
  }

  lemma CommonConform(buffers: seq<Buffer>, n: nat, shape: seq<int>)
    requires forall k | 0 <= k < |buffers| :: |buffers[k].shape| <= n
    requires AllCommon(buffers, n, |buffers|, shape)
    ensures Conform(buffers, n)
  {
    forall d, j, k | 0 <= d < n && 0 <= j < |buffers| && 0 <= k < |buffers|
      ensures var a, b := Extent(buffers[j].shape, n, d), Extent(buffers[k].shape, n, d); a == 1 || b == 1 || a == b
    {
      assert Common(buffers, n, |buffers|, d, shape[d]);
    }
  }

  /** `None` stands for the failure of incompatible inputs, which happens exactly when the
      buffers do not conform. */
  method Broadcast(buffers: seq<Buffer>) returns (ndim: nat, r: Option<(Trivial, seq<int>)>)
    requires forall k | 0 <= k < |buffers| :: buffers[k].Ok()
    ensures forall k | 0 <= k < |buffers| :: |buffers[k].shape| <= ndim
    ensures ndim == 0 || exists k :: 0 <= k < |buffers| && |buffers[k].shape| == ndim
    ensures r.Some? <==> Conform(buffers, ndim)
    ensures r.Some? ==> AllCommon(buffers, ndim, |buffers|, r.value.1) && r.value.0 == Triviality(buffers, r.value.1)
  {
    hide Common, Conform;
    ndim := MaxDims(buffers);
    var shape := seq(ndim, _ => 1);
    NothingMerged(buffers, ndim);
    var i := 0;
    while i < |buffers|
      invariant i <= |buffers| && AllCommon(buffers, ndim, i, shape)
    {
      var merged := MergeShape(buffers, i, ndim, shape);
      if merged.None? {
        return ndim, None;
      }
      shape := merged.value;
      i := i + 1;
    }
    var t := Classify(buffers, shape);
    CommonConform(buffers, ndim, shape);
    r := Some((t, shape));
  }

  lemma NothingMerged(buffers: seq<Buffer>, n: nat)
    requires forall k | 0 <= k < |buffers| :: |buffers[k].shape| <= n
    ensures AllCommon(buffers, n, 0, seq(n, _ => 1))
  {
  }
}
