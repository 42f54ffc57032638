/** The iterator that walks several buffers at once in row-major order of a common shape,
    with a single precomputed stride added per step. */
module ArrayIterator {
  import opened Strides

  /** The way back from the last element of a block to its first. */
  function Rewind(strides: seq<int>, shape: seq<int>): int
    requires |strides| == |shape|
  {
    if shape == [] then 0 else strides[0] * (shape[0] - 1) + Rewind(strides[1..], shape[1..])
  }

  /** One step along dimension `d`, from the last element of the dimensions after it. */
  function StepStride(strides: seq<int>, shape: seq<int>, d: nat): int
    requires |strides| == |shape| && d < |shape|
  {
    strides[d] - Rewind(strides[d + 1..], shape[d + 1..])
  }

  datatype CommonIterator = CommonIterator(ptr: int, steps: seq<int>) {
    function Increment(dim: nat): CommonIterator
      requires dim < |steps|
    {
      this.(ptr := ptr + steps[dim])
    }
  }

  /** The constructor of `common_iterator`. */
  method MakeCommonIterator(ptr: int, strides: seq<int>, shape: seq<int>) returns (it: CommonIterator)
    requires |strides| == |shape| > 0
    ensures it.ptr == ptr && |it.steps| == |shape|
    ensures forall d | 0 <= d < |shape| :: it.steps[d] == StepStride(strides, shape, d)
  {
    var n := |strides|;
    var steps := seq(n, _ => 0);
    steps := steps[n - 1 := strides[n - 1]];
    var i := n - 1;
    while i != 0
      invariant 0 <= i < n == |steps|
      invariant forall d | i <= d < n :: steps[d] == StepStride(strides, shape, d)
    {
      var j := i - 1;
      assert strides[i..][1..] == strides[i + 1..] && shape[i..][1..] == shape[i + 1..];
      assert strides[i] * (shape[i] - 1) == strides[i] * shape[i] - strides[i];
      steps := steps[j := strides[j] + steps[i] - strides[i] * shape[i]];
      i := j;
    }
    it := CommonIterator(ptr, steps);
  }

  // ---- One step of the odometer ----

  /** All digits after position `d` are at their end, the one at `d` is not. */
  ghost predicate CarriesAt(index: seq<int>, shape: seq<int>, d: nat) {
    && InShape(index, shape) && d < |shape|
    && index[d] + 1 != shape[d] && forall e | d < e < |shape| :: index[e] + 1 == shape[e]
  }

  function Carried(index: seq<int>, d: nat): seq<int>
    requires d < |index|
  {
    index[..d] + [index[d] + 1] + seq(|index| - d - 1, _ => 0)
  }

  lemma {:induction false} AllLast(index: seq<int>, shape: seq<int>, strides: seq<int>)
    requires |index| == |shape| == |strides| && forall e | 0 <= e < |shape| :: index[e] + 1 == shape[e]
    ensures ByteOffset(strides, index) == Rewind(strides, shape)
    ensures Row(index, shape) == Size(shape) - 1
  {
    if index != [] {
      AllLast(index[1..], shape[1..], strides[1..]);
      assert index[0] * Size(shape[1..]) + Size(shape[1..]) == shape[0] * Size(shape[1..]);
    }
  }

  lemma {:induction false} AllFirst(index: seq<int>, shape: seq<int>, strides: seq<int>)
    requires |index| == |shape| == |strides| && forall e | 0 <= e < |index| :: index[e] == 0
    ensures ByteOffset(strides, index) == 0 && Row(index, shape) == 0
  {
    if index != [] {
      AllFirst(index[1..], shape[1..], strides[1..]);
    }
  }

  lemma CarriedFirst(index: seq<int>, shape: seq<int>, strides: seq<int>)
    requires CarriesAt(index, shape, 0) && |strides| == |shape|
    ensures InShape(Carried(index, 0), shape)
    ensures Row(Carried(index, 0), shape) == Row(index, shape) + 1
    ensures ByteOffset(strides, Carried(index, 0)) == ByteOffset(strides, index) + StepStride(strides, shape, 0)
  {
    var next := Carried(index, 0);
    assert next[0] == index[0] + 1 && forall e | 0 < e < |next| :: next[e] == 0;
    hide Carried;
    FirstDigit(index, shape, strides);
    FirstDigit(next, shape, strides);
    AllLast(index[1..], shape[1..], strides[1..]);
    AllFirst(next[1..], shape[1..], strides[1..]);
    OneMoreTimes(index[0], strides[0]);
    OneMoreTimes(index[0], Size(shape[1..]));
    hide Size, Rewind, Row, ByteOffset;
  }

  lemma FirstDigit(index: seq<int>, shape: seq<int>, strides: seq<int>)
    requires |index| == |shape| == |strides| > 0
    ensures Row(index, shape) == index[0] * Size(shape[1..]) + Row(index[1..], shape[1..])
    ensures ByteOffset(strides, index) == index[0] * strides[0] + ByteOffset(strides[1..], index[1..])
  {
  }

  lemma CarriedOfRest(index: seq<int>, d: nat)
    requires 0 < d < |index|
    ensures Carried(index, d)[0] == index[0] && Carried(index, d)[1..] == Carried(index[1..], d - 1)
  {
  }

  /** The carried index is the next one in row-major order, one step stride further. */
  lemma {:induction false} CarriedIsNext(index: seq<int>, shape: seq<int>, strides: seq<int>, d: nat)
    requires CarriesAt(index, shape, d) && |strides| == |shape|
    ensures InShape(Carried(index, d), shape)
    ensures Row(Carried(index, d), shape) == Row(index, shape) + 1
    ensures ByteOffset(strides, Carried(index, d)) == ByteOffset(strides, index) + StepStride(strides, shape, d)
  {
    if d == 0 {
      CarriedFirst(index, shape, strides);
    } else {
      assert CarriesAt(index[1..], shape[1..], d - 1);
      CarriedIsNext(index[1..], shape[1..], strides[1..], d - 1);
      CarriedOfRest(index, d);
      StepStrideOfRest(strides, shape, d);
      assert forall e | 0 < e < |shape| :: Carried(index, d)[e] == Carried(index, d)[1..][e - 1] && shape[e] == shape[1..][e - 1];
      hide Carried, StepStride, Size;
    }
  }

  lemma OneMoreTimes(i: int, n: int)
    ensures (i + 1) * n == i * n + n
  {
  }

  lemma StepStrideOfRest(strides: seq<int>, shape: seq<int>, d: nat)
    requires |strides| == |shape| && 0 < d < |shape|
    ensures StepStride(strides, shape, d) == StepStride(strides[1..], shape[1..], d - 1)
  {
    assert strides[1..][d..] == strides[d + 1..] && shape[1..][d..] == shape[d + 1..];
  }

  class MultiArrayIterator {
    const shape: seq<int>
    var index: seq<int>
    var iterators: seq<CommonIterator>
    /** Base pointer and strides of each buffer. */
    ghost const bases: seq<int>
    ghost const strides: seq<seq<int>>

    ghost predicate Valid()
      reads this
    {
      && |iterators| == |bases| == |strides|
      && InShape(index, shape)
      && forall b | 0 <= b < |bases| ::
           && |strides[b]| == |shape| == |iterators[b].steps|
           && forall d | 0 <= d < |shape| :: iterators[b].steps[d] == StepStride(strides[b], shape, d)
    }

    /** Every pointer is at its base plus the offset of the current index. */
    ghost predicate Positioned()
      reads this
      requires Valid()
    {
      forall b | 0 <= b < |bases| :: iterators[b].ptr == bases[b] + ByteOffset(strides[b], index)
    }

    constructor (ptrs: seq<int>, strides: seq<seq<int>>, shape: seq<int>)
      requires |ptrs| == |strides| && forall b | 0 <= b < |strides| :: |strides[b]| == |shape|
      requires |shape| > 0 && forall d | 0 <= d < |shape| :: shape[d] >= 1
      ensures this.shape == shape && bases == ptrs && this.strides == strides
      ensures Valid() && Positioned() && Row(index, shape) == 0
    {
      var its: seq<CommonIterator> := [];
      var b := 0;
      while b < |ptrs|
        invariant b <= |ptrs| && |its| == b
        invariant forall c | 0 <= c < b :: its[c].ptr == ptrs[c] && |its[c].steps| == |shape| &&
                                           forall d | 0 <= d < |shape| :: its[c].steps[d] == StepStride(strides[c], shape, d)
      {
        var it := MakeCommonIterator(ptrs[b], strides[b], shape);
        its := its + [it];
        b := b + 1;
      }
      this.shape, index := shape, seq(|shape|, _ => 0);
      bases, this.strides := ptrs, strides;
      iterators := its;
      new;
      forall c | 0 <= c < |ptrs| ensures ByteOffset(strides[c], index) == 0 {
        AllFirst(index, shape, strides[c]);
      }
      AllFirst(index, shape, shape);
    }

    method IncrementCommonIterator(dim: nat)
      requires Valid() && dim < |shape|
      modifies this`iterators
      ensures Valid()
      ensures forall b | 0 <= b < |bases| ::
                iterators[b].ptr == old(iterators[b].ptr) + StepStride(strides[b], shape, dim)
    {
      var b := 0;
      while b < |iterators|
        invariant b <= |iterators| && Valid()
        invariant forall c | 0 <= c < |bases| ::
                    iterators[c].ptr ==
                    old(iterators[c].ptr) + (if c < b then StepStride(strides[c], shape, dim) else 0)
      {
        iterators := iterators[b := iterators[b].Increment(dim)];
        b := b + 1;
      }
    }

    /** `operator++`: after the last position the index starts over. */
    method Increment()
      requires Valid() && Positioned()
      modifies this
      ensures Valid()
      ensures old(Row(index, shape)) + 1 < Size(shape) ==>
                Positioned() && Row(index, shape) == old(Row(index, shape)) + 1
      ensures old(Row(index, shape)) + 1 == Size(shape) ==> Row(index, shape) == 0
    {
      var j := |index|;
      ghost var start := index;
      while j != 0
        invariant 0 <= j <= |start| == |index|
        invariant forall e | j <= e < |start| :: start[e] + 1 == shape[e]
        invariant index == start[..j] + seq(|start| - j, _ => 0)
        invariant Valid() && iterators == old(iterators)
        decreases j
      {
        var i := j - 1;
        index := index[i := index[i] + 1];
        if index[i] != shape[i] {
          assert index == Carried(start, i);
          assert CarriesAt(start, shape, i);
          forall b | 0 <= b < |bases|
            ensures ByteOffset(strides[b], index) == ByteOffset(strides[b], start) + StepStride(strides[b], shape, i)
          {
            CarriedIsNext(start, shape, strides[b], i);
          }
          CarriedIsNext(start, shape, shape, i);
          RowBounds(index, shape);
          IncrementCommonIterator(i);
          return;
        }
        index := index[i := 0];
        j := i;
      }
      AllLast(start, shape, shape);
      AllFirst(index, shape, shape);
    }
  }
}
