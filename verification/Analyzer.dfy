/** The tags an analyzer keeps per function, in `N` separate tables. */
module Analyzer {
  import opened MultiMap

  type Table<F, T> = map<F, set<T>>

  function Moved<F, T>(t: Table<F, T>, pre: F, post: F): Table<F, T> {
    t[post := Get(t, pre)] - {pre}
  }

  class Analyzer<F(==, !new), T(==)> {
    const N: nat
    var tags: seq<Table<F, T>>

    constructor (n: nat)
      ensures Valid() && N == n && forall i | 0 <= i < n :: tags[i] == map[]
    {
      N, tags := n, seq(n, _ => map[]);
    }

    predicate Valid()
      reads this
    {
      |tags| == N
    }

    method AddTag(tag: T, f: F, idx: int)
      requires Valid()
      modifies this
      ensures Valid()
      ensures forall i, g {:trigger Get(tags[i], g)} | 0 <= i < N ::
                Get(tags[i], g) == Get(old(tags[i]), g) + if i == idx && g == f then {tag} else {}
    {
      if idx >= N || idx < 0 {
        return;
      }
      tags := tags[idx := Insert(tags[idx], f, tag)];
    }

    /** Hand the tags of `pre` over to `post`, whose own are lost. */
    method Move(pre: F, post: F)
      requires Valid()
      modifies this
      ensures Valid()
      ensures forall i | 0 <= i < N :: tags[i] == Moved(old(tags[i]), pre, post)
    {
      var i := 0;
      while i < N
        invariant i <= N && Valid()
        invariant forall j | 0 <= j < N :: tags[j] == if j < i then Moved(old(tags[j]), pre, post) else old(tags[j])
      {
        tags := tags[i := tags[i][post := Get(tags[i], pre)]];
        tags := tags[i := tags[i] - {pre}];
        i := i + 1;
      }
    }

    method Remove(f: F)
      requires Valid()
      modifies this
      ensures Valid()
      ensures forall i | 0 <= i < N :: tags[i] == old(tags[i]) - {f}
    {
      var i := 0;
      while i < N
        invariant i <= N && Valid()
        invariant forall j | 0 <= j < N :: tags[j] == if j < i then old(tags[j]) - {f} else old(tags[j])
      {
        tags := tags[i := tags[i] - {f}];
        i := i + 1;
      }
    }
  }
}
