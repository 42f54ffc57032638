/** `IsAncestor` and its two caches. The caches are filled as `cache[descendant]` containing
    the ancestor, and looked up that way before the walk; the lookups during the walk have
    the two functions the other way round. Both readings are studied here; the method is
    the one with the lookups as the code has them. */
module Ancestor {
  import opened MultiMap
  import opened Reach
  import opened GraphWalk

  datatype Caches<T> = Caches(anc: map<T, set<T>>, neg: map<T, set<T>>)

  /** How the walk looks up whether `cur` is a known (non-)ancestor of `des`. */
  datatype Lookup = Filled | Swapped

  predicate Cached<T(==)>(lookup: Lookup, cache: map<T, set<T>>, cur: T, des: T) {
    match lookup
    case Filled => cur in Get(cache, des)
    case Swapped => des in Get(cache, cur)
  }

  predicate Hit<T(==)>(lookup: Lookup, c: Caches<T>, des: T, cur: T) {
    cur == des || Cached(lookup, c.anc, cur, des)
  }

  function Act<T(==)>(lookup: Lookup, c: Caches<T>, des: T, cur: T): Verdict {
    if Hit(lookup, c, des, cur) then STOP
    else if Cached(lookup, c.neg, cur, des) then SKIP
    else NEXT
  }

  function Asking<T(==)>(lookup: Lookup, c: Caches<T>, des: T): Actor<T> {
    (_, cur) => Act(lookup, c, des, cur)
  }

  function Passable<T(==)>(lookup: Lookup, c: Caches<T>, des: T): T -> bool {
    cur => Act(lookup, c, des, cur) != SKIP
  }

  /** The walk comes across the descendant or a known ancestor of it. */
  ghost predicate Found<T(!new)>(lookup: Lookup, g: Graph<T>, c: Caches<T>, a: T, d: T) {
    exists x :: ReachesVia(g, Passable(lookup, c, d), a, x) && Hit(lookup, c, d, x)
  }

  /** The answer to a query, and the caches after it. */
  ghost function Query<T(!new)>(lookup: Lookup, g: Graph<T>, c: Caches<T>, a: T, d: T): (bool, Caches<T>) {
    if a == d then (false, c)
    else if a in Get(c.anc, d) then (true, c)
    else if a in Get(c.neg, d) then (false, c)
    else if Found(lookup, g, c, a, d) then (true, c.(anc := Insert(c.anc, d, a)))
    else (false, c.(neg := Insert(c.neg, d, a)))
  }

  class AncestorCache<T(==,!new)> {
    const Callees: Graph<T>
    var AncCache: map<T, set<T>>
    var NegAncCache: map<T, set<T>>

    constructor (callees: Graph<T>)
      ensures Callees == callees && Snapshot() == Caches(map[], map[])
    {
      Callees, AncCache, NegAncCache := callees, map[], map[];
    }

    ghost function Snapshot(): Caches<T>
      reads this
    {
      Caches(AncCache, NegAncCache)
    }

    method IsAncestor(ancF: T, desF: T) returns (isAnc: bool)
      modifies this
      ensures (isAnc, Snapshot()) == Query(Swapped, Callees, old(Snapshot()), ancF, desF)
    {
      if ancF == desF {
        return false;
      }
      if ancF in Get(AncCache, desF) {
        return true;
      }
      if ancF in Get(NegAncCache, desF) {
        return false;
      }
      var c := Caches(AncCache, NegAncCache);
      isAnc := Walk(c, ancF, desF);
      if isAnc {
        AncCache := Insert(AncCache, desF, ancF);
      } else {
        NegAncCache := Insert(NegAncCache, desF, ancF);
      }
    }

    /** The walk, whose action sets the answer at every hit. */
    method Walk(c: Caches<T>, ancF: T, desF: T) returns (isAnc: bool)
      ensures isAnc <==> Found(Swapped, Callees, c, ancF, desF)
    {
      var trace := VisitSubtreeBFS(Callees, ancF, Asking(Swapped, c, desF));
      isAnc := false;
      var i := 0;
      while i < |trace|
        invariant i <= |trace| && isAnc == AnyHit(Swapped, c, desF, trace, i)
      {
        if Hit(Swapped, c, desF, trace[i]) {
          isAnc := true;
        }
        i := i + 1;
      }
      FoundInTrace(Swapped, Callees, c, ancF, desF, trace);
    }
  }

  lemma FoundInTrace<T(!new)>(lookup: Lookup, g: Graph<T>, c: Caches<T>, a: T, d: T, trace: seq<T>)
    requires Walked(g, a, Asking(lookup, c, d), trace)
    ensures Found(lookup, g, c, a, d) <==> AnyHit(lookup, c, d, trace, |trace|)
  {
    AnyHitExact(lookup, c, d, trace, |trace|);
    if Found(lookup, g, c, a, d) {
      var x :| ReachesVia(g, Passable(lookup, c, d), a, x) && Hit(lookup, c, d, x);
      WalkedExactly(g, a, Asking(lookup, c, d), Passable(lookup, c, d), trace, x);
    }
    if AnyHit(lookup, c, d, trace, |trace|) {
      var j :| 0 <= j < |trace| && Hit(lookup, c, d, trace[j]);
      WalkedExactly(g, a, Asking(lookup, c, d), Passable(lookup, c, d), trace, trace[j]);
    }
  }

  /** One of the first `n` nodes of the trace is a hit. */
  ghost predicate AnyHit<T>(lookup: Lookup, c: Caches<T>, d: T, trace: seq<T>, n: nat)
    requires n <= |trace|
  {
    n > 0 && (AnyHit(lookup, c, d, trace, n - 1) || Hit(lookup, c, d, trace[n - 1]))
  }

  lemma {:induction false} AnyHitExact<T>(lookup: Lookup, c: Caches<T>, d: T, trace: seq<T>, n: nat)
    requires n <= |trace|
    ensures AnyHit(lookup, c, d, trace, n) <==> exists j :: 0 <= j < n && Hit(lookup, c, d, trace[j])
  {
    if n > 0 {
      AnyHitExact(lookup, c, d, trace, n - 1);
    }
  }
}
