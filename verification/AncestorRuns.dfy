/** When the answers of `IsAncestor` are right, over every sequence of queries on a fixed
    call graph. */
module AncestorRuns {
  import opened MultiMap
  import opened Reach
  import opened Ancestor

  /** What a query is meant to say. */
  ghost predicate IsAncestorOf<T(!new)>(g: Graph<T>, a: T, d: T) {
    a != d && Reaches(g, a, d)
  }

  // ---- Runs of queries ----

  type Queries<T> = seq<(T, T)>

  /** The caches after the first `n` queries, starting from empty ones. */
  ghost function After<T(!new)>(lookup: Lookup, g: Graph<T>, qs: Queries<T>, n: nat): Caches<T>
    requires n <= |qs|
  {
    if n == 0 then Caches(map[], map[])
    else Query(lookup, g, After(lookup, g, qs, n - 1), qs[n - 1].0, qs[n - 1].1).1
  }

  ghost function Answer<T(!new)>(lookup: Lookup, g: Graph<T>, qs: Queries<T>, n: nat): bool
    requires n < |qs|
  {
    Query(lookup, g, After(lookup, g, qs, n), qs[n].0, qs[n].1).0
  }

  ghost predicate Exact<T(!new)>(lookup: Lookup, g: Graph<T>, qs: Queries<T>, n: nat)
    requires n < |qs|
  {
    Answer(lookup, g, qs, n) == IsAncestorOf(g, qs[n].0, qs[n].1)
  }

  /** Everything cached is true; in particular no pair is in both caches. */
  ghost predicate Sound<T(!new)>(g: Graph<T>, c: Caches<T>) {
    && (forall a, d | a in Get(c.anc, d) :: IsAncestorOf(g, a, d))
    && (forall a, d | a in Get(c.neg, d) :: a != d && !Reaches(g, a, d))
  }

  /** The pairs cached after `n` queries are the pairs asked, except those of equal functions. */
  lemma {:induction false} CachedIffAsked<T(!new)>(lookup: Lookup, g: Graph<T>, qs: Queries<T>, n: nat, a: T, d: T)
    requires n <= |qs|
    ensures var c := After(lookup, g, qs, n);
            a in Get(c.anc, d) || a in Get(c.neg, d) <==> a != d && (a, d) in qs[..n]
  {
    if n > 0 {
      CachedIffAsked(lookup, g, qs, n - 1, a, d);
      CachedIffAsked(lookup, g, qs, n - 1, qs[n - 1].0, qs[n - 1].1);
      assert qs[..n] == qs[..n - 1] + [qs[n - 1]];
    }
  }

  /** Right answers leave sound caches. */
  lemma {:induction false} ExactKeepsSound<T(!new)>(lookup: Lookup, g: Graph<T>, qs: Queries<T>, n: nat)
    requires n <= |qs| && forall i | 0 <= i < n :: Exact(lookup, g, qs, i)
    ensures Sound(g, After(lookup, g, qs, n))
  {
    if n > 0 {
      ExactKeepsSound(lookup, g, qs, n - 1);
      assert Exact(lookup, g, qs, n - 1);
    }
  }

  // ---- The lookups as the caches are filled ----

  /** Skipping what is known not to be an ancestor, and stopping nowhere, loses nothing. */
  lemma PrunedWalkExact<T(!new)>(g: Graph<T>, c: Caches<T>, a: T, d: T)
    requires Sound(g, c)
    ensures Found(Filled, g, c, a, d) <==> Reaches(g, a, d)
  {
    var open := Passable(Filled, c, d);
    if Found(Filled, g, c, a, d) {
      var x :| ReachesVia(g, open, a, x) && Hit(Filled, c, d, x);
      var p :| IsPath(g, p, a, x) && Open(open, p);
      if x != d {
        ReachesTransitive(g, a, x, d);
      }
    }
    if Reaches(g, a, d) {
      var p :| IsPath(g, p, a, d);
      forall i | 0 <= i < |p| - 1 ensures open(p[i]) {
        SuffixReaches(g, p, a, d, i);
      }
      assert Open(open, p);
      assert Hit(Filled, c, d, d);
    }
  }

  /** With the lookups as the caches are filled, every answer of every run is right, and the
      caches stay sound and disjoint. */
  lemma {:induction false} FilledAlwaysExact<T(!new)>(g: Graph<T>, qs: Queries<T>, n: nat)
    requires n <= |qs|
    ensures Sound(g, After(Filled, g, qs, n))
    ensures forall d :: Get(After(Filled, g, qs, n).anc, d) !! Get(After(Filled, g, qs, n).neg, d)
    ensures n < |qs| ==> Exact(Filled, g, qs, n)
  {
    if n > 0 {
      FilledAlwaysExact(g, qs, n - 1);
      forall i | 0 <= i < n ensures Exact(Filled, g, qs, i) {
        FilledAlwaysExact(g, qs, i);
      }
      ExactKeepsSound(Filled, g, qs, n);
    }
    if n < |qs| {
      PrunedWalkExact(g, After(Filled, g, qs, n), qs[n].0, qs[n].1);
    }
  }

  // ---- The lookups as they are ----

  /** A pair is asked for the first time after its descendant was asked about as an ancestor. */
  ghost predicate Clash<T(!new)>(qs: Queries<T>, i: nat, j: nat) {
    && i < j < |qs|
    && qs[i].0 == qs[j].1
    && qs[i].0 != qs[i].1 && qs[j].0 != qs[j].1
    && qs[j] !in qs[..j]
  }

  ghost predicate NoClash<T(!new)>(qs: Queries<T>) {
    forall i: nat, j: nat :: !Clash(qs, i, j)
  }

  /** Every answer is right whatever the call graph. */
  ghost predicate AlwaysExact<T(!new)>(lookup: Lookup, qs: Queries<T>) {
    forall g: Graph<T>, i: nat | i < |qs| :: Exact(lookup, g, qs, i)
  }

  lemma UnprunedWalkExact<T(!new)>(g: Graph<T>, c: Caches<T>, a: T, d: T)
    requires forall y :: d !in Get(c.anc, y) && d !in Get(c.neg, y)
    ensures Found(Swapped, g, c, a, d) <==> Reaches(g, a, d)
  {
    var open := Passable(Swapped, c, d);
    if Found(Swapped, g, c, a, d) {
      var x :| ReachesVia(g, open, a, x) && Hit(Swapped, c, d, x);
      assert x == d;
    }
    if Reaches(g, a, d) {
      var p :| IsPath(g, p, a, d);
      assert Open(open, p);
      assert Hit(Swapped, c, d, d);
    }
  }

  lemma {:induction false} NoClashExact<T(!new)>(g: Graph<T>, qs: Queries<T>, n: nat)
    requires NoClash(qs) && n < |qs|
    ensures Exact(Swapped, g, qs, n)
  {
    forall i | 0 <= i < n ensures Exact(Swapped, g, qs, i) {
      NoClashExact(g, qs, i);
    }
    ExactKeepsSound(Swapped, g, qs, n);
    var c, a, d := After(Swapped, g, qs, n), qs[n].0, qs[n].1;
    CachedIffAsked(Swapped, g, qs, n, a, d);
    if a != d && (a, d) !in qs[..n] {
      forall y ensures d !in Get(c.anc, y) && d !in Get(c.neg, y) {
        CachedIffAsked(Swapped, g, qs, n, d, y);
        if d != y && (d, y) in qs[..n] {
          var i :| 0 <= i < n && qs[i] == (d, y);
          assert Clash(qs, i, n);
        }
      }
      UnprunedWalkExact(g, c, a, d);
    }
  }

  /** The call graph on which a clash shows: from `a`, by way of `c` when that is another
      function, to `d`. */
  function Witness<T(==)>(a: T, c: T, d: T): Graph<T> {
    if a == c then map[a := {d}] else map[a := {c}, c := {d}]
  }

  lemma WitnessReaches<T(!new)>(a: T, c: T, d: T)
    requires a != d && c != d
    ensures Reaches(Witness(a, c, d), a, d)
    ensures forall x :: Reaches(Witness(a, c, d), d, x) ==> x == d
  {
    var g := Witness(a, c, d);
    if a == c {
      assert IsPath(g, [a, d], a, d);
    } else {
      assert IsPath(g, [a, c, d], a, d);
    }
    forall x | Reaches(g, d, x) ensures x == d {
      var p :| IsPath(g, p, d, x);
      assert Open((_: T) => true, p);
      ClosedContains(g, (_: T) => true, p, d, x, {d});
    }
  }

  /** With `d` on record as no ancestor of `c`, the walk from `a` is cut off before `d`. */
  lemma CutOff<T(!new)>(c: Caches<T>, a: T, y: T, d: T)
    requires a != d && y != d && d in Get(c.neg, y)
    requires forall x :: d !in Get(c.anc, x)
    ensures !Found(Swapped, Witness(a, y, d), c, a, d)
  {
    var g, open := Witness(a, y, d), Passable(Swapped, c, d);
    forall x | ReachesVia(g, open, a, x) ensures x == a || x == y {
      var p :| IsPath(g, p, a, x) && Open(open, p);
      assert !open(y);
      ClosedContains(g, open, p, a, x, {a, y});
    }
  }

  lemma ClashNotExact<T(!new)>(qs: Queries<T>, i: nat, j: nat)
    requires Clash(qs, i, j)
    ensures !AlwaysExact(Swapped, qs)
  {
    var a, y, d := qs[j].0, qs[i].1, qs[i].0;
    var g := Witness(a, y, d);
    if forall k: nat | k < j :: Exact(Swapped, g, qs, k) {
      WitnessReaches(a, y, d);
      ExactKeepsSound(Swapped, g, qs, j);
      var c := After(Swapped, g, qs, j);
      assert qs[i] in qs[..j];
      CachedIffAsked(Swapped, g, qs, j, d, y);
      CachedIffAsked(Swapped, g, qs, j, a, d);
      CutOff(c, a, y, d);
      assert !Exact(Swapped, g, qs, j);
    }
  }

  /** The lookups as they are give right answers on every call graph if and only if no pair
      is asked for the first time after its descendant was asked about as an ancestor. */
  lemma SwappedExactIffNoClash<T(!new)>(qs: Queries<T>)
    ensures AlwaysExact(Swapped, qs) <==> NoClash(qs)
  {
    if NoClash(qs) {
      forall g: Graph<T>, i: nat | i < |qs| ensures Exact(Swapped, g, qs, i) {
        NoClashExact(g, qs, i);
      }
    }
    if !NoClash(qs) {
      var i: nat, j: nat :| Clash(qs, i, j);
      ClashNotExact(qs, i, j);
    }
  }

  /** The operation analyzer asks only whether a top-level function is an ancestor of one
      that is not, so its queries never clash. */
  lemma TopLevelQueriesExact<T(!new)>(topLevel: T -> bool, qs: Queries<T>)
    requires forall k | 0 <= k < |qs| :: topLevel(qs[k].0) && !topLevel(qs[k].1)
    ensures AlwaysExact(Swapped, qs)
  {
    assert forall i, j | 0 <= i < |qs| && 0 <= j < |qs| :: qs[i].0 != qs[j].1;
    SwappedExactIffNoClash(qs);
  }

  /** Two queries on `0 -> 1 -> 2`: the second is answered no, though 0 is an ancestor of 2. */
  lemma SwappedMissesAncestor()
    ensures var g: Graph<int>, qs := map[0 := {1}, 1 := {2}], [(2, 1), (0, 2)];
            IsAncestorOf(g, 0, 2) && !Answer(Swapped, g, qs, 1)
  {
    var g: Graph<int>, qs := Witness(0, 1, 2), [(2, 1), (0, 2)];
    WitnessReaches(0, 1, 2);
    var c := Caches(map[], map[]);
    assert After(Swapped, g, qs, 0) == c;
    UnprunedWalkExact(g, c, 2, 1);
    assert After(Swapped, g, qs, 1) == Caches(map[], Insert(map[], 1, 2));
    CutOff(After(Swapped, g, qs, 1), 0, 1, 2);
  }
}
