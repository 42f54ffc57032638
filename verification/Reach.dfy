/** Paths in a finite graph given by successor sets. */
module Reach {
  import opened MultiMap

  type Graph<T> = map<T, set<T>>

  ghost predicate IsPath<T>(g: Graph<T>, p: seq<T>, a: T, b: T) {
    |p| > 0 && p[0] == a && p[|p| - 1] == b && forall i | 0 <= i < |p| - 1 :: p[i + 1] in Get(g, p[i])
  }

  ghost predicate Reaches<T(!new)>(g: Graph<T>, a: T, b: T) {
    exists p :: IsPath(g, p, a, b)
  }

  /** Every node of the path that is left again is open. */
  ghost predicate Open<T>(open: T -> bool, p: seq<T>) {
    forall i | 0 <= i < |p| - 1 :: open(p[i])
  }

  ghost predicate ReachesVia<T(!new)>(g: Graph<T>, open: T -> bool, a: T, b: T) {
    exists p :: IsPath(g, p, a, b) && Open(open, p)
  }

  lemma ReachesSelf<T(!new)>(g: Graph<T>, open: T -> bool, a: T)
    ensures ReachesVia(g, open, a, a) && Reaches(g, a, a)
  {
    assert IsPath(g, [a], a, a) && Open(open, [a]);
  }

  lemma ReachesStep<T(!new)>(g: Graph<T>, open: T -> bool, a: T, b: T, c: T)
    requires ReachesVia(g, open, a, b) && open(b) && c in Get(g, b)
    ensures ReachesVia(g, open, a, c)
  {
    var p :| IsPath(g, p, a, b) && Open(open, p);
    assert IsPath(g, p + [c], a, c) && Open(open, p + [c]);
  }

  lemma ReachesTransitive<T(!new)>(g: Graph<T>, a: T, b: T, c: T)
    requires Reaches(g, a, b) && Reaches(g, b, c)
    ensures Reaches(g, a, c)
  {
    var p :| IsPath(g, p, a, b);
    var q :| IsPath(g, q, b, c);
    var r := p + q[1..];
    forall i | 0 <= i < |r| - 1 ensures r[i + 1] in Get(g, r[i]) {
      if i < |p| - 1 {
        assert r[i] == p[i] && r[i + 1] == p[i + 1];
      } else {
        assert r[i] == q[i - (|p| - 1)] && r[i + 1] == q[i + 1 - (|p| - 1)];
      }
    }
    assert IsPath(g, r, a, c);
  }

  /** Each node of a path reaches its end. */
  lemma SuffixReaches<T(!new)>(g: Graph<T>, p: seq<T>, a: T, b: T, i: nat)
    requires IsPath(g, p, a, b) && i < |p|
    ensures Reaches(g, p[i], b)
  {
    assert IsPath(g, p[i..], p[i], b);
  }

  /** A set that contains the start and is closed under open steps contains what is reached. */
  lemma {:induction false} ClosedContains<T(!new)>(g: Graph<T>, open: T -> bool, p: seq<T>, a: T, b: T, s: set<T>)
    requires IsPath(g, p, a, b) && Open(open, p)
    requires a in s && forall x | x in s && open(x) :: Get(g, x) <= s
    ensures b in s
  {
    if |p| > 1 {
      assert p[1] in Get(g, p[0]);
      ClosedContains(g, open, p[1..], p[1], b, s);
    }
  }
}
