/** The map from a line of the new version of a file to a line of the old version, given the
    deleted and the added line numbers. */
module LineMap {

  /** Line numbers, strictly ascending. */
  predicate Ascending(s: seq<int>) {
    && (forall i | 0 <= i < |s| :: s[i] >= 1)
    && (forall i, j | 0 <= i < j < |s| :: s[i] < s[j])
  }

  /** How many of the listed lines are at or above line `x`. */
  function CountUpTo(s: seq<int>, x: int): nat {
    if s == [] then 0 else (if s[0] <= x then 1 else 0) + CountUpTo(s[1..], x)
  }

  predicate Kept(s: seq<int>, x: int) {
    x >= 1 && x !in s
  }

  /** The `n`th line below `base` that is not listed. */
  function NthKept(s: seq<int>, base: int, n: int): int
    decreases |s|
  {
    if s == [] || n - (s[0] - base - 1) <= 0 then base + n
    else NthKept(s[1..], s[0], n - (s[0] - base - 1))
  }

  function MapLine(del: seq<int>, add: seq<int>, post: int): int {
    NthKept(del, 0, post - CountUpTo(add, post))
  }

  lemma {:induction false} CountNone(s: seq<int>, x: int)
    requires forall i | 0 <= i < |s| :: s[i] > x
    ensures CountUpTo(s, x) == 0
  {
    if s != [] { CountNone(s[1..], x); }
  }

  lemma {:induction false} CountAppend(s: seq<int>, t: seq<int>, x: int)
    ensures CountUpTo(s + t, x) == CountUpTo(s, x) + CountUpTo(t, x)
  {
    if s == [] {
      assert s + t == t;
    } else {
      assert (s + t)[1..] == s[1..] + t;
      CountAppend(s[1..], t, x);
    }
  }

  lemma {:induction false} CountAll(s: seq<int>, x: int)
    requires forall i | 0 <= i < |s| :: s[i] <= x
    ensures CountUpTo(s, x) == |s|
  {
    if s != [] { CountAll(s[1..], x); }
  }

  /** The loops of `_MapPostToPreLine`. */
  method MapPostToPreLine(del: seq<int>, add: seq<int>, postLine: int) returns (preLine: int)
    requires Ascending(del) && Ascending(add)
    ensures preLine == MapLine(del, add, postLine)
  {
    var nUnchanged := postLine;
    var i := 0;
    while i < |add| && add[i] <= postLine
      invariant i <= |add|
      invariant nUnchanged == postLine - i
      invariant forall j | 0 <= j < i :: add[j] <= postLine
    {
      nUnchanged := nUnchanged - 1;
      i := i + 1;
    }
    assert add == add[..i] + add[i..];
    CountAppend(add[..i], add[i..], postLine);
    CountAll(add[..i], postLine);
    CountNone(add[i..], postLine);

    preLine := 0;
    i := 0;
    while i < |del| && nUnchanged - (del[i] - preLine - 1) > 0
      invariant i <= |del|
      invariant NthKept(del[i..], preLine, nUnchanged) == MapLine(del, add, postLine)
    {
      assert del[i..][1..] == del[i + 1..];
      nUnchanged := nUnchanged - (del[i] - preLine - 1);
      preLine := del[i];
      i := i + 1;
    }
    preLine := preLine + nUnchanged;
  }

  // ---- What the map is ----

  /** The line found is not listed, and the right number of lines above it are not. */
  lemma {:induction false} NthKeptExact(s: seq<int>, base: int, n: int)
    requires forall i | 0 <= i < |s| :: s[i] > base
    requires forall i, j | 0 <= i < j < |s| :: s[i] < s[j]
    ensures var r := NthKept(s, base, n); n <= 0 ==> r == base + n
    ensures var r := NthKept(s, base, n); n > 0 ==> r > base && r !in s && r - base - CountUpTo(s, r) == n
  {
    if s == [] {
    } else if n - (s[0] - base - 1) <= 0 {
      var r := base + n;
      CountNone(s, r);
      assert forall i | 0 <= i < |s| :: s[i] >= s[0];
    } else {
      NthKeptExact(s[1..], s[0], n - (s[0] - base - 1));
      var r := NthKept(s, base, n);
      assert s == [s[0]] + s[1..];
    }
  }

  /** Counting over an interval: no more than its length, and less when its end is kept. */
  lemma {:induction false} CountInterval(s: seq<int>, x: int, y: int)
    requires x <= y && forall i, j | 0 <= i < j < |s| :: s[i] < s[j]
    ensures 0 <= CountUpTo(s, y) - CountUpTo(s, x) <= y - x
    ensures x < y && y !in s ==> CountUpTo(s, y) - CountUpTo(s, x) < y - x
    decreases y - x
  {
    if x < y {
      CountInterval(s, x, y - 1);
      CountOneStep(s, y);
    }
  }

  lemma {:induction false} CountOneStep(s: seq<int>, y: int)
    requires forall i, j | 0 <= i < j < |s| :: s[i] < s[j]
    ensures CountUpTo(s, y) == CountUpTo(s, y - 1) + (if y in s then 1 else 0)
  {
    if s != [] {
      CountOneStep(s[1..], y);
      if s[0] == y {
        CountNone(s[1..], y);
        assert y !in s[1..];
      }
      assert s == [s[0]] + s[1..];
    }
  }

  /** The number of a kept line among the kept lines is positive. */
  lemma KeptRank(s: seq<int>, x: int)
    requires Ascending(s) && Kept(s, x)
    ensures x - CountUpTo(s, x) >= 1
  {
    CountNone(s, 0);
    CountInterval(s, 0, x);
  }

  /** Two kept lines of the same rank are the same line. */
  lemma RankInjective(s: seq<int>, x: int, y: int)
    requires Ascending(s) && Kept(s, x) && Kept(s, y)
    ensures x < y <==> x - CountUpTo(s, x) < y - CountUpTo(s, y)
  {
    if x < y { CountInterval(s, x, y); }
    if y < x { CountInterval(s, y, x); }
  }

  /** A kept line goes to the kept line of the same rank. */
  lemma KeptGoesToKept(del: seq<int>, add: seq<int>, post: int)
    requires Ascending(del) && Ascending(add) && Kept(add, post)
    ensures var pre := MapLine(del, add, post);
            Kept(del, pre) && pre - CountUpTo(del, pre) == post - CountUpTo(add, post)
  {
    KeptRank(add, post);
    NthKeptExact(del, 0, post - CountUpTo(add, post));
  }

  lemma StrictlyIncreasing(del: seq<int>, add: seq<int>, x: int, y: int)
    requires Ascending(del) && Ascending(add) && Kept(add, x) && Kept(add, y) && x < y
    ensures MapLine(del, add, x) < MapLine(del, add, y)
  {
    KeptGoesToKept(del, add, x);
    KeptGoesToKept(del, add, y);
    RankInjective(add, x, y);
    RankInjective(del, MapLine(del, add, x), MapLine(del, add, y));
  }

  /** The same map with the lists exchanged undoes it: it is a bijection from the kept new
      lines to the kept old lines. */
  lemma ExchangedIsInverse(del: seq<int>, add: seq<int>, post: int)
    requires Ascending(del) && Ascending(add) && Kept(add, post)
    ensures MapLine(add, del, MapLine(del, add, post)) == post
  {
    var pre := MapLine(del, add, post);
    KeptGoesToKept(del, add, post);
    KeptGoesToKept(add, del, pre);
    var back := MapLine(add, del, pre);
    RankInjective(add, back, post);
    RankInjective(add, post, back);
  }

  lemma NeverDeleted(del: seq<int>, add: seq<int>, post: int)
    requires Ascending(del) && Ascending(add)
    ensures MapLine(del, add, post) !in del
  {
    NthKeptExact(del, 0, post - CountUpTo(add, post));
  }

  /** An added line goes where the nearest kept line above it goes, or to 0 when there is none. */
  lemma {:induction false} AddedGoesAbove(del: seq<int>, add: seq<int>, post: int)
    requires Ascending(del) && Ascending(add) && post in add
    ensures (exists x :: x < post && Kept(add, x)) ==>
              exists x :: x < post && Kept(add, x) && (forall y | x < y < post :: !Kept(add, y)) &&
                          MapLine(del, add, post) == MapLine(del, add, x)
    ensures (forall x | x < post :: !Kept(add, x)) ==> MapLine(del, add, post) == 0
    decreases post
  {
    CountOneStep(add, post);
    assert MapLine(del, add, post) == MapLine(del, add, post - 1);
    if post - 1 in add {
      AddedGoesAbove(del, add, post - 1);
      if x :| x < post && Kept(add, x) {
        assert x < post - 1;
        var z :| z < post - 1 && Kept(add, z) && (forall y | z < y < post - 1 :: !Kept(add, y)) &&
                 MapLine(del, add, post - 1) == MapLine(del, add, z);
        assert forall y | z < y < post :: !Kept(add, y);
      }
    } else if post - 1 >= 1 {
      assert Kept(add, post - 1);
    } else {
      CountNone(add, 0);
      NthKeptExact(del, 0, 0);
    }
  }
}
