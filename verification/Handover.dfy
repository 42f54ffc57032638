/** Who ends up with which tags and results after `_CorrectChanges`. */
module Handover {
  import opened MultiMap
  import opened Options
  import opened Analyzer
  import opened Matching
  import opened CorrectChanges

  /** New functions are not deleted ones, and are listed once. */
  ghost predicate Separate<F>(ps: seq<Pairing<F>>, dels: set<F>) {
    && (forall k | 0 <= k < |ps| :: ps[k].newF !in dels && (ps[k].match'.Some? ==> ps[k].match'.value in dels))
    && (forall j, k | 0 <= j < k < |ps| :: ps[j].newF != ps[k].newF)
  }

  /** One of the first `n` new functions is matched with `d`. */
  ghost predicate Taken<F>(ps: seq<Pairing<F>>, n: nat, d: F)
    requires n <= |ps|
  {
    exists j :: 0 <= j < n && ps[j].match' == Some(d)
  }

  ghost predicate IsNew<F>(ps: seq<Pairing<F>>, n: nat, f: F)
    requires n <= |ps|
  {
    exists j :: 0 <= j < n && ps[j].newF == f
  }

  lemma {:induction false} MovesSoFar<F, T>(t: Table<F, T>, ps: seq<Pairing<F>>, dels: set<F>, n: nat, f: F)
    requires Separate(ps, dels) && n <= |ps|
    ensures f in dels ==> Get(AfterMoves(t, ps[..n]), f) == if Taken(ps, n, f) then {} else Get(t, f)
    ensures f !in dels && !IsNew(ps, n, f) ==> Get(AfterMoves(t, ps[..n]), f) == Get(t, f)
    ensures forall k | 0 <= k < n && ps[k].newF == f ::
              Get(AfterMoves(t, ps[..n]), f) ==
              if ps[k].match'.None? then Get(t, f)
              else if Taken(ps, k, ps[k].match'.value) then {} else Get(t, ps[k].match'.value)
  {
    if n > 0 {
      var p := ps[n - 1];
      assert ps[..n][..n - 1] == ps[..n - 1];
      MovesSoFar(t, ps, dels, n - 1, f);
      if p.match'.Some? {
        MovesSoFar(t, ps, dels, n - 1, p.match'.value);
        MovedGets(AfterMoves(t, ps[..n - 1]), p.match'.value, p.newF, f);
      }
    }
  }

  lemma MovedGets<F, T>(t: Table<F, T>, pre: F, post: F, f: F)
    requires pre != post
    ensures Get(Moved(t, pre, post), f) == if f == pre then {} else if f == post then Get(t, pre) else Get(t, f)
  {
  }

  /** A matched new function holds its match's old tags, unless an earlier one took them;
      deleted functions hold none, and everybody else what they held. */
  lemma TagsHandedOver<F, T>(t: Table<F, T>, ps: seq<Pairing<F>>, dels: set<F>, f: F)
    requires Separate(ps, dels)
    ensures f in dels ==> f !in AfterMoves(t, ps) - dels
    ensures f !in dels && !IsNew(ps, |ps|, f) ==> Get(AfterMoves(t, ps) - dels, f) == Get(t, f)
    ensures forall k | 0 <= k < |ps| && ps[k].newF == f ::
              Get(AfterMoves(t, ps) - dels, f) ==
              if ps[k].match'.None? then Get(t, f)
              else if Taken(ps, k, ps[k].match'.value) then {} else Get(t, ps[k].match'.value)
  {
    MovesSoFar(t, ps, dels, |ps|, f);
    assert ps[..|ps|] == ps;
    assert f !in dels ==> Get(AfterMoves(t, ps) - dels, f) == Get(AfterMoves(t, ps), f);
  }

  /** Every matched new function ends up with exactly its match's tags in `t`. */
  ghost predicate AllHandedOver<F, T>(t: Table<F, T>, ps: seq<Pairing<F>>, dels: set<F>) {
    forall k | 0 <= k < |ps| && ps[k].match'.Some? ::
      Get(AfterMoves(t, ps) - dels, ps[k].newF) == Get(t, ps[k].match'.value)
  }

  /** No deleted function is the match of two new ones. */
  ghost predicate Injective<F>(ps: seq<Pairing<F>>) {
    forall j, k | 0 <= j < k < |ps| && ps[k].match'.Some? :: ps[j].match' != ps[k].match'
  }

  /** Every matched new function ends up with exactly its match's old tags, whatever those
      are, if and only if no two are matched with the same deleted function. */
  lemma AllTagsHandedOverIff<F, T(0)>(ps: seq<Pairing<F>>, dels: set<F>, tag: T)
    requires Separate(ps, dels)
    ensures (forall t: Table<F, T> :: AllHandedOver(t, ps, dels)) <==> Injective(ps)
  {
    if Injective(ps) {
      forall t: Table<F, T> ensures AllHandedOver(t, ps, dels) {
        forall k | 0 <= k < |ps| && ps[k].match'.Some?
          ensures Get(AfterMoves(t, ps) - dels, ps[k].newF) == Get(t, ps[k].match'.value)
        {
          TagsHandedOver(t, ps, dels, ps[k].newF);
        }
      }
    } else {
      var j, k :| 0 <= j < k < |ps| && ps[k].match'.Some? && ps[j].match' == ps[k].match';
      var t: Table<F, T> := map[ps[k].match'.value := {tag}];
      TagsHandedOver(t, ps, dels, ps[k].newF);
      assert Taken(ps, k, ps[k].match'.value);
      assert tag in Get(t, ps[k].match'.value);
      assert !AllHandedOver(t, ps, dels);
    }
  }

  const DELETED := [("old", 1)]
  const NEW := [("first", 1), ("second", 2)]
  const OLD_TAGS: Table<string, string> := map["old" := {"tag"}]

  /** The deleted line 1 is the closest to both new functions. */
  lemma BothMatched()
    ensures Pairings(DELETED, NEW, Lines([], [])) == [Pairing("first", Some("old")), Pairing("second", Some("old"))]
  {
    var lines := [1];
    assert LinesOf(DELETED) == lines;
    MatchIsClosest(lines, 1);
    MatchIsClosest(lines, 2);
    assert Distance(lines[0], 1) == 0 && Distance(lines[0], 2) == 1;
  }

  /** Of two new functions next to the line of one deleted function, the second ends up without
      its tags. */
  lemma SecondTakerLeftWithout()
    ensures var ps := Pairings(DELETED, NEW, Lines([], []));
            var after := AfterMoves(OLD_TAGS, ps) - Functions(DELETED);
            Separate(ps, Functions(DELETED)) && Get(after, "first") == {"tag"} && Get(after, "second") == {}
  {
    BothMatched();
    var ps := [Pairing("first", Some("old")), Pairing("second", Some("old"))];
    assert Functions(DELETED) == {"old"};
    assert ps[0].match' == Some("old");
    assert Taken(ps, 1, "old");
    hide AfterMoves;
    TagsHandedOver(OLD_TAGS, ps, {"old"}, ps[0].newF);
    TagsHandedOver(OLD_TAGS, ps, {"old"}, ps[1].newF);
  }

  /** A matched new function holds its match's results on top of its own, however many others
      are matched with the same function. */
  lemma {:induction false} ResultsAdded<F>(res: map<F, Results>, ps: seq<Pairing<F>>, dels: set<F>, n: nat, f: F, a: string, r: string)
    requires Separate(ps, dels) && n <= |ps|
    ensures f in dels || !IsNew(ps, n, f) ==> AfterMerges(res, ps[..n], f, a, r) == Look(res, f, a, r)
    ensures forall k | 0 <= k < n && ps[k].newF == f ::
              AfterMerges(res, ps[..n], f, a, r) ==
              Look(res, f, a, r) + (if ps[k].match'.Some? then Look(res, ps[k].match'.value, a, r) else {})
  {
    if n > 0 {
      var p := ps[n - 1];
      assert ps[..n][..n - 1] == ps[..n - 1];
      ResultsAdded(res, ps, dels, n - 1, f, a, r);
      if p.match'.Some? {
        ResultsAdded(res, ps, dels, n - 1, p.match'.value, a, r);
      }
    }
  }

  /** The pairings of the two lists are separate when the lists are. */
  lemma PairingsSeparate<F>(dels: seq<(F, int)>, news: seq<(F, int)>, lines: Lines)
    requires forall k | 0 <= k < |news| :: news[k].0 !in Functions(dels)
    requires forall j, k | 0 <= j < k < |news| :: news[j].0 != news[k].0
    ensures Separate(Pairings(dels, news, lines), Functions(dels))
  {
  }
}
