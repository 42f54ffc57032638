/** The two analyzers' `Aggregate`, which are defined by walks over the call graph. */
module Aggregate {
  import opened MultiMap
  import opened Options
  import opened Reach
  import opened GraphWalk
  import opened Analyzer

  type Tag = string

  /** The tags of all functions reached from `f`. */
  ghost function TagsFrom<F(!new)>(g: Graph<F>, table: Table<F, Tag>, f: F): set<Tag> {
    set x, t | x in table && t in table[x] && Reaches(g, f, x) :: t
  }

  ghost function TagsUpTo<F(!new)>(table: Table<F, Tag>, trace: seq<F>, n: nat): set<Tag>
    requires n <= |trace|
  {
    if n == 0 then {} else TagsUpTo(table, trace, n - 1) + Get(table, trace[n - 1])
  }

  lemma {:induction false} TagsUpToExact<F(!new)>(table: Table<F, Tag>, trace: seq<F>, n: nat, t: Tag)
    requires n <= |trace|
    ensures t in TagsUpTo(table, trace, n) <==> exists j :: 0 <= j < n && t in Get(table, trace[j])
  {
    if n > 0 { TagsUpToExact(table, trace, n - 1, t); }
  }

  /** A walk that answers `NEXT` everywhere and collects tags. */
  method CollectTags<F(==,!new)>(g: Graph<F>, table: Table<F, Tag>, f: F) returns (tags: set<Tag>)
    ensures tags == TagsFrom(g, table, f)
  {
    var trace := VisitSubtreeBFS(g, f, (_, _) => NEXT);
    tags := {};
    var i := 0;
    while i < |trace|
      invariant i <= |trace| && tags == TagsUpTo(table, trace, i)
    {
      tags := tags + Get(table, trace[i]);
      i := i + 1;
    }
    forall t ensures t in tags <==> t in TagsFrom(g, table, f) {
      Collected(g, table, f, trace, t);
    }
  }

  lemma Collected<F(!new)>(g: Graph<F>, table: Table<F, Tag>, f: F, trace: seq<F>, t: Tag)
    requires Walked(g, f, (_, _) => NEXT, trace)
    ensures t in TagsUpTo(table, trace, |trace|) <==> t in TagsFrom(g, table, f)
  {
    TagsUpToExact(table, trace, |trace|, t);
    if t in TagsUpTo(table, trace, |trace|) {
      var j :| 0 <= j < |trace| && t in Get(table, trace[j]);
      WalkedAll(g, f, (_, _) => NEXT, trace, trace[j]);
    }
    if t in TagsFrom(g, table, f) {
      var x :| x in table && t in table[x] && Reaches(g, f, x);
      WalkedAll(g, f, (_, _) => NEXT, trace, x);
    }
  }

  // ---- Callers and callees ----

  /** On the functions `defined`, the one map is the inverse of the other, and only they call. */
  ghost predicate Inverse<F(!new)>(callees: Graph<F>, callers: Graph<F>, defined: F -> bool) {
    && (forall f, g {:trigger f in Get(callers, g)} {:trigger g in Get(callees, f)} | defined(g) ::
          f in Get(callers, g) <==> g in Get(callees, f))
    && (forall f {:trigger Get(callees, f)} | Get(callees, f) != {} :: defined(f))
  }

  lemma {:induction false} UpPath<F(!new)>(callees: Graph<F>, callers: Graph<F>, defined: F -> bool, p: seq<F>, a: F, b: F)
    requires Inverse(callees, callers, defined) && defined(a) && IsPath(callers, p, a, b)
    ensures Reaches(callees, b, a)
  {
    if |p| == 1 {
      assert IsPath(callees, [a], a, a);
    } else {
      assert p[1] in Get(callers, a);
      UpPath(callees, callers, defined, p[1..], p[1], b);
      assert IsPath(callees, [p[1], a], p[1], a);
      ReachesTransitive(callees, b, p[1], a);
    }
  }

  lemma {:induction false} DownPath<F(!new)>(callees: Graph<F>, callers: Graph<F>, defined: F -> bool, p: seq<F>, a: F, b: F)
    requires Inverse(callees, callers, defined) && defined(b) && IsPath(callees, p, a, b)
    ensures Reaches(callers, b, a)
  {
    if |p| == 1 {
      assert IsPath(callers, [a], a, a);
    } else {
      assert p[1] in Get(callees, a);
      DownPath(callees, callers, defined, p[1..], p[1], b);
      if |p| > 2 {
        assert p[2] in Get(callees, p[1]);
      }
      assert defined(p[1]);
      assert IsPath(callers, [p[1], a], p[1], a);
      ReachesTransitive(callers, b, p[1], a);
    }
  }

  /** Walking up the callers from a defined function meets exactly the functions whose walk
      down the callees meets it. */
  lemma UpIsDown<F(!new)>(callees: Graph<F>, callers: Graph<F>, defined: F -> bool, f: F, x: F)
    requires Inverse(callees, callers, defined) && defined(f)
    ensures Reaches(callers, f, x) <==> Reaches(callees, x, f)
  {
    if Reaches(callers, f, x) {
      var p :| IsPath(callers, p, f, x);
      UpPath(callees, callers, defined, p, f, x);
    }
    if Reaches(callees, x, f) {
      var p :| IsPath(callees, p, x, f);
      DownPath(callees, callers, defined, p, x, f);
    }
  }

  // ---- The subsystem analyzer ----

  const SUBSYSTEMS: set<Tag> := {"wav", "aiff", "au", "raw", "paf", "svx", "nist", "voc", "ircam", "w64", "mat4",
                                 "mat5", "pvf", "xi", "htk", "sds", "avr", "wavex", "sd2", "flac", "caf", "wve",
                                 "ogg", "mpc2k", "rf64", "mpeg"}

  /** The tags of the functions whose walk down the callees meets `f`. */
  ghost function TagsAbove<F(!new)>(callees: Graph<F>, table: Table<F, Tag>, f: F): set<Tag> {
    set x, t | x in table && t in table[x] && Reaches(callees, x, f) :: t
  }

  method AggregateSubsystems<F(==,!new)>(ghost callees: Graph<F>, callers: Graph<F>, ghost defined: F -> bool,
                                         table: Table<F, Tag>, f: F)
    returns (subsys: set<Tag>)
    requires Inverse(callees, callers, defined) && defined(f)
    ensures subsys == if TagsAbove(callees, table, f) == {} then SUBSYSTEMS else TagsAbove(callees, table, f)
  {
    subsys := CollectTags(callers, table, f);
    forall x ensures Reaches(callers, f, x) <==> Reaches(callees, x, f) {
      UpIsDown(callees, callers, defined, f, x);
    }
    assert subsys == TagsAbove(callees, table, f);
    if subsys == {} {
      subsys := SUBSYSTEMS;
    }
  }

  /** Where `f` calls `g`, a tag of `f` counts for both, and one of `g` does not count for `f`,
      which without any counts for all subsystems. */
  method CallerDecides<F(==,!new)>(f: F, g: F) returns (ofF: set<Tag>, ofG: set<Tag>, ofCaller: set<Tag>)
    requires f != g
    ensures ofF == ofG == {"wav"} && ofCaller == SUBSYSTEMS
  {
    var callees: Graph<F>, callers: Graph<F> := map[f := {g}], map[g := {f}];
    ghost var defined := (x: F) => x == f || x == g;
    var table: Table<F, Tag> := map[f := {"wav"}];
    assert Inverse(callees, callers, defined);
    TwoReached(f, g);
    ofF := AggregateSubsystems(callees, callers, defined, table, f);
    assert "wav" in TagsAbove(callees, table, f);
    ofG := AggregateSubsystems(callees, callers, defined, table, g);
    assert "wav" in TagsAbove(callees, table, g);
    var below: Table<F, Tag> := map[g := {"wav"}];
    ofCaller := AggregateSubsystems(callees, callers, defined, below, f);
    assert TagsAbove(callees, below, f) == {};
  }

  lemma NoWayOn<F(!new)>(graph: Graph<F>, a: F, b: F)
    requires Reaches(graph, a, b) && Get(graph, a) == {}
    ensures a == b
  {
    var p :| IsPath(graph, p, a, b);
    ClosedContains(graph, _ => true, p, a, b, {a});
  }

  lemma TwoReached<F(!new)>(f: F, g: F)
    requires f != g
    ensures var callees: Graph<F> := map[f := {g}];
            Reaches(callees, f, f) && Reaches(callees, f, g) && !Reaches(callees, g, f)
  {
    var callees: Graph<F> := map[f := {g}];
    ReachesSelf(callees, _ => true, f);
    assert IsPath(callees, [f, g], f, g);
    if Reaches(callees, g, f) { NoWayOn(callees, g, f); }
  }

  // ---- The operation analyzer ----

  /** What `f` reaches has a tag of the one kind that is one of the other kind of what `h`
      reaches. */
  ghost predicate Share<F(!new)>(g: Graph<F>, one: Table<F, Tag>, f: F, other: Table<F, Tag>, h: F) {
    exists x, y, t :: Reaches(g, f, x) && Reaches(g, h, y) && t in Get(one, x) && t in Get(other, y)
  }

  lemma ShareExact<F(!new)>(g: Graph<F>, one: Table<F, Tag>, f: F, other: Table<F, Tag>, h: F)
    ensures Share(g, one, f, other, h) <==> TagsFrom(g, other, h) * TagsFrom(g, one, f) != {}
  {
    if Share(g, one, f, other, h) {
      var x, y, t :| Reaches(g, f, x) && Reaches(g, h, y) && t in Get(one, x) && t in Get(other, y);
      assert t in TagsFrom(g, other, h) * TagsFrom(g, one, f);
    }
    if TagsFrom(g, other, h) * TagsFrom(g, one, f) != {} {
      var t :| t in TagsFrom(g, other, h) * TagsFrom(g, one, f);
      var x :| x in one && t in one[x] && Reaches(g, f, x);
      var y :| y in other && t in other[y] && Reaches(g, h, y);
      assert Reaches(g, f, x) && Reaches(g, h, y) && t in Get(one, x) && t in Get(other, y);
    }
  }

  const MOD := 0
  const REF := 1

  /** The tags an entry point reaches; none when no function has its name. */
  ghost function EntryTags<F(!new)>(g: Graph<F>, table: Table<F, Tag>, entry: Option<F>): set<Tag> {
    if entry.None? then {} else TagsFrom(g, table, entry.value)
  }

  class OperationLevelAnalyzer<F(==,!new)> {
    const callees: Graph<F>
    /** `GetFunction`, by name. */
    const named: string -> Option<F>
    const modTags: Table<F, Tag>
    const refTags: Table<F, Tag>
    var topMod: map<string, set<Tag>>
    var topRef: map<string, set<Tag>>

    constructor (callees: Graph<F>, named: string -> Option<F>, modTags: Table<F, Tag>, refTags: Table<F, Tag>, entries: set<string>)
      ensures this.callees == callees && this.named == named && this.modTags == modTags && this.refTags == refTags
      ensures topMod.Keys == entries && CacheOk()
    {
      this.callees, this.named, this.modTags, this.refTags := callees, named, modTags, refTags;
      topMod, topRef := map e | e in entries :: {}, map[];
    }

    /** Every cached set is either cleared or what a walk would find. */
    ghost predicate CacheOk()
      reads this
    {
      && (forall e | e in topMod :: topMod[e] == {} || topMod[e] == EntryTags(callees, modTags, named(e)))
      && (forall e | e in topRef :: topRef[e] == {} || topRef[e] == EntryTags(callees, refTags, named(e)))
    }

    method FindTags(entry: string, table: Table<F, Tag>) returns (tags: set<Tag>)
      ensures tags == EntryTags(callees, table, named(entry))
    {
      match named(entry)
      case None => tags := {};
      case Some(f) => tags := CollectTags(callees, table, f);
    }

    method GetOrFindTopLVTags(entry: string, idx: int) returns (tags: set<Tag>)
      requires CacheOk() && entry in topMod && (idx == MOD || idx == REF)
      modifies this
      ensures CacheOk() && topMod.Keys == old(topMod.Keys)
      ensures tags == EntryTags(callees, if idx == MOD then modTags else refTags, named(entry))
    {
      if idx == MOD {
        if topMod[entry] == {} {
          var found := FindTags(entry, modTags);
          topMod := topMod[entry := found];
        }
        tags := topMod[entry];
      } else {
        if Get(topRef, entry) == {} {
          var found := FindTags(entry, refTags);
          topRef := topRef[entry := found];
        }
        tags := topRef[entry];
      }
    }

    /** The entry point reaches a reader of what `f` reaches a writer of, or the reverse. */
    ghost predicate Related(f: F, entry: string) {
      named(entry).Some? &&
      (Share(callees, modTags, f, refTags, named(entry).value) || Share(callees, refTags, f, modTags, named(entry).value))
    }

    lemma RelatedMeets(f: F, entry: string)
      ensures Related(f, entry) <==>
              Meets(entry, REF, TagsFrom(callees, modTags, f)) || Meets(entry, MOD, TagsFrom(callees, refTags, f))
    {
      if named(entry).Some? {
        ShareExact(callees, modTags, f, refTags, named(entry).value);
        ShareExact(callees, refTags, f, modTags, named(entry).value);
      }
    }

    /** The entry point reaches a tag of the one kind that is in `accum`. */
    ghost predicate Meets(entry: string, scIdx: int, accum: set<Tag>) {
      EntryTags(callees, if scIdx == MOD then modTags else refTags, named(entry)) * accum != {}
    }

    /** One round of `Aggregate`: entry points whose tags of the one kind meet those `f`
        reaches of the other. */
    method Meet(f: F, chIdx: int, scIdx: int, toplvs: set<string>) returns (r: set<string>)
      requires CacheOk() && (chIdx == MOD || chIdx == REF) && scIdx == REF - chIdx
      modifies this
      ensures CacheOk() && topMod.Keys == old(topMod.Keys)
      ensures var accum := TagsFrom(callees, if chIdx == MOD then modTags else refTags, f);
              forall e :: e in r <==> e in toplvs || (e in old(topMod.Keys) && Meets(e, scIdx, accum))
    {
      var accum := CollectTags(callees, if chIdx == MOD then modTags else refTags, f);
      r := toplvs;
      ghost var entries := topMod.Keys;
      var todo := topMod.Keys;
      while todo != {}
        invariant todo <= entries && CacheOk() && topMod.Keys == entries
        invariant forall e :: e in r <==> e in toplvs || (e in entries && e !in todo && Meets(e, scIdx, accum))
        decreases |todo|
      {
        var entry :| entry in todo;
        todo := todo - {entry};
        var meets := MeetsNow(entry, scIdx, accum);
        if meets {
          r := r + {entry};
        }
      }
    }

    method MeetsNow(entry: string, scIdx: int, accum: set<Tag>) returns (yes: bool)
      requires CacheOk() && (scIdx == MOD || scIdx == REF) && entry in topMod
      modifies this
      ensures CacheOk() && topMod.Keys == old(topMod.Keys)
      ensures yes <==> Meets(entry, scIdx, accum)
    {
      var tags := GetOrFindTopLVTags(entry, scIdx);
      yes := tags * accum != {};
    }

    /** The related entry points, or all of them when there is none. */
    method Aggregate(f: F) returns (toplvs: set<string>)
      requires CacheOk()
      modifies this
      ensures CacheOk() && topMod.Keys == old(topMod.Keys)
      ensures var related := set e | e in old(topMod.Keys) && Related(f, e);
              toplvs == if related == {} then old(topMod.Keys) else related
    {
      toplvs := Meet(f, MOD, REF, {});
      toplvs := Meet(f, REF, MOD, toplvs);
      forall e ensures e in toplvs <==> e in old(topMod.Keys) && Related(f, e) {
        RelatedMeets(f, e);
      }
      if toplvs == {} {
        toplvs := topMod.Keys;
      }
    }
  }
}
