/** Handing the analysis data of deleted functions over to the new functions they are matched
    with. */
module CorrectChanges {
  import opened MultiMap
  import opened Options
  import opened LineMap
  import opened Analyzer
  import opened Matching

  /** Relevance sets by analyzer and by relevance name. */
  type Results = map<string, map<string, set<string>>>

  datatype Lines = Lines(del: seq<int>, add: seq<int>)

  /** A new function and the deleted function it is matched with. */
  datatype Pairing<F> = Pairing(newF: F, match': Option<F>)

  function LinesOf<F>(flps: seq<(F, int)>): seq<int> {
    seq(|flps|, i requires 0 <= i < |flps| => flps[i].1)
  }

  function Functions<F>(flps: seq<(F, int)>): set<F> {
    set i | 0 <= i < |flps| :: flps[i].0
  }

  function PairingOf<F>(dels: seq<(F, int)>, newFL: (F, int), lines: Lines): Pairing<F> {
    var m := MatchOf(LinesOf(dels), MapLine(lines.del, lines.add, newFL.1));
    Pairing(newFL.0, if m.Some? && m.value < |dels| then Some(dels[m.value].0) else None)
  }

  function Pairings<F>(dels: seq<(F, int)>, news: seq<(F, int)>, lines: Lines): seq<Pairing<F>> {
    seq(|news|, k requires 0 <= k < |news| => PairingOf(dels, news[k], lines))
  }

  // ---- What the first loop does to a table of tags, and to the results ----

  function AfterMove<F, T>(t: Table<F, T>, p: Pairing<F>): Table<F, T> {
    if p.match'.Some? then Moved(t, p.match'.value, p.newF) else t
  }

  function AfterMoves<F, T>(t: Table<F, T>, ps: seq<Pairing<F>>): Table<F, T> {
    if ps == [] then t else AfterMove(AfterMoves(t, ps[..|ps| - 1]), ps[|ps| - 1])
  }

  lemma OneMoreMove<F, T>(t: Table<F, T>, ps: seq<Pairing<F>>, k: nat)
    requires k < |ps|
    ensures AfterMoves(t, ps[..k + 1]) == AfterMove(AfterMoves(t, ps[..k]), ps[k])
  {
    assert ps[..k + 1][..k] == ps[..k];
  }

  function Look<F>(res: map<F, Results>, f: F, a: string, n: string): set<string> {
    if f in res then Get2(res[f], a, n) else {}
  }

  /** The results after one merge, in terms of those before. */
  ghost predicate Merged<F(!new)>(before: map<F, Results>, p: Pairing<F>, after: map<F, Results>) {
    forall f, a, n {:trigger Look(after, f, a, n)} ::
      Look(after, f, a, n) ==
      Look(before, f, a, n) + if p.match'.Some? && f == p.newF then Look(before, p.match'.value, a, n) else {}
  }

  lemma OneMoreMerge<F(!new)>(res: map<F, Results>, ps: seq<Pairing<F>>, k: nat, before: map<F, Results>, after: map<F, Results>)
    requires k < |ps| && Merged(before, ps[k], after)
    requires forall f, a, n {:trigger Look(before, f, a, n)} :: Look(before, f, a, n) == AfterMerges(res, ps[..k], f, a, n)
    ensures forall f, a, n {:trigger Look(after, f, a, n)} :: Look(after, f, a, n) == AfterMerges(res, ps[..k + 1], f, a, n)
  {
    assert ps[..k + 1][..k] == ps[..k];
    hide Look;
  }

  function AfterMerges<F>(res: map<F, Results>, ps: seq<Pairing<F>>, f: F, a: string, n: string): set<string> {
    if ps == [] then Look(res, f, a, n)
    else
      var p := ps[|ps| - 1];
      var before := ps[..|ps| - 1];
      if p.match'.Some? && f == p.newF then
        AfterMerges(res, before, f, a, n) + AfterMerges(res, before, p.match'.value, a, n)
      else AfterMerges(res, before, f, a, n)
  }

  class AnalyzerManager<F(==,!new)> {
    const analyzers: seq<Analyzer<F, string>>
    var res: map<F, Results>
    var cis: map<string, Lines>

    constructor (analyzers: seq<Analyzer<F, string>>)
      ensures this.analyzers == analyzers && res == map[] && cis == map[]
    {
      this.analyzers, res, cis := analyzers, map[], map[];
    }

    ghost predicate Valid()
      reads analyzers
    {
      && (forall i | 0 <= i < |analyzers| :: analyzers[i].Valid())
      && (forall i, j | 0 <= i < j < |analyzers| :: analyzers[i] != analyzers[j])
    }

    function LinesAt(path: string): Lines
      reads this
    {
      if path in cis then cis[path] else Lines([], [])
    }

    method MoveAll(pre: F, post: F)
      requires Valid()
      modifies analyzers
      ensures Valid()
      ensures forall k, i | 0 <= k < |analyzers| && 0 <= i < analyzers[k].N ::
                analyzers[k].tags[i] == Moved(old(analyzers[k].tags[i]), pre, post)
    {
      var k := 0;
      while k < |analyzers|
        invariant k <= |analyzers| && Valid()
        invariant forall j, i | 0 <= j < |analyzers| && 0 <= i < analyzers[j].N ::
                    analyzers[j].tags[i] ==
                    if j < k then Moved(old(analyzers[j].tags[i]), pre, post) else old(analyzers[j].tags[i])
      {
        analyzers[k].Move(pre, post);
        k := k + 1;
      }
    }

    method RemoveAll(f: F)
      requires Valid()
      modifies analyzers
      ensures Valid()
      ensures forall k, i | 0 <= k < |analyzers| && 0 <= i < analyzers[k].N ::
                analyzers[k].tags[i] == old(analyzers[k].tags[i]) - {f}
    {
      var k := 0;
      while k < |analyzers|
        invariant k <= |analyzers| && Valid()
        invariant forall j, i | 0 <= j < |analyzers| && 0 <= i < analyzers[j].N ::
                    analyzers[j].tags[i] == if j < k then old(analyzers[j].tags[i]) - {f} else old(analyzers[j].tags[i])
      {
        analyzers[k].Remove(f);
        k := k + 1;
      }
    }

    /** One new function: the tags of its match are moved to it, the results added to its own. */
    method MatchOne(path: string, dels: seq<(F, int)>, newFL: (F, int))
      requires Valid() && Ascending(LinesAt(path).del) && Ascending(LinesAt(path).add)
      modifies this`res, analyzers
      ensures Valid()
      ensures forall k, i | 0 <= k < |analyzers| && 0 <= i < analyzers[k].N ::
                analyzers[k].tags[i] == AfterMove(old(analyzers[k].tags[i]), PairingOf(dels, newFL, LinesAt(path)))
      ensures Merged(old(res), PairingOf(dels, newFL, LinesAt(path)), res)
    {
      var lines := LinesAt(path);
      var preLine := MapPostToPreLine(lines.del, lines.add, newFL.1);
      var m := FindMatch(LinesOf(dels), preLine);
      MatchIsClosest(LinesOf(dels), preLine);
      if m.Some? {
        var newF, delF := newFL.0, dels[m.value].0;
        MoveAll(delF, newF);
        var merged := InsertAll2(if newF in res then res[newF] else map[], if delF in res then res[delF] else map[]);
        res := res[newF := merged];
      }
    }

    /** The two loops of `_CorrectChanges`. */
    method MatchAndMove(path: string, dels: seq<(F, int)>, news: seq<(F, int)>)
      requires Valid() && Ascending(LinesAt(path).del) && Ascending(LinesAt(path).add)
      modifies this`res, analyzers
      ensures Valid()
      ensures forall k, i | 0 <= k < |analyzers| && 0 <= i < analyzers[k].N ::
                analyzers[k].tags[i] == AfterMoves(old(analyzers[k].tags[i]), Pairings(dels, news, LinesAt(path)))
      ensures forall f, a, n {:trigger Look(res, f, a, n)} :: Look(res, f, a, n) == AfterMerges(old(res), Pairings(dels, news, LinesAt(path)), f, a, n)
    {
      ghost var ps := Pairings(dels, news, LinesAt(path));
      assert ps[..0] == [];
      var k := 0;
      while k < |news|
        invariant k <= |news| == |ps| && Valid()
        invariant forall j, i | 0 <= j < |analyzers| && 0 <= i < analyzers[j].N ::
                    analyzers[j].tags[i] == AfterMoves(old(analyzers[j].tags[i]), ps[..k])
        invariant forall f, a, n {:trigger Look(res, f, a, n)} :: Look(res, f, a, n) == AfterMerges(old(res), ps[..k], f, a, n)
      {
        hide AfterMove, AfterMoves, AfterMerges, Look, Merged, PairingOf;
        ghost var before := res;
        MatchOne(path, dels, news[k]);
        OneMoreMerge(old(res), ps, k, before, res);
        forall j, i | 0 <= j < |analyzers| && 0 <= i < analyzers[j].N
          ensures analyzers[j].tags[i] == AfterMoves(old(analyzers[j].tags[i]), ps[..k + 1])
        {
          OneMoreMove(old(analyzers[j].tags[i]), ps, k);
        }
        k := k + 1;
      }
      assert ps[..k] == ps;
    }

    method CorrectChanges(path: string, dels: seq<(F, int)>, news: seq<(F, int)>)
      requires Valid() && Ascending(LinesAt(path).del) && Ascending(LinesAt(path).add)
      modifies this`res, analyzers
      ensures Valid()
      ensures forall k, i | 0 <= k < |analyzers| && 0 <= i < analyzers[k].N ::
                analyzers[k].tags[i] ==
                AfterMoves(old(analyzers[k].tags[i]), Pairings(dels, news, LinesAt(path))) - Functions(dels)
      ensures forall f, a, n {:trigger Look(res, f, a, n)} :: Look(res, f, a, n) ==
                if f in Functions(dels) then {} else AfterMerges(old(res), Pairings(dels, news, LinesAt(path)), f, a, n)
    {
      MatchAndMove(path, dels, news);
      ghost var merged := res;
      label Moved:
      var i := 0;
      while i < |dels|
        invariant i <= |dels| && Valid()
        invariant forall k, j | 0 <= k < |analyzers| && 0 <= j < analyzers[k].N ::
                    analyzers[k].tags[j] == old@Moved(analyzers[k].tags[j]) - Functions(dels[..i])
        invariant res == merged - Functions(dels[..i])
      {
        RemoveAll(dels[i].0);
        res := res - {dels[i].0};
        assert Functions(dels[..i + 1]) == Functions(dels[..i]) + {dels[i].0};
        i := i + 1;
      }
      assert dels[..i] == dels;
      assert forall f, a, n :: Look(res, f, a, n) == if f in Functions(dels) then {} else Look(merged, f, a, n);
    }
  }
}
