/** What the layers of one indirect call make of the memo table and the two work sets, and when
    the outcome is exactly the functions that are targets of every layer. */
module LayerQuery {
  import opened TypeIndex
  import opened TypeClosure
  import opened LayerTargets

  /** The order in which a C++ set of pairs is traversed. */
  predicate Before(p: TypeIdx, q: TypeIdx) {
    p.hash < q.hash || (p.hash == q.hash && p.idx < q.idx)
  }

  predicate IsLeast(ts: set<TypeIdx>, p: TypeIdx) {
    p in ts && forall q | q in ts :: p == q || Before(p, q)
  }

  lemma {:induction false} LeastExists(ts: set<TypeIdx>) returns (p: TypeIdx)
    requires ts != {}
    ensures IsLeast(ts, p)
    decreases |ts|
  {
    var q :| q in ts;
    if ts == {q} {
      p := q;
    } else {
      var rest := ts - {q};
      assert ts == rest + {q};
      p := LeastExists(rest);
      if Before(q, p) { p := q; }
    }
  }

  /** The field read first stands for all fields of its type, so it is read on top of what the
      work set held. */
  ghost predicate FirstWild(ts: set<TypeIdx>) {
    exists p :: IsLeast(ts, p) && p.idx == -1
  }

  /** Recomputing the field adds to what the work sets held: itself or the first field it
      depends on stands for all fields of a type. */
  ghost predicate Loose<F>(facts: Facts<F>, t: TypeIdx) {
    t.idx == -1 || FirstWild(Closure(facts.prop, t))
  }

  // ---- One layer after the other ----

  /** The result so far, the two work sets and the memo table. */
  datatype Work<F(==)> = Work(fs: set<F>, fs1: set<F>, fs2: set<F>, matched: map<TypeIdx, set<F>>)

  ghost function Recomputed<F>(facts: Facts<F>, t: TypeIdx, before1: set<F>, before2: set<F>): set<F> {
    TrueTargets(facts, t) + (if t.idx == -1 then before1 else {}) + if FirstWild(Closure(facts.prop, t)) then before2 else {}
  }

  ghost function Consult<F>(facts: Facts<F>, w: Work<F>, t: TypeIdx): Work<F> {
    var fs1 := if t in w.matched then w.matched[t] else Recomputed(facts, t, w.fs1, w.fs2);
    Work(fs1 * w.fs, fs1, fs1 * w.fs, w.matched[t := fs1])
  }

  ghost function ConsultAll<F>(facts: Facts<F>, w: Work<F>, layers: seq<TypeIdx>): Work<F> {
    if layers == [] then w else Consult(facts, ConsultAll(facts, w, layers[..|layers| - 1]), layers[|layers| - 1])
  }

  ghost function Query<F>(facts: Facts<F>, matched: map<TypeIdx, set<F>>, sigFuncs: set<F>, layers: seq<TypeIdx>): Work<F> {
    ConsultAll(facts, Work(sigFuncs, {}, {}, matched), layers)
  }

  lemma ConsultOneMore<F>(facts: Facts<F>, w: Work<F>, layers: seq<TypeIdx>, t: TypeIdx)
    ensures ConsultAll(facts, w, layers + [t]) == Consult(facts, ConsultAll(facts, w, layers), t)
  {
    assert (layers + [t])[..|layers|] == layers;
  }

  // ---- Which layers narrow the result ----

  /** Without the work sets: a layer in the memo table narrows to its entry, the first layer and
      those that are not loose to their true targets, all others to nothing. */
  ghost function Limited<F>(facts: Facts<F>, matched: map<TypeIdx, set<F>>, fs: set<F>, layers: seq<TypeIdx>): set<F> {
    if layers == [] then fs
    else
      var t, before := layers[|layers| - 1], Limited(facts, matched, fs, layers[..|layers| - 1]);
      if t in matched then before * matched[t]
      else if |layers| == 1 || !Loose(facts, t) then before * TrueTargets(facts, t)
      else before
  }

  /** What holds of the work after some layers, for an initial memo table. */
  ghost predicate Consistent<F>(facts: Facts<F>, matched: map<TypeIdx, set<F>>, w: Work<F>, started: bool) {
    && (if started then w.fs2 == w.fs <= w.fs1 else w.fs1 == w.fs2 == {})
    && (forall t | t in matched :: t in w.matched && w.matched[t] == matched[t])
    && (forall t | t in w.matched && t !in matched ::
          && started && w.fs <= w.matched[t] && TrueTargets(facts, t) <= w.matched[t]
          && (!Loose(facts, t) ==> w.matched[t] == TrueTargets(facts, t)))
  }

  lemma ConsultConsistent<F>(facts: Facts<F>, matched: map<TypeIdx, set<F>>, w: Work<F>, started: bool, t: TypeIdx)
    requires Consistent(facts, matched, w, started)
    ensures Consistent(facts, matched, Consult(facts, w, t), true)
    ensures Consult(facts, w, t).fs ==
            if t in matched then w.fs * matched[t]
            else if !started || !Loose(facts, t) then w.fs * TrueTargets(facts, t)
            else w.fs
  {
    hide TrueTargets, FirstWild, Closure;
  }

  /** The leftovers never widen a layer in any other way than by taking it out. */
  lemma {:induction false} QueryLimited<F>(facts: Facts<F>, matched: map<TypeIdx, set<F>>, fs: set<F>, layers: seq<TypeIdx>)
    ensures Query(facts, matched, fs, layers).fs == Limited(facts, matched, fs, layers)
    ensures Consistent(facts, matched, Query(facts, matched, fs, layers), layers != [])
  {
    if layers != [] {
      var before := layers[..|layers| - 1];
      QueryLimited(facts, matched, fs, before);
      ConsultConsistent(facts, matched, Query(facts, matched, fs, before), before != [], layers[|layers| - 1]);
      hide Consult, Consistent, Loose, TrueTargets;
    }
  }

  /** The first layer and those that are not loose. */
  ghost function Tight<F>(facts: Facts<F>, layers: seq<TypeIdx>): seq<TypeIdx> {
    if layers == [] then []
    else
      var t := layers[|layers| - 1];
      Tight(facts, layers[..|layers| - 1]) + if |layers| == 1 || !Loose(facts, t) then [t] else []
  }

  /** From an empty memo table the result is what the tight layers leave of the signature's
      functions. */
  lemma {:induction false} FreshQueryExact<F>(facts: Facts<F>, fs: set<F>, layers: seq<TypeIdx>)
    ensures Query(facts, map[], fs, layers).fs == Narrowed(facts, fs, Tight(facts, layers))
  {
    QueryLimited(facts, map[], fs, layers);
    LimitedTight(facts, fs, layers);
  }

  lemma {:induction false} LimitedTight<F>(facts: Facts<F>, fs: set<F>, layers: seq<TypeIdx>)
    ensures Limited(facts, map[], fs, layers) == Narrowed(facts, fs, Tight(facts, layers))
  {
    if layers != [] {
      var before, t := layers[..|layers| - 1], layers[|layers| - 1];
      LimitedTight(facts, fs, before);
      NarrowedOneMore(facts, fs, Tight(facts, before), t);
      assert Tight(facts, before) + [] == Tight(facts, before);
      hide TrueTargets, Narrowed, Loose;
    }
  }

  lemma NarrowedOneMore<F>(facts: Facts<F>, fs: set<F>, layers: seq<TypeIdx>, t: TypeIdx)
    ensures Narrowed(facts, fs, layers + [t]) == Narrowed(facts, fs, layers) * TrueTargets(facts, t)
  {
    assert (layers + [t])[..|layers|] == layers;
    hide TrueTargets;
  }

  // ---- Over several queries ----

  /** A memo entry covers the field's targets, and is exact unless the field is loose. */
  ghost predicate Covering<F>(facts: Facts<F>, matched: map<TypeIdx, set<F>>) {
    forall t | t in matched ::
      TrueTargets(facts, t) <= matched[t] && (!Loose(facts, t) ==> matched[t] == TrueTargets(facts, t))
  }

  /** Whatever earlier queries left in the memo table: nothing that is a target of every layer is
      missing, nothing without the signature is there, the result is exact if no layer is loose,
      and the table keeps covering. */
  lemma QueryBounds<F>(facts: Facts<F>, matched: map<TypeIdx, set<F>>, fs: set<F>, layers: seq<TypeIdx>)
    requires Covering(facts, matched)
    ensures Narrowed(facts, fs, layers) <= Query(facts, matched, fs, layers).fs <= fs
    ensures (forall i | 0 <= i < |layers| :: !Loose(facts, layers[i])) ==>
              Query(facts, matched, fs, layers).fs == Narrowed(facts, fs, layers)
    ensures Covering(facts, Query(facts, matched, fs, layers).matched)
  {
    QueryLimited(facts, matched, fs, layers);
    LimitedBounds(facts, matched, fs, layers);
    hide TrueTargets, Loose;
  }

  lemma {:induction false} LimitedBounds<F>(facts: Facts<F>, matched: map<TypeIdx, set<F>>, fs: set<F>, layers: seq<TypeIdx>)
    requires Covering(facts, matched)
    ensures Narrowed(facts, fs, layers) <= Limited(facts, matched, fs, layers) <= fs
    ensures (forall i | 0 <= i < |layers| :: !Loose(facts, layers[i])) ==> Limited(facts, matched, fs, layers) == Narrowed(facts, fs, layers)
  {
    if layers != [] {
      LimitedBounds(facts, matched, fs, layers[..|layers| - 1]);
      hide TrueTargets, Loose;
    }
  }
}
