/** What the answer to an indirect call means for the functions that have been stored in struct
    fields, over every run of stores and invalidations. */
module LayerMeaning {
  import opened Options
  import opened MultiMap
  import opened Reach
  import opened TypeIndex
  import opened TypeClosure
  import opened LayerChain
  import opened LayerTargets
  import opened LayerQuery
  import opened FindCallees

  // ---- Which functions a field can hold ----

  /** The functions of `u` flow into `t`, by an entry for `t` or for all fields of its type. */
  ghost predicate FlowsInto(prop: Propagation, u: TypeIdx, t: TypeIdx) {
    exists k :: k in prop && k.hash == t.hash && (k.idx == t.idx || k.idx == -1) && u in prop[k]
  }

  /** Each field of the path flows into the one before it. */
  ghost predicate IsFlow(prop: Propagation, path: seq<TypeIdx>) {
    path != [] && forall i | 0 < i < |path| :: FlowsInto(prop, path[i], path[i - 1])
  }

  ghost predicate Feeds(prop: Propagation, r: TypeIdx, t: TypeIdx) {
    exists path :: IsFlow(prop, path) && path[0] == t && path[|path| - 1] == r
  }

  /** In one step or more; a field may feed itself. */
  ghost predicate FeedsOn(prop: Propagation, r: TypeIdx, t: TypeIdx) {
    exists path :: IsFlow(prop, path) && |path| > 1 && path[0] == t && path[|path| - 1] == r
  }

  /** A function stored in the one may be found in the other. */
  predicate Overlap(u: TypeIdx, r: TypeIdx) {
    u.hash == r.hash && (u.idx == r.idx || u.idx == -1 || r.idx == -1)
  }

  /** `f` has been stored in `t`, or in a field that feeds `t`, and not been invalidated since. */
  ghost predicate MayHold<F>(steps: seq<Step<F>>, prop: Propagation, t: TypeIdx, f: F) {
    exists r, u :: Feeds(prop, r, t) && Overlap(u, r) && Confined(steps, f, u)
  }

  lemma FlowsFromSource(prop: Propagation, u: TypeIdx, t: TypeIdx)
    ensures FlowsInto(prop, u, t) <==> u in Sources(prop, t)
  {
    if u in Sources(prop, t) {
      var k := if u in Get(prop, t) then t else TypeIdx(t.hash, -1);
      assert k in prop && u in prop[k];
    }
    if FlowsInto(prop, u, t) {
      var k :| k in prop && k.hash == t.hash && (k.idx == t.idx || k.idx == -1) && u in prop[k];
      assert k == t || k == TypeIdx(t.hash, -1);
    }
  }

  lemma {:induction false} FlowInClosure(prop: Propagation, path: seq<TypeIdx>)
    requires IsFlow(prop, path) && |path| > 1
    ensures path[|path| - 1] in Closure(prop, path[0])
    decreases |path|
  {
    var n := |path| - 1;
    FlowsFromSource(prop, path[n], path[n - 1]);
    if n == 1 {
      SourceInClosure(prop, path[0], path[n]);
    } else {
      FlowInClosure(prop, path[..n]);
      ClosureTransitive(prop, path[0], path[n - 1], path[n]);
    }
  }

  lemma SourceInClosure(prop: Propagation, t: TypeIdx, p: TypeIdx)
    requires p in Sources(prop, t)
    ensures p in Closure(prop, t)
  {
    ReachesSelf(SourceGraph(prop, t), x => true, t);
    SourcesMentioned(prop, t);
    assert DependsOn(prop, t, p);
  }

  lemma ClosureFlows(prop: Propagation, t: TypeIdx, r: TypeIdx)
    requires r in Closure(prop, t)
    ensures FeedsOn(prop, r, t)
  {
    var g := SourceGraph(prop, t);
    var q :| Reaches(g, t, q) && q in g && r in Sources(prop, q);
    var p :| IsPath(g, p, t, q);
    forall i | 0 < i < |p| ensures FlowsInto(prop, p[i], p[i - 1]) {
      assert p[i - 1 + 1] in Get(g, p[i - 1]);
      FlowsFromSource(prop, p[i], p[i - 1]);
    }
    FlowsFromSource(prop, r, q);
    assert IsFlow(prop, p + [r]);
  }

  /** What the worklist collects is what feeds the field in one step or more. */
  lemma FeedsOnExact(prop: Propagation, t: TypeIdx, r: TypeIdx)
    ensures FeedsOn(prop, r, t) <==> r in Closure(prop, t)
  {
    if FeedsOn(prop, r, t) {
      var path :| IsFlow(prop, path) && |path| > 1 && path[0] == t && path[|path| - 1] == r;
      FlowInClosure(prop, path);
    } else if r in Closure(prop, t) {
      ClosureFlows(prop, t, r);
    }
  }

  lemma FeedsExact(prop: Propagation, t: TypeIdx, r: TypeIdx)
    ensures Feeds(prop, r, t) <==> r == t || r in Closure(prop, t)
  {
    FeedsOnExact(prop, t, r);
    if Feeds(prop, r, t) {
      var path :| IsFlow(prop, path) && path[0] == t && path[|path| - 1] == r;
      if |path| > 1 { assert FeedsOn(prop, r, t); }
    } else if r == t {
      assert IsFlow(prop, [t]);
    }
  }

  /** Whether a layer may let leftovers through: it stands for all fields, or of the fields that
      feed it the one with the least hash, and the least index for that, does. */
  ghost predicate MayLeak(prop: Propagation, t: TypeIdx) {
    t.idx == -1 ||
    exists p: TypeIdx :: p.idx == -1 && FeedsOn(prop, p, t) && forall q: TypeIdx | FeedsOn(prop, q, t) :: p.hash < q.hash || (p.hash == q.hash && p.idx <= q.idx)
  }

  lemma LooseMayLeak<F>(facts: Facts<F>, t: TypeIdx)
    ensures Loose(facts, t) <==> MayLeak(facts.prop, t)
  {
    forall q ensures FeedsOn(facts.prop, q, t) <==> q in Closure(facts.prop, t) {
      FeedsOnExact(facts.prop, t, q);
    }
    hide Closure, FeedsOn;
  }

  /** The facts of a run: what its last state holds. */
  ghost predicate FactsOf<F(!new)>(facts: Facts<F>, steps: seq<Step<F>>, states: seq<Index<F>>) {
    IsRun(steps, states) && facts.funcs == states[|steps|].funcs
  }

  lemma StoredIffConfined<F(!new)>(facts: Facts<F>, steps: seq<Step<F>>, states: seq<Index<F>>, r: TypeIdx, f: F)
    requires FactsOf(facts, steps, states)
    ensures f in Stored(facts, r) <==> exists u :: Overlap(u, r) && Confined(steps, f, u)
  {
    RunIndexExact(steps, states);
    forall u ensures f in Get(facts.funcs, u) <==> Confined(steps, f, u) {
    }
    hide Confined, IsRun;
    if f in Stored(facts, r) {
      if r.idx == -1 {
        var u :| u in facts.funcs && u.hash == r.hash && f in facts.funcs[u];
        assert f in Get(facts.funcs, u);
      } else {
        assert Overlap(r, r) && Overlap(TypeIdx(r.hash, -1), r);
      }
    }
    if u :| Overlap(u, r) && Confined(steps, f, u) {
      assert f in Get(facts.funcs, u);
      assert u == r || u == TypeIdx(r.hash, -1) || r.idx == -1;
    }
  }

  /** After every run a function is among the targets of a field exactly if it has been stored
      in it, or in one that feeds it, and not been invalidated since. */
  lemma TargetsMayHold<F(!new)>(facts: Facts<F>, steps: seq<Step<F>>, states: seq<Index<F>>, t: TypeIdx, f: F)
    requires FactsOf(facts, steps, states)
    ensures f in TrueTargets(facts, t) <==> MayHold(steps, facts.prop, t, f)
  {
    forall r ensures Feeds(facts.prop, r, t) <==> r == t || r in Closure(facts.prop, t) {
      FeedsExact(facts.prop, t, r);
    }
    forall r ensures f in Stored(facts, r) <==> exists u :: Overlap(u, r) && Confined(steps, f, u) {
      StoredIffConfined(facts, steps, states, r, f);
    }
    hide Confined, FactsOf, Feeds, Overlap, Closure, Stored;
    if f in TrueTargets(facts, t) {
      var r :| (r == t || r in Closure(facts.prop, t)) && f in Stored(facts, r);
      var u :| Overlap(u, r) && Confined(steps, f, u);
      assert Feeds(facts.prop, r, t);
    }
    if MayHold(steps, facts.prop, t, f) {
      var r, u :| Feeds(facts.prop, r, t) && Overlap(u, r) && Confined(steps, f, u);
      assert f in Stored(facts, r);
    }
  }

  // ---- Which functions a query answers ----

  /** Whatever earlier queries left in the memo table, no function is missing from the answer
      that has the signature and that every layer may hold. */
  lemma NothingMissing<F(!new)>(facts: Facts<F>, steps: seq<Step<F>>, states: seq<Index<F>>,
                                matched: map<TypeIdx, set<F>>, fs: set<F>, layers: seq<TypeIdx>, f: F)
    requires FactsOf(facts, steps, states) && Covering(facts, matched)
    requires f in fs && forall j | 0 <= j < |layers| :: MayHold(steps, facts.prop, layers[j], f)
    ensures f in Query(facts, matched, fs, layers).fs
  {
    forall j | 0 <= j < |layers| ensures f in TrueTargets(facts, layers[j]) {
      TargetsMayHold(facts, steps, states, layers[j], f);
    }
    NarrowedExact(facts, fs, layers, f);
    QueryBounds(facts, matched, fs, layers);
  }

  /** The function is not taken out at layer `j`. */
  ghost predicate LetThrough<F>(facts: Facts<F>, layers: seq<TypeIdx>, j: int, f: F)
    requires 0 <= j < |layers|
  {
    j == 0 || !Loose(facts, layers[j]) ==> f in TrueTargets(facts, layers[j])
  }

  lemma TightStep<F>(facts: Facts<F>, fs: set<F>, layers: seq<TypeIdx>, f: F)
    requires layers != []
    ensures f in Narrowed(facts, fs, Tight(facts, layers))
       <==> f in Narrowed(facts, fs, Tight(facts, layers[..|layers| - 1])) && LetThrough(facts, layers, |layers| - 1, f)
  {
    var n := |layers| - 1;
    NarrowedOneMore(facts, fs, Tight(facts, layers[..n]), layers[n]);
    assert Tight(facts, layers[..n]) + [] == Tight(facts, layers[..n]);
    hide TrueTargets, Narrowed, Loose;
  }

  lemma {:induction false} TightTargets<F>(facts: Facts<F>, fs: set<F>, layers: seq<TypeIdx>, f: F)
    ensures f in Narrowed(facts, fs, Tight(facts, layers)) <==> f in fs && forall j | 0 <= j < |layers| :: LetThrough(facts, layers, j, f)
  {
    if layers != [] {
      var n := |layers| - 1;
      TightTargets(facts, fs, layers[..n], f);
      TightStep(facts, fs, layers, f);
      forall j | 0 <= j < n ensures LetThrough(facts, layers[..n], j, f) == LetThrough(facts, layers, j, f) {
        hide TrueTargets, Loose;
      }
      hide Narrowed, Tight, LetThrough;
    }
  }

  /** From an empty memo table the answer is exactly the functions that have the signature and
      that the first layer, and each that may not leak, may hold. */
  lemma FreshAnswer<F(!new)>(facts: Facts<F>, steps: seq<Step<F>>, states: seq<Index<F>>, fs: set<F>, layers: seq<TypeIdx>, f: F)
    requires FactsOf(facts, steps, states)
    ensures f in Query(facts, map[], fs, layers).fs
       <==> f in fs && forall j | 0 <= j < |layers| && (j == 0 || !MayLeak(facts.prop, layers[j])) :: MayHold(steps, facts.prop, layers[j], f)
  {
    FreshQueryExact(facts, fs, layers);
    TightTargets(facts, fs, layers, f);
    forall j | 0 <= j < |layers|
      ensures LetThrough(facts, layers, j, f) <==> (j == 0 || !MayLeak(facts.prop, layers[j]) ==> MayHold(steps, facts.prop, layers[j], f))
    {
      LooseMayLeak(facts, layers[j]);
      TargetsMayHold(facts, steps, states, layers[j], f);
    }
    hide Query, Narrowed, Tight, LetThrough, MayHold, MayLeak, FactsOf;
  }

  // ---- A function stored for all fields ----

  const ALL_FIELDS := TypeIdx(1, -1)

  /** The callee is the first field of a structure. */
  const FIELD_CALL: Values := map[0 := Gep(1, [FIELD]), 1 := Argument]

  lemma FieldCallLayers<F>(facts: Facts<F>)
    requires facts.caps == {} && facts.escapes == {}
    ensures WellFormed(FIELD_CALL) && Consulted(facts, FIELD_CALL, 0, 0) == [FIELD]
  {
    assert [FIELD][1..] == [];
    assert InList(facts, [], 2) == ([], 2, false);
    assert InList(facts, [FIELD], 1) == ([FIELD] + [], 2, false);
    assert Next(FIELD_CALL, Some(1), [], {}).tyList == [];
    assert Layers(facts, FIELD_CALL, Some(1), 2) == [];
    assert Next(FIELD_CALL, Some(0), [], {}).tyList == [FIELD];
  }

  /** A call through one field answers a function stored for all fields of the type. */
  method AllFieldsAnswered<F(!new)>(f: F) returns (fs: set<F>)
    ensures fs == {f}
  {
    var facts: Facts<F> := Facts(map[ALL_FIELDS := {f}], map[], {}, {});
    FieldCallLayers(facts);
    FreshQueryExact(facts, {f}, [FIELD]);
    assert [FIELD][..0] == [] && Tight(facts, []) == [] && Tight(facts, [FIELD]) == [FIELD];
    assert ALL_FIELDS in facts.funcs && f in Stored(facts, FIELD);
    NarrowedExact(facts, {f}, [FIELD], f);
    NarrowedOnly(facts, {f}, [FIELD]);
    hide *;
    var mlta := new MLTA<F>();
    assert mlta.Valid(facts);
    var found;
    found, fs := mlta.FindCalleesWithMLTA(facts, FIELD_CALL, 0, {f}, 0);
  }

  lemma NarrowedOnly<F>(facts: Facts<F>, fs: set<F>, layers: seq<TypeIdx>)
    ensures Narrowed(facts, fs, layers) <= fs
  {
  }
}
