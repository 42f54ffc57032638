/** `getDependentTypes`: the worklist computes exactly the transitive closure of type
    propagation. */
module TypeClosure {
  import opened MultiMap
  import opened Reach
  import opened TypeIndex

  type Propagation = map<TypeIdx, set<TypeIdx>>

  /** What a field takes targets from: its own entry, and the one for all fields of the type. */
  function Sources(prop: Propagation, t: TypeIdx): set<TypeIdx> {
    Get(prop, t) + Get(prop, TypeIdx(t.hash, -1))
  }

  /** Every field mentioned anywhere. */
  function Mentioned(prop: Propagation): set<TypeIdx> {
    set t, u | t in prop && u in prop[t] :: u
  }

  /** The graph of `Sources` on the fields mentioned and `start`. */
  function SourceGraph(prop: Propagation, start: TypeIdx): Graph<TypeIdx> {
    map t | t in Mentioned(prop) + {start} :: Sources(prop, t)
  }

  lemma SourcesMentioned(prop: Propagation, t: TypeIdx)
    ensures Sources(prop, t) <= Mentioned(prop)
  {
    forall u | u in Sources(prop, t) ensures u in Mentioned(prop) {
      var k := if u in Get(prop, t) then t else TypeIdx(t.hash, -1);
      assert k in prop && u in prop[k];
    }
  }

  /** `p` is reached from `start` in one step or more. */
  ghost predicate DependsOn(prop: Propagation, start: TypeIdx, p: TypeIdx) {
    exists t :: Reaches(SourceGraph(prop, start), start, t) && t in SourceGraph(prop, start) && p in Sources(prop, t)
  }

  ghost function Closure(prop: Propagation, start: TypeIdx): set<TypeIdx> {
    set p | p in Mentioned(prop) && DependsOn(prop, start, p)
  }

  /** What holds of the worklist: everything seen is reached, and the visited part is closed up
      to the queue. */
  ghost predicate Working(prop: Propagation, start: TypeIdx, visited: set<TypeIdx>, queued: set<TypeIdx>) {
    && start in visited + queued && visited + queued <= Mentioned(prop) + {start}
    && (forall t | t in visited + queued :: Reaches(SourceGraph(prop, start), start, t))
    && (forall t | t in visited :: Sources(prop, t) <= visited + queued)
  }

  lemma WorkingStarts(prop: Propagation, start: TypeIdx)
    ensures Working(prop, start, {}, {start})
  {
    ReachesSelf(SourceGraph(prop, start), x => true, start);
  }

  lemma WorkingStep(prop: Propagation, start: TypeIdx, visited: set<TypeIdx>, queued: set<TypeIdx>, t: TypeIdx, rest: set<TypeIdx>)
    requires Working(prop, start, visited, queued) && t in queued && rest <= queued <= rest + {t}
    ensures t in Mentioned(prop) + {start}
    ensures t in visited ==> Working(prop, start, visited, rest)
    ensures Working(prop, start, visited + {t}, rest + Sources(prop, t))
    ensures SourcesOf(prop, visited + {t}) == SourcesOf(prop, visited) + Sources(prop, t)
  {
    SourcesMentioned(prop, t);
    forall u | u in Sources(prop, t) ensures Reaches(SourceGraph(prop, start), start, u) {
      ReachesOn(SourceGraph(prop, start), start, t, u);
    }
    hide Sources;
  }

  /** The queue may hold entries already visited; `propSet` may hold others before. */
  method GetDependentTypes(prop: Propagation, start: TypeIdx, propSet0: set<TypeIdx>) returns (propSet: set<TypeIdx>)
    ensures propSet == propSet0 + Closure(prop, start)
  {
    propSet := propSet0;
    var queue := [start];
    var visited: set<TypeIdx> := {};
    WorkingStarts(prop, start);
    assert SourcesOf(prop, {}) == {} && Elements([start]) == {start};
    hide Working, Sources, SourcesOf, Mentioned, Closure;
    while queue != []
      invariant Working(prop, start, visited, Elements(queue)) && visited <= Mentioned(prop) + {start}
      invariant propSet == propSet0 + SourcesOf(prop, visited)
      decreases Mentioned(prop) + {start} - visited, |queue|
    {
      var t := queue[0];
      ghost var before := Elements(queue);
      FirstAndRest(queue);
      queue := queue[1..];
      WorkingStep(prop, start, visited, before, t, Elements(queue));
      if t !in visited {
        var sources := Sources(prop, t);
        propSet := propSet + sources;
        queue := Append(queue, sources);
        visited := visited + {t};
      }
    }
    WorkingEnds(prop, start, visited);
  }

  lemma WorkingEnds(prop: Propagation, start: TypeIdx, visited: set<TypeIdx>)
    requires Working(prop, start, visited, Elements([]))
    ensures SourcesOf(prop, visited) == Closure(prop, start)
  {
    assert visited + Elements([]) == visited;
    VisitedExact(prop, start, visited);
  }

  lemma FirstAndRest(queue: seq<TypeIdx>)
    requires queue != []
    ensures queue[0] in Elements(queue) && Elements(queue[1..]) <= Elements(queue) <= Elements(queue[1..]) + {queue[0]}
  {
    assert forall x | x in queue :: x == queue[0] || x in queue[1..];
  }

  /** All sources of some fields. */
  ghost function SourcesOf(prop: Propagation, ts: set<TypeIdx>): set<TypeIdx> {
    set t, p | t in ts && p in Sources(prop, t) :: p
  }

  method Append(queue: seq<TypeIdx>, ts: set<TypeIdx>) returns (r: seq<TypeIdx>)
    ensures Elements(r) == Elements(queue) + ts
  {
    r := queue;
    var todo := ts;
    while todo != {}
      invariant todo <= ts && forall t :: t in r <==> t in queue || (t in ts && t !in todo)
      decreases |todo|
    {
      var t :| t in todo;
      r := r + [t];
      todo := todo - {t};
    }
  }

  lemma ReachesOn(g: Graph<TypeIdx>, a: TypeIdx, b: TypeIdx, c: TypeIdx)
    requires Reaches(g, a, b) && c in Get(g, b)
    ensures Reaches(g, a, c)
  {
    var p :| IsPath(g, p, a, b);
    assert IsPath(g, p + [c], a, c);
  }

  /** The visited set, when nothing is queued any more, is what the start reaches. */
  lemma VisitedExact(prop: Propagation, start: TypeIdx, visited: set<TypeIdx>)
    requires start in visited && visited <= Mentioned(prop) + {start}
    requires forall t | t in visited :: Reaches(SourceGraph(prop, start), start, t) && Sources(prop, t) <= visited
    ensures SourcesOf(prop, visited) == Closure(prop, start)
  {
    var g := SourceGraph(prop, start);
    forall p | p in Closure(prop, start) ensures p in SourcesOf(prop, visited) {
      var t :| Reaches(g, start, t) && t in g && p in Sources(prop, t);
      var path :| IsPath(g, path, start, t);
      ClosedContains(g, x => true, path, start, t, visited);
    }
    forall p | p in SourcesOf(prop, visited) ensures p in Closure(prop, start) {
      var t :| t in visited && p in Sources(prop, t);
      SourcesMentioned(prop, t);
      assert DependsOn(prop, start, p);
    }
  }

  /** What a dependency depends on is a dependency too. */
  lemma ClosureTransitive(prop: Propagation, start: TypeIdx, p: TypeIdx, q: TypeIdx)
    requires p in Closure(prop, start) && q in Sources(prop, p)
    ensures q in Closure(prop, start)
  {
    var g := SourceGraph(prop, start);
    var t :| Reaches(g, start, t) && t in g && p in Sources(prop, t);
    ReachesOn(g, start, t, p);
    SourcesMentioned(prop, p);
    assert DependsOn(prop, start, q);
  }
}
