/** The two maps that relate functions to the struct fields they were stored in, one the
    inverse of the other over every run of confinements and invalidations. */
module TypeIndex {
  import opened MultiMap
  import opened Reach

  /** A field of a type, by the hash of the type; -1 stands for all fields. */
  datatype TypeIdx = TypeIdx(hash: int, idx: int)

  /** `typeIdxFuncsMap` and `funcTypeIdxsMap`. */
  datatype Index<F(==)> = Index(funcs: map<TypeIdx, set<F>>, types: map<F, set<TypeIdx>>)

  ghost predicate Inverse<F(!new)>(s: Index<F>) {
    forall t, f {:trigger f in Get(s.funcs, t)} {:trigger t in Get(s.types, f)} :: f in Get(s.funcs, t) <==> t in Get(s.types, f)
  }

  // ---- Runs ----

  datatype Step<F(==)> = Confine(f: F, ts: set<TypeIdx>) | Invalidate(fs: set<F>)

  /** What a step leaves in each entry of the maps. */
  ghost predicate After<F(!new)>(s: Index<F>, step: Step<F>, s': Index<F>) {
    match step
    case Confine(f, ts) =>
      && (forall t {:trigger Get(s'.funcs, t)} :: Get(s'.funcs, t) == Get(s.funcs, t) + if t in ts then {f} else {})
      && (forall g {:trigger Get(s'.types, g)} :: Get(s'.types, g) == Get(s.types, g) + if g == f then ts else {})
    case Invalidate(fs) =>
      && (forall t, g {:trigger g in Get(s'.funcs, t)} ::
            g in Get(s'.funcs, t) <==> g in Get(s.funcs, t) && !(g in fs && t in Get(s.types, g)))
      && (forall g {:trigger Get(s'.types, g)} :: Get(s'.types, g) == if g in fs then {} else Get(s.types, g))
  }

  ghost predicate IsRun<F(!new)>(steps: seq<Step<F>>, states: seq<Index<F>>) {
    && |states| == |steps| + 1 && states[0] == Index(map[], map[])
    && forall i | 0 <= i < |steps| :: After(states[i], steps[i], states[i + 1])
  }

  /** A step confined `f` to `t` and no later one invalidated `f`. */
  ghost predicate Confined<F>(steps: seq<Step<F>>, f: F, t: TypeIdx) {
    steps != [] &&
    var last, before := steps[|steps| - 1], steps[..|steps| - 1];
    match last
    case Confine(g, ts) => (g == f && t in ts) || Confined(before, f, t)
    case Invalidate(fs) => f !in fs && Confined(before, f, t)
  }

  /** That is, some step confined it and none after that step invalidated the function. */
  lemma {:induction false} ConfinedExact<F>(steps: seq<Step<F>>, f: F, t: TypeIdx)
    ensures Confined(steps, f, t) <==> exists i :: 0 <= i < |steps| && ConfinedAt(steps, i, f, t)
  {
    if steps != [] {
      var n := |steps| - 1;
      ConfinedExact(steps[..n], f, t);
      assert ConfinedAt(steps, n, f, t) <==> steps[n].Confine? && steps[n].f == f && t in steps[n].ts;
      forall i | 0 <= i < n
        ensures ConfinedAt(steps, i, f, t) <==> ConfinedAt(steps[..n], i, f, t) && !(steps[n].Invalidate? && f in steps[n].fs)
      {
        assert steps[..n][i] == steps[i];
        assert forall j | i < j < n :: steps[..n][j] == steps[j];
      }
      hide ConfinedAt;
    }
  }

  predicate ConfinedAt<F>(steps: seq<Step<F>>, i: nat, f: F, t: TypeIdx)
    requires i < |steps|
  {
    && steps[i].Confine? && steps[i].f == f && t in steps[i].ts
    && forall j | i < j < |steps| :: steps[j].Invalidate? ==> f !in steps[j].fs
  }

  lemma StepKeepsInverse<F(!new)>(s: Index<F>, step: Step<F>, s': Index<F>)
    requires Inverse(s) && After(s, step, s')
    ensures Inverse(s')
    ensures step.Invalidate? ==> forall t, f | f in step.fs :: f !in Get(s'.funcs, t)
  {
  }

  lemma ConfineTwice<F(!new)>(s: Index<F>, f: F, a: set<TypeIdx>, m: Index<F>, b: set<TypeIdx>, s': Index<F>)
    requires After(s, Confine(f, a), m) && After(m, Confine(f, b), s')
    ensures After(s, Confine(f, a + b), s')
  {
    forall t ensures Get(s'.funcs, t) == Get(s.funcs, t) + if t in a + b then {f} else {} {
      assert Get(m.funcs, t) == Get(s.funcs, t) + if t in a then {f} else {};
    }
    forall g ensures Get(s'.types, g) == Get(s.types, g) + if g == f then a + b else {} {
      assert Get(m.types, g) == Get(s.types, g) + if g == f then a else {};
    }
  }

  lemma InvalidateTwice<F(!new)>(s: Index<F>, a: set<F>, m: Index<F>, b: set<F>, s': Index<F>)
    requires After(s, Invalidate(a), m) && After(m, Invalidate(b), s')
    ensures After(s, Invalidate(a + b), s')
  {
    forall t, g ensures g in Get(s'.funcs, t) <==> g in Get(s.funcs, t) && !(g in a + b && t in Get(s.types, g)) {
      assert g in Get(m.funcs, t) <==> g in Get(s.funcs, t) && !(g in a && t in Get(s.types, g));
      assert Get(m.types, g) == if g in a then {} else Get(s.types, g);
    }
    forall g ensures Get(s'.types, g) == if g in a + b then {} else Get(s.types, g) {
      assert Get(m.types, g) == if g in a then {} else Get(s.types, g);
    }
  }

  /** After every run each map is the inverse of the other, and both hold exactly the
      confinements that no invalidation has undone. */
  lemma {:induction false} RunIndexExact<F(!new)>(steps: seq<Step<F>>, states: seq<Index<F>>)
    requires IsRun(steps, states)
    ensures Inverse(states[|steps|])
    ensures forall t, f {:trigger f in Get(states[|steps|].funcs, t)} :: f in Get(states[|steps|].funcs, t) <==> Confined(steps, f, t)
  {
    if steps != [] {
      var n := |steps| - 1;
      RunIndexExact(steps[..n], states[..n + 1]);
      assert states[..n + 1][n] == states[n];
      StepKeepsInverse(states[n], steps[n], states[n + 1]);
      forall t, f ensures f in Get(states[n + 1].funcs, t) <==> Confined(steps, f, t) {
        assert f in Get(states[n].funcs, t) <==> Confined(steps[..n], f, t);
        assert f in Get(states[n].funcs, t) <==> t in Get(states[n].types, f);
      }
    }
  }

  // ---- Containers of an initialiser ----

  /** Containers with the position in them; they may contain each other. */
  type Containers<V> = map<V, (V, int)>

  function Up<V>(containers: Containers<V>): Graph<V> {
    map v | v in containers :: {containers[v].0}
  }

  /** The fields of one container: its type may have several hashes. */
  function Fields<V>(hashes: V -> set<int>, container: (V, int)): set<TypeIdx> {
    set h | h in hashes(container.0) :: TypeIdx(h, container.1)
  }

  /** The fields of every container around `o`, at any depth. */
  ghost predicate IsFieldAround<V(!new)>(containers: Containers<V>, hashes: V -> set<int>, o: V, t: TypeIdx) {
    exists v ::
      && ReachesVia(Up(containers), w => true, o, v)
      && v in containers && t.hash in hashes(containers[v].0) && t.idx == containers[v].1
  }

  class TypeIndex<F(==, !new), V(==, !new)> {
    var typeIdxFuncsMap: map<TypeIdx, set<F>>
    var funcTypeIdxsMap: map<F, set<TypeIdx>>
    /** Hashes of the types whose own users are not all known. */
    var typeCapSet: set<int>

    ghost function State(): Index<F>
      reads this
    {
      Index(typeIdxFuncsMap, funcTypeIdxsMap)
    }

    constructor ()
      ensures State() == Index(map[], map[]) && typeCapSet == {}
    {
      typeIdxFuncsMap, funcTypeIdxsMap, typeCapSet := map[], map[], {};
    }

    method ConfineAt(f: F, t: TypeIdx)
      modifies this`typeIdxFuncsMap, this`funcTypeIdxsMap
      ensures After(old(State()), Confine(f, {t}), State())
    {
      typeIdxFuncsMap := Insert(typeIdxFuncsMap, t, f);
      funcTypeIdxsMap := Insert(funcTypeIdxsMap, f, t);
    }

    /** `confineTargetFunction`, for the base type chain of the value stored to. An incomplete
        chain caps its last type, or the function when it is empty. */
    method ConfineTargetFunction(chain: seq<TypeIdx>, complete: bool, f: F, intrinsic: bool, funcHash: int)
      modifies this
      ensures After(old(State()), Confine(f, if intrinsic then {} else Elements(chain)), State())
      ensures intrinsic || complete ==> typeCapSet == old(typeCapSet)
      ensures !intrinsic && !complete && chain == [] ==> typeCapSet == old(typeCapSet) + {funcHash}
      ensures !intrinsic && !complete && chain != [] ==> typeCapSet == old(typeCapSet) + {chain[|chain| - 1].hash}
    {
      if intrinsic { return; }
      var i := 0;
      while i < |chain|
        invariant i <= |chain| && typeCapSet == old(typeCapSet)
        invariant After(old(State()), Confine(f, Elements(chain[..i])), State())
      {
        ghost var m := State();
        ConfineAt(f, chain[i]);
        ConfineTwice(old(State()), f, Elements(chain[..i]), m, {chain[i]}, State());
        assert Elements(chain[..i + 1]) == Elements(chain[..i]) + {chain[i]};
        i := i + 1;
      }
      assert chain[..i] == chain;
      if !complete {
        typeCapSet := typeCapSet + {if chain != [] then chain[|chain| - 1].hash else funcHash};
      }
    }

    method ConfineAll(f: F, ts: set<TypeIdx>)
      modifies this`typeIdxFuncsMap, this`funcTypeIdxsMap
      ensures After(old(State()), Confine(f, ts), State())
    {
      var todo := ts;
      while todo != {}
        invariant todo <= ts && After(old(State()), Confine(f, ts - todo), State())
        decreases |todo|
      {
        var t :| t in todo;
        ghost var m := State();
        ConfineAt(f, t);
        ConfineTwice(old(State()), f, ts - todo, m, {t}, State());
        assert ts - (todo - {t}) == (ts - todo) + {t};
        todo := todo - {t};
      }
      assert ts - todo == ts;
    }

    /** The walk of `typeConfineInInitializer` from a function address up its containers. */
    method ConfineContainers(containers: Containers<V>, hashes: V -> set<int>, o: V, f: F) returns (ghost ts: set<TypeIdx>)
      modifies this`typeIdxFuncsMap, this`funcTypeIdxsMap
      ensures After(old(State()), Confine(f, ts), State())
      ensures forall t :: t in ts <==> IsFieldAround(containers, hashes, o, t)
    {
      ghost var g := Up(containers);
      var cv := o;
      var visited: set<V> := {};
      ts := {};
      ReachesSelf(g, w => true, o);
      while cv in containers
        invariant visited <= containers.Keys && cv !in visited && o in visited + {cv}
        invariant ReachesVia(g, w => true, o, cv) && forall v | v in visited :: ReachesVia(g, w => true, o, v)
        invariant forall v | v in visited :: containers[v].0 in visited + {cv}
        invariant forall t :: t in ts <==> exists v :: v in visited && t in Fields(hashes, containers[v])
        invariant After(old(State()), Confine(f, ts), State())
        decreases containers.Keys - visited
      {
        var container := containers[cv];
        ghost var m := State();
        ConfineAll(f, Fields(hashes, container));
        ConfineTwice(old(State()), f, ts, m, Fields(hashes, container), State());
        ts := ts + Fields(hashes, container);
        visited := visited + {cv};
        ReachesStep(g, w => true, o, cv, container.0);
        if container.0 in visited { break; }
        cv := container.0;
      }
      forall v | ReachesVia(g, w => true, o, v) && v in containers ensures v in visited {
        var p :| IsPath(g, p, o, v) && Open(w => true, p);
        ClosedContains(g, w => true, p, o, v, visited + {cv});
      }
    }

    /** `invalidateStates` for the functions of a module. */
    method InvalidateStates(fs: seq<F>)
      modifies this`typeIdxFuncsMap, this`funcTypeIdxsMap
      ensures After(old(State()), Invalidate(Elements(fs)), State())
    {
      var i := 0;
      while i < |fs|
        invariant i <= |fs|
        invariant After(old(State()), Invalidate(Elements(fs[..i])), State())
      {
        ghost var m := State();
        InvalidateOne(fs[i]);
        InvalidateTwice(old(State()), Elements(fs[..i]), m, {fs[i]}, State());
        assert Elements(fs[..i + 1]) == Elements(fs[..i]) + {fs[i]};
        i := i + 1;
      }
      assert fs[..i] == fs;
    }

    method InvalidateOne(f: F)
      modifies this`typeIdxFuncsMap, this`funcTypeIdxsMap
      ensures After(old(State()), Invalidate({f}), State())
    {
      if f in funcTypeIdxsMap {
        typeIdxFuncsMap := EraseFromRows(typeIdxFuncsMap, funcTypeIdxsMap[f], f);
        funcTypeIdxsMap := funcTypeIdxsMap - {f};
      }
    }
  }

  /** One row without `v`, and no row when nothing else was in it. */
  function EraseFromRow<K(!new), V>(m: map<K, set<V>>, k: K, v: V): (r: map<K, set<V>>)
    ensures forall j {:trigger Get(r, j)} :: Get(r, j) == Get(m, j) - if j == k then {v} else {}
  {
    var left := Get(m, k) - {v};
    if left == {} then m - {k} else m[k := left]
  }

  /** `v` has been taken out of the rows `ks`, but for those of `todo`. */
  ghost predicate ErasedBut<K(!new), V(!new)>(m: map<K, set<V>>, ks: set<K>, todo: set<K>, v: V, r: map<K, set<V>>) {
    forall k, w {:trigger w in Get(r, k)} :: w in Get(r, k) <==> w in Get(m, k) && (w != v || k !in ks || k in todo)
  }

  lemma ErasedOneMore<K(!new), V(!new)>(m: map<K, set<V>>, ks: set<K>, todo: set<K>, v: V, r: map<K, set<V>>, k: K)
    requires ErasedBut(m, ks, todo, v, r) && k in ks
    ensures ErasedBut(m, ks, todo - {k}, v, EraseFromRow(r, k, v))
  {
    hide Get, EraseFromRow;
  }

  lemma ErasedAll<K(!new), V(!new)>(m: map<K, set<V>>, ks: set<K>, v: V, r: map<K, set<V>>)
    requires ErasedBut(m, ks, {}, v, r)
    ensures forall k {:trigger Get(r, k)} :: Get(r, k) == Get(m, k) - if k in ks then {v} else {}
  {
    hide Get;
  }

  /** Take `v` out of the rows `ks`. */
  method EraseFromRows<K(!new), V(!new)>(m: map<K, set<V>>, ks: set<K>, v: V) returns (r: map<K, set<V>>)
    ensures forall k {:trigger Get(r, k)} :: Get(r, k) == Get(m, k) - if k in ks then {v} else {}
  {
    r := m;
    var todo := ks;
    assert ErasedBut(m, ks, todo, v, r);
    hide ErasedBut, EraseFromRow;
    while todo != {}
      invariant todo <= ks && ErasedBut(m, ks, todo, v, r)
      decreases |todo|
    {
      var k :| k in todo;
      ErasedOneMore(m, ks, todo, v, r, k);
      r := EraseFromRow(r, k, v);
      todo := todo - {k};
    }
    ErasedAll(m, ks, v, r);
  }
}
