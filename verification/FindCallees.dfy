/** `findCalleesWithMLTA`: narrow the functions of a signature layer by layer, with a memo
    table and two work sets that keep their contents from layer to layer. */
module FindCallees {
  import opened Options
  import opened MultiMap
  import opened TypeIndex
  import opened TypeClosure
  import opened LayerChain
  import opened LayerTargets
  import opened LayerQuery

  /** With -1 the result is added to what `fs0` holds, otherwise it replaces it. */
  method GetTargetsWithLayerType<F(!new)>(facts: Facts<F>, t: TypeIdx, fs0: set<F>) returns (fs: set<F>)
    ensures fs == Stored(facts, t) + if t.idx == -1 then fs0 else {}
  {
    if t.idx == -1 {
      fs := fs0;
      var todo := facts.funcs.Keys;
      while todo != {}
        invariant todo <= facts.funcs.Keys
        invariant forall f :: f in fs <==> f in fs0 || exists u :: u in facts.funcs && u !in todo && u.hash == t.hash && f in facts.funcs[u]
        decreases |todo|
      {
        var u :| u in todo;
        if u.hash == t.hash { fs := fs + facts.funcs[u]; }
        todo := todo - {u};
      }
    } else {
      fs := Get(facts.funcs, t);
      fs := fs + Get(facts.funcs, TypeIdx(t.hash, -1));
    }
  }

  lemma OneMoreStored<F>(facts: Facts<F>, done: set<TypeIdx>, p: TypeIdx)
    ensures StoredInAll(facts, done + {p}) == StoredInAll(facts, done) + Stored(facts, p)
  {
    hide Stored;
  }

  /** The work sets after the dependencies `done`: the first has gathered their targets, with
      what the second held before if the first one read stands for all fields. */
  ghost predicate Gathered<F>(facts: Facts<F>, propSet: set<TypeIdx>, done: set<TypeIdx>, base: set<F>, before2: set<F>, fs1: set<F>, fs2: set<F>) {
    if done == {} then fs1 == base && fs2 == before2
    else fs2 <= fs1 && fs1 == base + StoredInAll(facts, done) + if FirstWild(propSet) then before2 else {}
  }

  lemma GatherOne<F>(facts: Facts<F>, propSet: set<TypeIdx>, done: set<TypeIdx>, base: set<F>, before2: set<F>,
                     fs1: set<F>, fs2: set<F>, p: TypeIdx, next2: set<F>)
    requires Gathered(facts, propSet, done, base, before2, fs1, fs2) && done <= propSet && IsLeast(propSet - done, p)
    requires next2 == Stored(facts, p) + if p.idx == -1 then fs2 else {}
    ensures Gathered(facts, propSet, done + {p}, base, before2, fs1 + next2, next2)
  {
    OneMoreStored(facts, done, p);
    if done == {} {
      assert StoredInAll(facts, done) == {};
      LeastFirst(propSet, p);
    }
    hide Stored, StoredInAll, IsLeast, FirstWild;
  }

  lemma LeastFirst(ts: set<TypeIdx>, p: TypeIdx)
    requires IsLeast(ts, p)
    ensures FirstWild(ts) <==> p.idx == -1
  {
    if q :| IsLeast(ts, q) && q.idx == -1 {
      assert p == q || (Before(p, q) && Before(q, p));
    }
  }

  /** Add the targets of each dependency, through the second work set, in the order of the set. */
  method AddDependencies<F(!new)>(facts: Facts<F>, propSet: set<TypeIdx>, base: set<F>, before2: set<F>) returns (fs1: set<F>, fs2: set<F>)
    ensures fs1 == base + StoredInAll(facts, propSet) + if FirstWild(propSet) then before2 else {}
  {
    fs1, fs2 := base, before2;
    var todo := propSet;
    ghost var done: set<TypeIdx> := {};
    hide Stored, StoredInAll;
    while todo != {}
      invariant done <= propSet && todo == propSet - done
      invariant Gathered(facts, propSet, done, base, before2, fs1, fs2)
      decreases |todo|
    {
      hide Gathered;
      ghost var least := LeastExists(todo);
      var p :| p in todo && forall q | q in todo :: p == q || Before(p, q);
      ghost var was1, was2 := fs1, fs2;
      fs2 := GetTargetsWithLayerType(facts, p, fs2);
      fs1 := fs1 + fs2;
      GatherOne(facts, propSet, done, base, before2, was1, was2, p, fs2);
      MoveOver(propSet, done, p);
      done := done + {p};
      todo := todo - {p};
    }
    assert done == propSet;
    if propSet == {} {
      NothingStored(facts);
    }
  }

  lemma NothingStored<F>(facts: Facts<F>)
    ensures StoredInAll(facts, {}) == {}
  {
  }

  /** The targets of a field, on top of what the work sets held before. */
  method Recompute<F(!new)>(facts: Facts<F>, t: TypeIdx, before1: set<F>, before2: set<F>) returns (fs1: set<F>, fs2: set<F>)
    ensures fs1 == Recomputed(facts, t, before1, before2)
  {
    hide Closure, Stored, StoredInAll, FirstWild;
    fs1 := GetTargetsWithLayerType(facts, t, before1);
    var propSet := GetDependentTypes(facts.prop, t, {});
    assert propSet == Closure(facts.prop, t);
    ghost var base := fs1;
    fs1, fs2 := AddDependencies(facts, propSet, fs1, before2);
  }

  class MLTA<F(==, !new)> {
    var matchedFuncsMap: map<TypeIdx, set<F>>

    /** No entry is for a field that escapes. */
    ghost predicate Valid(facts: Facts<F>)
      reads this
    {
      forall t | t in matchedFuncsMap :: !Escaped(facts, t)
    }

    /** `initTempStates`, for the memo table. */
    constructor ()
      ensures matchedFuncsMap == map[]
    {
      matchedFuncsMap := map[];
    }

    /** One layer, unless its field escapes. */
    method ConsultLayer(facts: Facts<F>, t: TypeIdx, ghost w: Work<F>, fs0: set<F>, before1: set<F>, before2: set<F>)
      returns (escaped: bool, fs: set<F>, fs1: set<F>, fs2: set<F>)
      requires Valid(facts) && w == Work(fs0, before1, before2, matchedFuncsMap)
      modifies this
      ensures Valid(facts) && (escaped <==> Escaped(facts, t))
      ensures Work(fs, fs1, fs2, matchedFuncsMap) == if escaped then w else Consult(facts, w, t)
    {
      hide Recomputed;
      escaped, fs, fs1, fs2 := false, fs0, before1, before2;
      if t in matchedFuncsMap {
        fs1 := matchedFuncsMap[t];
      } else {
        if t in facts.escapes { return true, fs, fs1, fs2; }
        if TypeIdx(t.hash, -1) in facts.escapes { return true, fs, fs1, fs2; }
        fs1, fs2 := Recompute(facts, t, fs1, fs2);
        matchedFuncsMap := matchedFuncsMap[t := fs1];
      }
      fs2 := fs1 * fs;
      fs := fs2;
    }

    /** The fields of one access, after the layers `done`. */
    method ConsultAccess(facts: Facts<F>, tyList: seq<TypeIdx>, ghost start: Work<F>, ghost done: seq<TypeIdx>,
                         layerNo0: nat, prev0: int, fs0: set<F>, before1: set<F>, before2: set<F>)
      returns (layerNo: nat, prevLayerTy: int, stop: bool, moved: bool, fs: set<F>, fs1: set<F>, fs2: set<F>)
      requires Valid(facts) && Work(fs0, before1, before2, matchedFuncsMap) == ConsultAll(facts, start, done)
      modifies this
      ensures Valid(facts)
      ensures layerNo == InList(facts, tyList, layerNo0).1 && stop == InList(facts, tyList, layerNo0).2
      ensures prevLayerTy == prev0 || prevLayerTy !in facts.caps
      ensures moved <==> InList(facts, tyList, layerNo0).0 != []
      ensures Work(fs, fs1, fs2, matchedFuncsMap) == ConsultAll(facts, start, done + InList(facts, tyList, layerNo0).0)
    {
      layerNo, prevLayerTy, stop, moved, fs, fs1, fs2 := layerNo0, prev0, false, false, fs0, before1, before2;
      ghost var now := done;
      var i := 0;
      hide *;
      ListStarts(facts, tyList, layerNo0, done);
      while i < |tyList|
        invariant i <= |tyList| && Valid(facts) && !stop && (prevLayerTy == prev0 || prevLayerTy !in facts.caps)
        invariant RestOfList(facts, tyList, layerNo0, done, i, layerNo, now) && Since(done, now, moved)
        invariant Work(fs, fs1, fs2, matchedFuncsMap) == ConsultAll(facts, start, now)
      {
        ListStep(facts, tyList, layerNo0, done, i, layerNo, now);
        SinceStep(done, now, moved, tyList[i], InList(facts, tyList, layerNo0).0);
        if layerNo >= MAX_TYPE_LAYER { return; }
        layerNo := layerNo + 1;
        var t := tyList[i];
        var escaped;
        escaped, fs, fs1, fs2 := ConsultLayer(facts, t, ConsultAll(facts, start, now), fs, fs1, fs2);
        if escaped { return; }
        ConsultOneMore(facts, start, now, t);
        now := now + [t];
        moved := true;
        if t.hash in facts.caps {
          stop := true;
          return;
        }
        prevLayerTy := t.hash;
        i := i + 1;
      }
      ListEnds(facts, tyList, layerNo0, done, layerNo, now);
      SinceEnds(done, now, moved, InList(facts, tyList, layerNo0).0);
    }

    /** The result and the memo table are those of consulting the call's layers in order; which
        layers these are does not depend on the memo table. */
    method FindCalleesWithMLTA(facts: Facts<F>, g: Values, sig: int, sigFuncs: set<F>, callee: Value) returns (found: bool, fs: set<F>)
      requires Valid(facts) && WellFormed(g) && callee in g
      modifies this
      ensures Valid(facts) && (found <==> sigFuncs != {})
      ensures var q := Query(facts, old(matchedFuncsMap), sigFuncs, Consulted(facts, g, sig, callee));
              if found then fs == q.fs && matchedFuncsMap == q.matched
              else fs == {} && matchedFuncsMap == old(matchedFuncsMap)
    {
      ghost var start := Work(sigFuncs, {}, {}, matchedFuncsMap);
      var fs1: set<F>, fs2: set<F> := {}, {};
      var prevLayerTy := sig;
      var cv := Some(callee);
      var layerNo := 1;
      var more := true;
      ghost var all := Consulted(facts, g, sig, callee);
      ghost var done: seq<TypeIdx> := [];
      assert Rest(facts, g, all, done, cv, layerNo, prevLayerTy) && ConsultAll(facts, start, done) == start;
      assert Query(facts, matchedFuncsMap, sigFuncs, all) == ConsultAll(facts, start, all);
      hide *;
      fs := sigFuncs;
      if fs == {} { return false, fs; }
      while more
        invariant Valid(facts) && (cv.Some? ==> cv.value in g)
        invariant Work(fs, fs1, fs2, matchedFuncsMap) == ConsultAll(facts, start, done)
        invariant if more then Rest(facts, g, all, done, cv, layerNo, prevLayerTy) else done == all
        decreases MAX_TYPE_LAYER - layerNo, more
      {
        RestEnds(facts, g, all, done, cv, layerNo, prevLayerTy);
        if layerNo >= MAX_TYPE_LAYER { break; }
        if prevLayerTy in facts.caps { break; }
        var ret, tyList, nextV, visited := NextLayerBaseType(g, cv, [], {});
        if tyList == [] { break; }
        ghost var before, last := layerNo, prevLayerTy;
        var stop, moved;
        layerNo, prevLayerTy, stop, moved, fs, fs1, fs2 := ConsultAccess(facts, tyList, start, done, layerNo, prevLayerTy, fs, fs1, fs2);
        RestStep(facts, g, all, done, cv, before, last, prevLayerTy);
        done := done + InList(facts, tyList, before).0;
        if stop {
          more := false;
        } else if moved {
          cv := nextV;
        }
      }
      found := true;
    }
  }

  /** What is left of one access makes up all of it with what is done. */
  ghost predicate RestOfList<F>(facts: Facts<F>, tyList: seq<TypeIdx>, layerNo0: nat, done: seq<TypeIdx>, i: nat, layerNo: nat, now: seq<TypeIdx>)
    requires i <= |tyList|
  {
    var rest, whole := InList(facts, tyList[i..], layerNo), InList(facts, tyList, layerNo0);
    now + rest.0 == done + whole.0 && rest.1 == whole.1 && rest.2 == whole.2
  }

  /** Whether anything has been consulted. */
  ghost predicate Since(done: seq<TypeIdx>, now: seq<TypeIdx>, moved: bool) {
    |done| <= |now| && (moved <==> |now| > |done|)
  }

  lemma SinceStep(done: seq<TypeIdx>, now: seq<TypeIdx>, moved: bool, t: TypeIdx, whole: seq<TypeIdx>)
    requires Since(done, now, moved)
    ensures Since(done, now + [t], true)
    ensures now == done + whole ==> (moved <==> whole != [])
    ensures now + [t] == done + whole ==> whole != []
  {
  }

  lemma SinceEnds(done: seq<TypeIdx>, now: seq<TypeIdx>, moved: bool, whole: seq<TypeIdx>)
    requires Since(done, now, moved) && now == done + whole
    ensures moved <==> whole != []
  {
  }

  lemma ListStarts<F>(facts: Facts<F>, tyList: seq<TypeIdx>, layerNo: nat, done: seq<TypeIdx>)
    ensures RestOfList(facts, tyList, layerNo, done, 0, layerNo, done) && Since(done, done, false)
  {
    assert tyList[0..] == tyList;
  }

  lemma ListStep<F>(facts: Facts<F>, tyList: seq<TypeIdx>, layerNo0: nat, done: seq<TypeIdx>, i: nat, layerNo: nat, now: seq<TypeIdx>)
    requires i < |tyList| && RestOfList(facts, tyList, layerNo0, done, i, layerNo, now)
    ensures var whole := InList(facts, tyList, layerNo0);
            if layerNo >= MAX_TYPE_LAYER then now == done + whole.0 && layerNo == whole.1 && !whole.2
            else if Escaped(facts, tyList[i]) then now == done + whole.0 && layerNo + 1 == whole.1 && !whole.2
            else if tyList[i].hash in facts.caps then now + [tyList[i]] == done + whole.0 && layerNo + 1 == whole.1 && whole.2
            else RestOfList(facts, tyList, layerNo0, done, i + 1, layerNo + 1, now + [tyList[i]])
  {
    assert tyList[i..][0] == tyList[i] && tyList[i..][1..] == tyList[i + 1..];
    assert now + [] == now;
    var rest := InList(facts, tyList[i + 1..], layerNo + 1).0;
    assert now + ([tyList[i]] + rest) == now + [tyList[i]] + rest;
  }

  lemma ListEnds<F>(facts: Facts<F>, tyList: seq<TypeIdx>, layerNo0: nat, done: seq<TypeIdx>, layerNo: nat, now: seq<TypeIdx>)
    requires RestOfList(facts, tyList, layerNo0, done, |tyList|, layerNo, now)
    ensures var whole := InList(facts, tyList, layerNo0);
            now == done + whole.0 && layerNo == whole.1 && !whole.2
  {
    assert now + [] == now;
  }

  /** What is left to consult makes up all layers with what is done. */
  ghost predicate Rest<F>(facts: Facts<F>, g: Values, all: seq<TypeIdx>, done: seq<TypeIdx>, cv: Option<Value>, layerNo: nat, prev: int)
    requires WellFormed(g) && (cv.Some? ==> cv.value in g)
  {
    done + (if prev in facts.caps then [] else Layers(facts, g, cv, layerNo)) == all
  }

  lemma RestEnds<F>(facts: Facts<F>, g: Values, all: seq<TypeIdx>, done: seq<TypeIdx>, cv: Option<Value>, layerNo: nat, prev: int)
    requires WellFormed(g) && (cv.Some? ==> cv.value in g)
    requires Rest(facts, g, all, done, cv, layerNo, prev)
    ensures prev in facts.caps || layerNo >= MAX_TYPE_LAYER || Next(g, cv, [], {}).tyList == [] ==> done == all
  {
    assert done + [] == done;
  }

  lemma RestStep<F>(facts: Facts<F>, g: Values, all: seq<TypeIdx>, done: seq<TypeIdx>, cv: Option<Value>, layerNo: nat, prev: int, prev': int)
    requires WellFormed(g) && (cv.Some? ==> cv.value in g) && layerNo < MAX_TYPE_LAYER
    requires Rest(facts, g, all, done, cv, layerNo, prev) && prev !in facts.caps && prev' !in facts.caps
    requires Next(g, cv, [], {}).tyList != []
    ensures var found := Next(g, cv, [], {});
            var here := InList(facts, found.tyList, layerNo);
            && layerNo < here.1 && (found.nextV.Some? ==> found.nextV.value in g)
            && if here.2 then done + here.0 == all
               else Rest(facts, g, all, done + here.0, if here.0 != [] then found.nextV else cv, here.1, prev')
  {
    hide Next, InList, WellFormed;
    var found := Next(g, cv, [], {});
    var here := InList(facts, found.tyList, layerNo);
    assert here.0 + [] == here.0;
    if !here.2 {
      var onward := Layers(facts, g, if here.0 != [] then found.nextV else cv, here.1);
      assert done + (here.0 + onward) == done + here.0 + onward;
    }
  }

  lemma NothingDepends(t: TypeIdx)
    ensures Closure(map[], t) == {}
  {
  }

  // ---- A call through a field of an element of an array ----

  const FIELD := TypeIdx(1, 0)
  const ELEMENT := TypeIdx(2, -1)

  /** The callee is a field of an element at a variable index of an array argument. */
  const ARRAY_CALL: Values := map[0 := Gep(1, [FIELD, ELEMENT]), 1 := Argument]

  function ArrayFacts<F>(f: F, g: F): Facts<F> {
    Facts(map[FIELD := {f, g}, ELEMENT := {f}], map[], {}, {})
  }

  lemma ArrayCallLayers<F>(f: F, g: F)
    ensures WellFormed(ARRAY_CALL) && Consulted(ArrayFacts(f, g), ARRAY_CALL, 0, 0) == [FIELD, ELEMENT]
  {
    var facts := ArrayFacts(f, g);
    assert [FIELD, ELEMENT][1..] == [ELEMENT] && [ELEMENT][1..] == [];
    assert InList(facts, [], 3) == ([], 3, false);
    assert InList(facts, [ELEMENT], 2) == ([ELEMENT] + [], 3, false);
    var list, rest := [FIELD, ELEMENT], InList(facts, [ELEMENT], 2);
    assert list[1..] == [ELEMENT] && !Escaped(facts, FIELD);
    assert InList(facts, list, 1) == ([FIELD] + rest.0, rest.1, rest.2);
    assert Next(ARRAY_CALL, Some(1), [], {}).tyList == [];
    assert Layers(facts, ARRAY_CALL, Some(1), 3) == [];
    assert Next(ARRAY_CALL, Some(0), [], {}).tyList == [FIELD, ELEMENT];
  }

  lemma ArrayCallNarrowed<F>(f: F, g: F)
    requires f != g
    ensures Narrowed(ArrayFacts(f, g), {f, g}, [FIELD, ELEMENT]) == {f}
    ensures Query(ArrayFacts(f, g), map[], {f, g}, [FIELD, ELEMENT]).fs == {f, g}
  {
    var facts, layers := ArrayFacts(f, g), [FIELD, ELEMENT];
    NothingDepends(FIELD);
    NothingDepends(ELEMENT);
    assert ELEMENT in facts.funcs && f in Stored(facts, ELEMENT);
    assert TrueTargets(facts, FIELD) == {f, g} && TrueTargets(facts, ELEMENT) == {f};
    NarrowedExact(facts, {f, g}, layers, f);
    NarrowedExact(facts, {f, g}, layers, g);
    forall x | x in Narrowed(facts, {f, g}, layers) ensures x == f {
      NarrowedExact(facts, {f, g}, layers, x);
      assert x in TrueTargets(facts, layers[1]);
    }
    FreshQueryExact(facts, {f, g}, layers);
    assert layers[..1] == [FIELD] && [FIELD][..0] == [];
    assert !Loose(facts, FIELD) && Loose(facts, ELEMENT);
    assert Tight(facts, []) == [] && Tight(facts, [FIELD]) == [FIELD];
    assert Tight(facts, layers) == Tight(facts, layers[..1]) + [] == [FIELD];
    forall x ensures x in Narrowed(facts, {f, g}, [FIELD]) <==> x in {f, g} {
      NarrowedExact(facts, {f, g}, [FIELD], x);
    }
  }

  /** A function that is no target of the array layer stays, since the work set still holds it
      from the field layer. */
  method LeftoverWidens<F(!new)>(f: F, g: F) returns (fs: set<F>)
    requires f != g
    ensures fs == {f, g}
    ensures WellFormed(ARRAY_CALL) && Narrowed(ArrayFacts(f, g), {f, g}, Consulted(ArrayFacts(f, g), ARRAY_CALL, 0, 0)) == {f}
  {
    ArrayCallLayers(f, g);
    ArrayCallNarrowed(f, g);
    hide *;
    var mlta := new MLTA<F>();
    assert mlta.Valid(ArrayFacts(f, g));
    var found;
    found, fs := mlta.FindCalleesWithMLTA(ArrayFacts(f, g), ARRAY_CALL, 0, {f, g}, 0);
  }
}
