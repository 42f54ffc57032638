/** Which layers an indirect call consults, access by access. */
module LayerWalk {
  import opened Options
  import opened TypeIndex
  import opened LayerChain
  import opened LayerTargets

  /** The first access reached from `v`. */
  ghost predicate IsAccess(g: Values, v: Value, gep: Value) {
    exists path: seq<Value> :: FindsFirst(g, path, {}) && path[0] == v && Last(path) == gep && gep in g && g[gep].Gep?
  }

  /** The field escapes by itself or with all fields of its type. */
  predicate Escapes<F>(facts: Facts<F>, t: TypeIdx) {
    exists e :: e in facts.escapes && e.hash == t.hash && (e.idx == t.idx || e.idx == -1)
  }

  /** The first `n` fields of an access are consulted. */
  datatype Cut = Cut(gep: Value, n: nat)

  /** The accesses met one after the other, each from the pointer of the one before it. `budget` is
      how many fields may still be looked at, a field that escapes among them. Of each access the
      fields are consulted up to one that escapes, and the walk goes on; it ends behind a capped
      field, when the budget is used up, when no access is reached, or when the first field of
      the access reached escapes. */
  ghost predicate IsWalk<F>(facts: Facts<F>, g: Values, v: Value, budget: nat, cuts: seq<Cut>)
    decreases |cuts|
  {
    if cuts == [] then
      || budget == 0 || !CanFind(g, v, {})
      || exists gep :: IsAccess(g, v, gep) && g[gep].layers != [] && Escapes(facts, g[gep].layers[0])
    else
      var gep, n, rest := cuts[0].gep, cuts[0].n, cuts[1..];
      && IsAccess(g, v, gep)
      && var fields, next := g[gep].layers, g[gep].pointer;
         && 1 <= n <= |fields| && n <= budget
         && (forall k | 0 <= k < n :: !Escapes(facts, fields[k]))
         && (forall k | 0 <= k < n - 1 :: fields[k].hash !in facts.caps)
         && if fields[n - 1].hash in facts.caps then rest == []
            else if n == |fields| then IsWalk(facts, g, next, budget - n, rest)
            else if n == budget then rest == []
            else Escapes(facts, fields[n]) && IsWalk(facts, g, next, budget - n - 1, rest)
  }

  function FieldsOf(g: Values, cuts: seq<Cut>): seq<TypeIdx> {
    if cuts == [] then []
    else
      var gep, n := cuts[0].gep, cuts[0].n;
      (if gep in g && g[gep].Gep? && n <= |g[gep].layers| then g[gep].layers[..n] else []) + FieldsOf(g, cuts[1..])
  }

  lemma EscapesIsEscaped<F>(facts: Facts<F>, t: TypeIdx)
    ensures Escapes(facts, t) <==> Escaped(facts, t)
  {
    assert forall e: TypeIdx | e.hash == t.hash && (e.idx == t.idx || e.idx == -1) :: e == t || e == TypeIdx(t.hash, -1);
    if t in facts.escapes { assert Escapes(facts, t); }
    if TypeIdx(t.hash, -1) in facts.escapes { assert Escapes(facts, t); }
  }

  lemma {:induction false} InListCut<F>(facts: Facts<F>, tyList: seq<TypeIdx>, layerNo: nat) returns (k: nat)
    requires layerNo <= MAX_TYPE_LAYER
    ensures k <= |tyList| && InList(facts, tyList, layerNo).0 == tyList[..k] && layerNo + k <= MAX_TYPE_LAYER
    ensures forall i | 0 <= i < k :: !Escapes(facts, tyList[i])
    ensures forall i | 0 <= i < k - 1 :: tyList[i].hash !in facts.caps
    ensures var (_, n, stop) := InList(facts, tyList, layerNo);
            if k > 0 && tyList[k - 1].hash in facts.caps then stop && n == layerNo + k
            else if k == |tyList| || layerNo + k == MAX_TYPE_LAYER then !stop && n == layerNo + k
            else !stop && Escapes(facts, tyList[k]) && n == layerNo + k + 1
  {
    if tyList == [] || layerNo >= MAX_TYPE_LAYER {
      k := 0;
    } else {
      EscapesIsEscaped(facts, tyList[0]);
      if Escaped(facts, tyList[0]) {
        k := 0;
      } else if tyList[0].hash in facts.caps {
        k := 1;
      } else {
        var m := InListCut(facts, tyList[1..], layerNo + 1);
        k := m + 1;
        assert tyList[..k] == [tyList[0]] + tyList[1..][..m];
        assert forall i | 1 <= i < |tyList| :: tyList[i] == tyList[1..][i - 1];
      }
    }
  }

  lemma {:induction false} NeverOnward<F>(facts: Facts<F>, g: Values, cv: Value, layerNo: nat)
    requires WellFormed(g) && cv in g && layerNo <= MAX_TYPE_LAYER
    requires var found := Next(g, Some(cv), [], {}); found.tyList != [] && Escaped(facts, found.tyList[0])
    ensures Layers(facts, g, Some(cv), layerNo) == []
    decreases MAX_TYPE_LAYER - layerNo
  {
    if layerNo < MAX_TYPE_LAYER {
      NeverOnward(facts, g, cv, layerNo + 1);
    }
  }

  /** The access that the next round of the loop finds. */
  lemma NextAccess(g: Values, v: Value) returns (gep: Value)
    requires WellFormed(g) && v in g && CanFind(g, v, {})
    ensures IsAccess(g, v, gep) && gep in g && g[gep].Gep? && g[gep].layers != [] && g[gep].pointer in g
    ensures Next(g, Some(v), [], {}).tyList == g[gep].layers && Next(g, Some(v), [], {}).nextV == Some(g[gep].pointer)
  {
    hide FindsFirst;
    NextExact(g, v, [], {});
    var path := NextFinds(g, v, [], {});
    gep := Last(path);
    assert [] + g[gep].layers == g[gep].layers;
  }

  lemma {:induction false} LayersWalk<F>(facts: Facts<F>, g: Values, v: Value, layerNo: nat) returns (cuts: seq<Cut>)
    requires WellFormed(g) && v in g && layerNo <= MAX_TYPE_LAYER
    ensures IsWalk(facts, g, v, MAX_TYPE_LAYER - layerNo, cuts) && Layers(facts, g, Some(v), layerNo) == FieldsOf(g, cuts)
    decreases MAX_TYPE_LAYER - layerNo
  {
    hide WellFormed, Next, InList, IsAccess, CanFind, Escapes;
    NextExact(g, v, [], {});
    cuts := [];
    if layerNo < MAX_TYPE_LAYER && CanFind(g, v, {}) {
      var gep := NextAccess(g, v);
      var fields := g[gep].layers;
      var k := InListCut(facts, fields, layerNo);
      if k == 0 {
        EscapesIsEscaped(facts, fields[0]);
        NeverOnward(facts, g, v, layerNo);
      } else {
        var (ts, n, stop) := InList(facts, fields, layerNo);
        var rest: seq<Cut> := [];
        if !stop {
          rest := LayersWalk(facts, g, g[gep].pointer, n);
        }
        cuts := [Cut(gep, k)] + rest;
        assert cuts[1..] == rest;
        if !stop && k < |fields| && layerNo + k == MAX_TYPE_LAYER {
          NothingLeft(facts, g, g[gep].pointer, rest);
        }
      }
    } else if layerNo < MAX_TYPE_LAYER {
      NextUnchanged(g, v);
    }
  }

  lemma NextUnchanged(g: Values, v: Value)
    requires WellFormed(g) && v in g && !CanFind(g, v, {})
    ensures Next(g, Some(v), [], {}).tyList == []
  {
    NextExact(g, v, [], {});
  }

  lemma NothingLeft<F>(facts: Facts<F>, g: Values, v: Value, cuts: seq<Cut>)
    requires IsWalk(facts, g, v, 0, cuts)
    ensures cuts == []
  {
  }

  /** The layers a call consults are those of such a walk over at most nine fields, or none if
      its function type is capped. */
  lemma ConsultedWalk<F>(facts: Facts<F>, g: Values, sig: int, callee: Value) returns (cuts: seq<Cut>)
    requires WellFormed(g) && callee in g
    ensures if sig in facts.caps then Consulted(facts, g, sig, callee) == []
            else IsWalk(facts, g, callee, 9, cuts) && Consulted(facts, g, sig, callee) == FieldsOf(g, cuts)
  {
    cuts := LayersWalk(facts, g, callee, 1);
    hide Layers, IsWalk, FieldsOf, WellFormed;
  }

  /** No field escapes, and none but the last is capped. */
  ghost predicate AllOpen<F>(facts: Facts<F>, fields: seq<TypeIdx>) {
    && (forall i | 0 <= i < |fields| :: !Escapes(facts, fields[i]))
    && (forall i | 0 <= i < |fields| - 1 :: fields[i].hash !in facts.caps)
  }

  lemma OpenJoined<F>(facts: Facts<F>, a: seq<TypeIdx>, b: seq<TypeIdx>)
    requires AllOpen(facts, a) && AllOpen(facts, b) && (a != [] && b != [] ==> a[|a| - 1].hash !in facts.caps)
    ensures AllOpen(facts, a + b)
  {
    hide Escapes;
  }

  /** No layer consulted escapes, none but the last is capped, and there are at most as many as
      the budget. */
  lemma {:induction false} WalkFields<F>(facts: Facts<F>, g: Values, v: Value, budget: nat, cuts: seq<Cut>)
    requires IsWalk(facts, g, v, budget, cuts)
    ensures |FieldsOf(g, cuts)| <= budget && AllOpen(facts, FieldsOf(g, cuts))
    decreases |cuts|
  {
    if cuts != [] {
      var gep, n, rest := cuts[0].gep, cuts[0].n, cuts[1..];
      var fields, next := g[gep].layers, g[gep].pointer;
      assert AllOpen(facts, fields[..n]);
      if fields[n - 1].hash in facts.caps || (n < |fields| && n == budget) {
        assert FieldsOf(g, rest) == [];
      } else {
        WalkFields(facts, g, next, if n == |fields| then budget - n else budget - n - 1, rest);
      }
      hide Escapes, AllOpen, IsWalk, IsAccess;
      OpenJoined(facts, fields[..n], FieldsOf(g, rest));
    }
  }
}
