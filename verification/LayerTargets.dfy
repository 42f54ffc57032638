/** The targets a struct field can hold, and the layers an indirect call consults. */
module LayerTargets {
  import opened Options
  import opened MultiMap
  import opened TypeIndex
  import opened TypeClosure
  import opened LayerChain

  const MAX_TYPE_LAYER := 10

  /** What has been collected before calls are resolved. */
  datatype Facts<F(==)> = Facts(funcs: map<TypeIdx, set<F>>, prop: Propagation, escapes: set<TypeIdx>, caps: set<int>)

  /** The functions stored in a field; -1 reads all fields, and is read with each. */
  function Stored<F>(facts: Facts<F>, t: TypeIdx): set<F> {
    if t.idx == -1 then set u, f | u in facts.funcs && u.hash == t.hash && f in facts.funcs[u] :: f
    else Get(facts.funcs, t) + Get(facts.funcs, TypeIdx(t.hash, -1))
  }

  ghost function StoredInAll<F>(facts: Facts<F>, ts: set<TypeIdx>): set<F> {
    set t, f | t in ts && f in Stored(facts, t) :: f
  }

  /** The field's own functions and those of everything that propagates to it. */
  ghost function TrueTargets<F>(facts: Facts<F>, t: TypeIdx): set<F> {
    Stored(facts, t) + StoredInAll(facts, Closure(facts.prop, t))
  }

  predicate Escaped<F>(facts: Facts<F>, t: TypeIdx) {
    t in facts.escapes || TypeIdx(t.hash, -1) in facts.escapes
  }

  // ---- The layers consulted ----

  /** The fields of one access: those consulted, the layer number after them, and whether a
      capped type has ended the search. An escaping field ends the access only. */
  function InList<F>(facts: Facts<F>, tyList: seq<TypeIdx>, layerNo: nat): (r: (seq<TypeIdx>, nat, bool))
    ensures layerNo <= r.1 && (tyList != [] && layerNo < MAX_TYPE_LAYER ==> layerNo < r.1)
    ensures layerNo <= MAX_TYPE_LAYER ==> |r.0| <= r.1 - layerNo && r.1 <= MAX_TYPE_LAYER
  {
    if tyList == [] || layerNo >= MAX_TYPE_LAYER then ([], layerNo, false)
    else if Escaped(facts, tyList[0]) then ([], layerNo + 1, false)
    else if tyList[0].hash in facts.caps then ([tyList[0]], layerNo + 1, true)
    else
      var (ts, n, stop) := InList(facts, tyList[1..], layerNo + 1);
      ([tyList[0]] + ts, n, stop)
  }

  /** From a value and a layer number on. */
  function Layers<F>(facts: Facts<F>, g: Values, cv: Option<Value>, layerNo: nat): (r: seq<TypeIdx>)
    requires WellFormed(g) && (cv.Some? ==> cv.value in g)
    ensures layerNo <= MAX_TYPE_LAYER ==> |r| <= MAX_TYPE_LAYER - layerNo
    decreases MAX_TYPE_LAYER - layerNo
  {
    if layerNo >= MAX_TYPE_LAYER then []
    else
      var found := Next(g, cv, [], {});
      if found.tyList == [] then []
      else
        var (ts, n, stop) := InList(facts, found.tyList, layerNo);
        ts + if stop then [] else Layers(facts, g, if ts != [] then found.nextV else cv, n)
  }

  /** All layers of a call through `callee`, whose function type has the hash `sig`. */
  function Consulted<F>(facts: Facts<F>, g: Values, sig: int, callee: Value): (r: seq<TypeIdx>)
    requires WellFormed(g) && callee in g
    ensures |r| < MAX_TYPE_LAYER
  {
    if sig in facts.caps then [] else Layers(facts, g, Some(callee), 1)
  }

  // ---- Narrowing ----

  ghost function Narrowed<F>(facts: Facts<F>, fs: set<F>, layers: seq<TypeIdx>): set<F> {
    if layers == [] then fs
    else Narrowed(facts, fs, layers[..|layers| - 1]) * TrueTargets(facts, layers[|layers| - 1])
  }

  /** It keeps what has the signature and is a target of every layer. */
  lemma {:induction false} NarrowedExact<F>(facts: Facts<F>, fs: set<F>, layers: seq<TypeIdx>, f: F)
    ensures f in Narrowed(facts, fs, layers) <==> f in fs && forall i | 0 <= i < |layers| :: f in TrueTargets(facts, layers[i])
  {
    if layers != [] {
      NarrowedExact(facts, fs, layers[..|layers| - 1], f);
    }
  }
}
