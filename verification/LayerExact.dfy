/** When a query answers exactly the functions that are targets of every layer, whatever
    functions are stored in the fields and whatever earlier queries left in the memo table. */
module LayerExact {
  import opened TypeIndex
  import opened TypeClosure
  import opened LayerTargets
  import opened LayerQuery

  /** The field and those it depends on. */
  ghost function Fields(prop: Propagation, t: TypeIdx): set<TypeIdx> {
    {t} + Closure(prop, t)
  }

  predicate CoversField(ts: set<TypeIdx>, r: TypeIdx) {
    r in ts || TypeIdx(r.hash, -1) in ts
  }

  /** Every field that feeds `s` feeds `t`. */
  ghost predicate Covers(prop: Propagation, t: TypeIdx, s: TypeIdx) {
    forall r | r in Fields(prop, s) :: CoversField(Fields(prop, t), r)
  }

  lemma TargetsFromFields<F>(facts: Facts<F>, t: TypeIdx, f: F)
    ensures f in TrueTargets(facts, t) <==> exists r :: r in Fields(facts.prop, t) && f in Stored(facts, r)
  {
    hide Stored, Closure;
  }

  lemma StoredInAny<F>(facts: Facts<F>, r: TypeIdx, f: F)
    requires f in Stored(facts, r)
    ensures f in Stored(facts, TypeIdx(r.hash, -1))
  {
  }

  lemma CoveredTargets<F>(facts: Facts<F>, t: TypeIdx, s: TypeIdx, f: F)
    requires Covers(facts.prop, t, s) && f in TrueTargets(facts, s)
    ensures f in TrueTargets(facts, t)
  {
    hide TrueTargets, Stored, Fields;
    TargetsFromFields(facts, s, f);
    TargetsFromFields(facts, t, f);
    var r :| r in Fields(facts.prop, s) && f in Stored(facts, r);
    assert CoversField(Fields(facts.prop, t), r);
    StoredInAny(facts, r, f);
  }

  // ---- Stored functions that tell two layers apart ----

  lemma {:induction false} FreshIdx(ts: set<TypeIdx>) returns (k: nat)
    ensures forall r | r in ts :: r.idx < k
    decreases |ts|
  {
    if ts == {} {
      k := 0;
    } else {
      var r :| r in ts;
      k := FreshIdx(ts - {r});
      if k <= r.idx { k := r.idx + 1; }
    }
  }

  /** Where to store a function that `r` reads. */
  function KeyFor(r: TypeIdx, k: nat): TypeIdx {
    if r.idx == -1 then TypeIdx(r.hash, k) else r
  }

  /** The fields read by some of `ss` that nothing of `ts` reads. */
  ghost function Apart(prop: Propagation, ts: set<TypeIdx>, ss: set<TypeIdx>): set<TypeIdx> {
    set s, r | s in ss && r in Fields(prop, s) && !CoversField(ts, r) :: r
  }

  ghost function StoredApart<F>(rs: set<TypeIdx>, k: nat, f: F): map<TypeIdx, set<F>> {
    var keys := set r | r in rs :: KeyFor(r, k);
    map u | u in keys :: {f}
  }

  lemma ReadsApart<F>(facts: Facts<F>, rs: set<TypeIdx>, k: nat, f: F, r: TypeIdx)
    requires facts.funcs == StoredApart(rs, k, f) && r in rs
    ensures f in Stored(facts, r)
  {
    var u := KeyFor(r, k);
    assert u in facts.funcs && facts.funcs[u] == {f};
  }

  lemma ReadsNothing<F>(facts: Facts<F>, ts: set<TypeIdx>, rs: set<TypeIdx>, k: nat, f: F, r: TypeIdx)
    requires facts.funcs == StoredApart(rs, k, f) && r in ts && r.idx < k
    requires forall q | q in rs :: !CoversField(ts, q)
    ensures f !in Stored(facts, r)
  {
    forall u | u in facts.funcs && u.hash == r.hash ensures r.idx != -1 && u != r && u.idx != -1 {
      var q :| q in rs && u == KeyFor(q, k);
      assert !CoversField(ts, q);
    }
  }

  /** If none of the layers `ss` is covered by `t`, some functions are targets of all of them and
      not of `t`. */
  lemma TellApart<F>(facts: Facts<F>, t: TypeIdx, ss: set<TypeIdx>, f: F) returns (other: Facts<F>)
    requires forall s | s in ss :: !Covers(facts.prop, t, s)
    ensures other == facts.(funcs := other.funcs)
    ensures f !in TrueTargets(other, t) && forall s | s in ss :: f in TrueTargets(other, s)
  {
    var ts := Fields(facts.prop, t);
    var rs := Apart(facts.prop, ts, ss);
    var k := FreshIdx(ts);
    other := facts.(funcs := StoredApart(rs, k, f));
    TargetsFromFields(other, t, f);
    forall r | r in ts ensures f !in Stored(other, r) {
      ReadsNothing(other, ts, rs, k, f, r);
    }
    forall s | s in ss ensures f in TrueTargets(other, s) {
      var r :| r in Fields(facts.prop, s) && !CoversField(ts, r);
      assert r in rs;
      ReadsApart(other, rs, k, f, r);
      TargetsFromFields(other, s, f);
    }
  }

  // ---- The condition ----

  type Memo<F> = map<TypeIdx, set<F>>

  /** The layer narrows the result to its own targets, in every query that finds entries for
      `cached` in the memo table. */
  ghost predicate Narrows<F>(facts: Facts<F>, cached: set<TypeIdx>, layers: seq<TypeIdx>, j: int)
    requires 0 <= j < |layers|
  {
    !Loose(facts, layers[j]) || (j == 0 && layers[0] !in cached)
  }

  /** Every layer that does not narrow the result covers one that does. */
  ghost predicate LooseCovered<F>(facts: Facts<F>, cached: set<TypeIdx>, layers: seq<TypeIdx>) {
    forall i | 0 <= i < |layers| && !Narrows(facts, cached, layers, i) ::
      exists j :: 0 <= j < |layers| && Narrows(facts, cached, layers, j) && Covers(facts.prop, layers[i], layers[j])
  }

  ghost predicate Exact<F>(facts: Facts<F>, matched: Memo<F>, fs: set<F>, layers: seq<TypeIdx>) {
    Query(facts, matched, fs, layers).fs == Narrowed(facts, fs, layers)
  }

  /** The function is not taken out at layer `j`. */
  ghost predicate Passes<F>(facts: Facts<F>, matched: Memo<F>, layers: seq<TypeIdx>, j: int, f: F)
    requires 0 <= j < |layers|
  {
    var t := layers[j];
    if t in matched then f in matched[t] else j == 0 || !Loose(facts, t) ==> f in TrueTargets(facts, t)
  }

  lemma LimitedStep<F>(facts: Facts<F>, matched: Memo<F>, fs: set<F>, layers: seq<TypeIdx>, f: F)
    requires layers != []
    ensures f in Limited(facts, matched, fs, layers)
       <==> f in Limited(facts, matched, fs, layers[..|layers| - 1]) && Passes(facts, matched, layers, |layers| - 1, f)
  {
    hide TrueTargets, Loose;
  }

  lemma {:induction false} LimitedExact<F>(facts: Facts<F>, matched: Memo<F>, fs: set<F>, layers: seq<TypeIdx>, f: F)
    ensures f in Limited(facts, matched, fs, layers)
       <==> f in fs && forall j | 0 <= j < |layers| :: Passes(facts, matched, layers, j, f)
  {
    if layers != [] {
      var n := |layers| - 1;
      LimitedExact(facts, matched, fs, layers[..n], f);
      LimitedStep(facts, matched, fs, layers, f);
      forall j | 0 <= j < n ensures Passes(facts, matched, layers[..n], j, f) == Passes(facts, matched, layers, j, f) {
        hide TrueTargets, Loose;
      }
      hide Limited, Passes;
    }
  }

  lemma NarrowsExactly<F>(facts: Facts<F>, matched: Memo<F>, layers: seq<TypeIdx>, j: nat, f: F)
    requires Covering(facts, matched) && j < |layers| && Narrows(facts, matched.Keys, layers, j)
    ensures Passes(facts, matched, layers, j, f) <==> f in TrueTargets(facts, layers[j])
  {
    hide TrueTargets, Loose;
  }

  lemma PassedAll<F>(facts: Facts<F>, matched: Memo<F>, layers: seq<TypeIdx>, i: nat, f: F)
    requires Covering(facts, matched) && LooseCovered(facts, matched.Keys, layers) && i < |layers|
    requires forall j | 0 <= j < |layers| :: Passes(facts, matched, layers, j, f)
    ensures f in TrueTargets(facts, layers[i])
  {
    if Narrows(facts, matched.Keys, layers, i) {
      NarrowsExactly(facts, matched, layers, i, f);
    } else {
      var j :| 0 <= j < |layers| && Narrows(facts, matched.Keys, layers, j) && Covers(facts.prop, layers[i], layers[j]);
      NarrowsExactly(facts, matched, layers, j, f);
      CoveredTargets(facts, layers[i], layers[j], f);
    }
  }

  lemma CoveredExact<F(!new)>(facts: Facts<F>, matched: Memo<F>, fs: set<F>, layers: seq<TypeIdx>)
    requires Covering(facts, matched) && LooseCovered(facts, matched.Keys, layers)
    ensures Exact(facts, matched, fs, layers)
  {
    QueryBounds(facts, matched, fs, layers);
    QueryLimited(facts, matched, fs, layers);
    hide Narrowed, Limited, LooseCovered, Covering, Query, Passes, TrueTargets;
    forall f | f in Limited(facts, matched, fs, layers) ensures f in Narrowed(facts, fs, layers) {
      LimitedExact(facts, matched, fs, layers, f);
      forall i | 0 <= i < |layers| ensures f in TrueTargets(facts, layers[i]) {
        PassedAll(facts, matched, layers, i, f);
      }
      NarrowedExact(facts, fs, layers, f);
    }
  }

  /** A table with the given entries, in which `f` has been left over wherever that can be. */
  ghost function LeftOver<F>(facts: Facts<F>, cached: set<TypeIdx>, f: F): Memo<F> {
    map t | t in cached :: TrueTargets(facts, t) + if Loose(facts, t) then {f} else {}
  }

  lemma LeftOverPasses<F>(facts: Facts<F>, cached: set<TypeIdx>, layers: seq<TypeIdx>, j: nat, f: F)
    requires j < |layers| && (Narrows(facts, cached, layers, j) ==> f in TrueTargets(facts, layers[j]))
    ensures Passes(facts, LeftOver(facts, cached, f), layers, j, f)
  {
    hide TrueTargets, Loose;
  }

  lemma LeftOverCovering<F>(facts: Facts<F>, cached: set<TypeIdx>, f: F)
    ensures Covering(facts, LeftOver(facts, cached, f)) && LeftOver(facts, cached, f).Keys == cached
  {
    hide TrueTargets, Loose;
  }

  /** A layer that covers none of those that narrow lets through, for some stored functions and
      some memo table, what is no target of it. */
  lemma UncoveredNotExact<F>(facts: Facts<F>, cached: set<TypeIdx>, layers: seq<TypeIdx>, i: nat, f: F) returns (other: Facts<F>)
    requires i < |layers| && !Narrows(facts, cached, layers, i)
    requires forall j | 0 <= j < |layers| && Narrows(facts, cached, layers, j) :: !Covers(facts.prop, layers[i], layers[j])
    ensures other == facts.(funcs := other.funcs) && !Exact(other, LeftOver(other, cached, f), {f}, layers)
  {
    var narrowing := set j | 0 <= j < |layers| && Narrows(facts, cached, layers, j) :: layers[j];
    other := TellApart(facts, layers[i], narrowing, f);
    OtherLayersSame(facts, other, cached, layers);
    var matched := LeftOver(other, cached, f);
    forall j | 0 <= j < |layers| ensures Passes(other, matched, layers, j, f) {
      if Narrows(other, cached, layers, j) { assert layers[j] in narrowing; }
      LeftOverPasses(other, cached, layers, j, f);
    }
    hide Narrows, Passes, TrueTargets, LeftOver;
    LimitedExact(other, matched, {f}, layers, f);
    QueryLimited(other, matched, {f}, layers);
    NarrowedExact(other, {f}, layers, f);
  }

  lemma OtherLayersSame<F>(facts: Facts<F>, other: Facts<F>, cached: set<TypeIdx>, layers: seq<TypeIdx>)
    requires other.prop == facts.prop
    ensures forall j | 0 <= j < |layers| :: Narrows(other, cached, layers, j) <==> Narrows(facts, cached, layers, j)
    ensures LooseCovered(other, cached, layers) <==> LooseCovered(facts, cached, layers)
  {
  }

  /** Exact for all stored functions, all signatures and all memo tables that cover them and have
      entries for `cached`. */
  ghost predicate AlwaysExact<F(!new)>(facts: Facts<F>, cached: set<TypeIdx>, layers: seq<TypeIdx>) {
    forall funcs: map<TypeIdx, set<F>>, matched: Memo<F>, fs: set<F>
      | Covering(facts.(funcs := funcs), matched) && matched.Keys == cached :: Exact(facts.(funcs := funcs), matched, fs, layers)
  }

  /** That is so if and only if every loose layer, other than a first one without an entry, covers
      a layer that narrows. */
  lemma ExactIffLooseCovered<F(!new)>(facts: Facts<F>, cached: set<TypeIdx>, layers: seq<TypeIdx>, f: F)
    ensures AlwaysExact(facts, cached, layers) <==> LooseCovered(facts, cached, layers)
  {
    if LooseCovered(facts, cached, layers) {
      forall funcs: map<TypeIdx, set<F>>, matched: Memo<F>, fs: set<F>
        | Covering(facts.(funcs := funcs), matched) && matched.Keys == cached
        ensures Exact(facts.(funcs := funcs), matched, fs, layers)
      {
        OtherLayersSame(facts, facts.(funcs := funcs), cached, layers);
        CoveredExact(facts.(funcs := funcs), matched, fs, layers);
      }
    } else {
      var i :| 0 <= i < |layers| && !Narrows(facts, cached, layers, i) &&
               forall j | 0 <= j < |layers| && Narrows(facts, cached, layers, j) :: !Covers(facts.prop, layers[i], layers[j]);
      var other := UncoveredNotExact(facts, cached, layers, i, f);
      LeftOverCovering(other, cached, f);
      assert !Exact(facts.(funcs := other.funcs), LeftOver(other, cached, f), {f}, layers);
    }
  }

  /** Not every layer for all fields is harmful: a repeated one narrows by its first occurrence. */
  lemma RepeatedWildExact<F(!new)>(facts: Facts<F>, fs: set<F>, t: TypeIdx)
    requires t.idx == -1
    ensures Loose(facts, t) && Exact(facts, map[], fs, [t, t])
  {
    var empty: Memo<F> := map[];
    assert Narrows(facts, empty.Keys, [t, t], 0) && Covers(facts.prop, t, t);
    CoveredExact(facts, empty, fs, [t, t]);
  }
}
