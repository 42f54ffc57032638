/** What the loops of an update have done after each round. */
module TypeDiveSteps {
  import opened MultiMap
  import opened Program
  import opened CallGraphState
  import opened CallGraphRuns
  import opened CallGraphPass

  // ---- The list of files to reload ----

  function PathsUpTo(vec: seq<Entry>, n: nat): set<Path>
    requires n <= |vec|
  {
    set i | 0 <= i < n :: vec[i].path
  }

  predicate DistinctPaths(vec: seq<Entry>) {
    forall i, j | 0 <= i < j < |vec| :: vec[i].path != vec[j].path
  }

  function BatchUpTo(vec: seq<Entry>, n: nat): Batch
    requires n <= |vec|
  {
    if n == 0 then map[] else BatchUpTo(vec, n - 1)[vec[n - 1].path := vec[n - 1].mod]
  }

  function BatchOf(vec: seq<Entry>): Batch {
    BatchUpTo(vec, |vec|)
  }

  lemma {:induction false} BatchExact(vec: seq<Entry>, n: nat)
    requires n <= |vec| && DistinctPaths(vec)
    ensures BatchUpTo(vec, n).Keys == PathsUpTo(vec, n)
    ensures forall i | 0 <= i < n :: BatchUpTo(vec, n)[vec[i].path] == vec[i].mod
  {
    if n > 0 {
      BatchExact(vec, n - 1);
    }
  }

  /** The callers recorded for the first `n` files of the list. */
  ghost function AffectedUpTo(s: State, vec: seq<Entry>, n: nat): set<Path>
    requires n <= |vec|
  {
    if n == 0 then {} else AffectedUpTo(s, vec, n - 1) + (Get(s.callerPaths, vec[n - 1].path) - BatchOf(vec).Keys)
  }

  /** The caller record without the first `n` files of the list. */
  ghost predicate Dropped(s: State, vec: seq<Entry>, n: nat, paths: map<Path, set<Path>>)
    requires n <= |vec|
  {
    forall p, q {:trigger q in Get(paths, p)} ::
      q in Get(paths, p) <==> q in Get(s.callerPaths, p) && p !in PathsUpTo(vec, n) && q !in PathsUpTo(vec, n)
  }

  lemma DroppedOneMore(s: State, vec: seq<Entry>, n: nat, before: map<Path, set<Path>>, after: map<Path, set<Path>>)
    requires n < |vec| && Dropped(s, vec, n, before)
    requires forall p :: Get(after, p) == Get(before - {vec[n].path}, p) - {vec[n].path}
    ensures Dropped(s, vec, n + 1, after)
  {
    assert PathsUpTo(vec, n + 1) == PathsUpTo(vec, n) + {vec[n].path};
    forall p, q
      ensures q in Get(after, p) <==>
              q in Get(s.callerPaths, p) && p !in PathsUpTo(vec, n + 1) && q !in PathsUpTo(vec, n + 1)
    {
      assert q in Get(before, p) <==> q in Get(s.callerPaths, p) && p !in PathsUpTo(vec, n) && q !in PathsUpTo(vec, n);
    }
  }

  lemma {:induction false} AffectedAll(s: State, vec: seq<Entry>, n: nat, q: Path)
    requires n <= |vec|
    ensures q in AffectedUpTo(s, vec, n) <==>
            q !in BatchOf(vec) && exists i :: 0 <= i < n && q in Get(s.callerPaths, vec[i].path)
  {
    if n > 0 {
      AffectedAll(s, vec, n - 1, q);
    }
  }

  lemma AffectedIsAll(s: State, vec: seq<Entry>)
    requires DistinctPaths(vec)
    ensures AffectedUpTo(s, vec, |vec|) == Affected(s, BatchOf(vec))
  {
    BatchExact(vec, |vec|);
    forall q ensures q in AffectedUpTo(s, vec, |vec|) <==> q in Affected(s, BatchOf(vec)) {
      AffectedAll(s, vec, |vec|, q);
    }
  }

  // ---- The list of modules to scan ----

  /** `mlist` has one entry for each path of `done`, with the module it will be loaded as. */
  ghost predicate Covers(mlist: seq<Entry>, loaded: map<Path, Module>, done: set<Path>) {
    && DistinctPaths(mlist)
    && done <= loaded.Keys
    && (forall k | 0 <= k < |mlist| :: mlist[k].path in done && mlist[k].path in loaded && mlist[k].mod == loaded[mlist[k].path])
    && (forall p | p in done :: exists k :: 0 <= k < |mlist| && mlist[k].path == p)
  }

  lemma CoversOneMore(mlist: seq<Entry>, loaded: map<Path, Module>, done: set<Path>, e: Entry)
    requires Covers(mlist, loaded, done) && e.path !in done && e.path in loaded && e.mod == loaded[e.path]
    ensures Covers(mlist + [e], loaded, done + {e.path})
  {
    var longer := mlist + [e];
    forall p | p in done + {e.path} ensures exists k :: 0 <= k < |longer| && longer[k].path == p {
      if p == e.path {
        assert longer[|mlist|].path == p;
      } else {
        var k :| 0 <= k < |mlist| && mlist[k].path == p;
        assert longer[k].path == p;
      }
    }
  }

  /** The state of the first loop of `UpdateModules` after `n` files. */
  ghost predicate Collecting(s: State, vec: seq<Entry>, n: nat, mlist: seq<Entry>, aff: set<Path>)
    requires n <= |vec|
  {
    && aff == AffectedUpTo(s, vec, n)
    && aff !! BatchOf(vec).Keys
    && Covers(mlist, s.loaded + BatchOf(vec), PathsUpTo(vec, n) + aff)
  }

  lemma CollectingStep(s: State, vec: seq<Entry>, n: nat, mlist: seq<Entry>, aff: set<Path>)
    requires DistinctPaths(vec) && n < |vec| && BatchOf(vec).Keys == PathsUpTo(vec, |vec|)
    requires BatchOf(vec)[vec[n].path] == vec[n].mod
    requires Collecting(s, vec, n, mlist, aff)
    ensures Covers(mlist + [vec[n]], s.loaded + BatchOf(vec), PathsUpTo(vec, n + 1) + aff)
    ensures PathsUpTo(vec, n + 1) <= PathsUpTo(vec, |vec|)
  {
    assert vec[n].path in PathsUpTo(vec, |vec|);
    CoversOneMore(mlist, s.loaded + BatchOf(vec), PathsUpTo(vec, n) + aff, vec[n]);
    assert PathsUpTo(vec, n) + aff + {vec[n].path} == PathsUpTo(vec, n + 1) + aff;
  }

  /** When the turn of a file comes, only files of the list are missing from its record. */
  lemma CallersAtTurn(s: State, vec: seq<Entry>, n: nat, paths: map<Path, set<Path>>)
    requires DistinctPaths(vec) && n < |vec| && BatchOf(vec).Keys == PathsUpTo(vec, |vec|)
    requires CallerPathsLoaded(s) && Dropped(s, vec, n, paths)
    ensures Get(paths, vec[n].path) - BatchOf(vec).Keys == Get(s.callerPaths, vec[n].path) - BatchOf(vec).Keys
    ensures Get(paths, vec[n].path) <= s.loaded.Keys
  {
    var p := vec[n].path;
    forall q ensures q in Get(paths, p) ==> q in Get(s.callerPaths, p) && q in s.loaded {
    }
    forall q | q in Get(s.callerPaths, p) && q !in BatchOf(vec) ensures q in Get(paths, p) {
      assert q !in PathsUpTo(vec, n);
    }
  }

  // ---- Teardown of edges ----

  ghost predicate RemovedCallees(gone: set<Func>, a: Links, b: Links) {
    forall h {:trigger Get(b.callees, h)} :: Get(b.callees, h) == if h in gone then {} else Get(a.callees, h)
  }

  ghost predicate RemovedCallers(gone: set<Func>, a: Links, b: Links) {
    forall f, g {:trigger f in Get(b.callers, g)} ::
      f in Get(b.callers, g) <==> f in Get(a.callers, g) && !(f in gone && g in Get(a.callees, f))
  }

  ghost predicate Removed(gone: set<Func>, a: Links, b: Links) {
    RemovedCallees(gone, a, b) && RemovedCallers(gone, a, b) && b.paths == a.paths
  }

  lemma RemovedCompose(s: set<Func>, t: set<Func>, a: Links, b: Links, c: Links)
    requires Removed(s, a, b) && Removed(t, b, c)
    ensures Removed(s + t, a, c)
  {
    forall h ensures Get(c.callees, h) == if h in s + t then {} else Get(a.callees, h) {
      assert Get(b.callees, h) == if h in s then {} else Get(a.callees, h);
    }
    forall f, g
      ensures f in Get(c.callers, g) <==> f in Get(a.callers, g) && !(f in s + t && g in Get(a.callees, f))
    {
      assert f in Get(b.callers, g) <==> f in Get(a.callers, g) && !(f in s && g in Get(a.callees, f));
      assert Get(b.callees, f) == if f in s then {} else Get(a.callees, f);
    }
  }

  function TornUpTo(rows: map<Path, map<string, Func>>, mlist: seq<Entry>, n: nat): set<Func>
    requires n <= |mlist|
  {
    if n == 0 then {} else TornUpTo(rows, mlist, n - 1) + Row(rows, mlist[n - 1].path).Values
  }

  lemma {:induction false} TornExact(rows: map<Path, map<string, Func>>, mlist: seq<Entry>, n: nat, f: Func)
    requires n <= |mlist|
    ensures f in TornUpTo(rows, mlist, n) <==> exists k :: 0 <= k < n && f in Row(rows, mlist[k].path).Values
  {
    if n > 0 {
      TornExact(rows, mlist, n - 1, f);
    }
  }

  ghost predicate RowsCleared(rows: map<Path, map<string, Func>>, mlist: seq<Entry>, n: nat, now: map<Path, map<string, Func>>)
    requires n <= |mlist|
  {
    forall p {:trigger Row(now, p)} :: Row(now, p) == if p in PathsUpTo(mlist, n) then map[] else Row(rows, p)
  }

  lemma ClearedOneMore(rows: map<Path, map<string, Func>>, mlist: seq<Entry>, n: nat, now: map<Path, map<string, Func>>)
    requires n < |mlist| && DistinctPaths(mlist) && RowsCleared(rows, mlist, n, now)
    ensures Row(now, mlist[n].path) == Row(rows, mlist[n].path)
    ensures RowsCleared(rows, mlist, n + 1, now - {mlist[n].path})
  {
    var path := mlist[n].path;
    assert PathsUpTo(mlist, n + 1) == PathsUpTo(mlist, n) + {path};
    forall p ensures Row(now - {path}, p) == if p in PathsUpTo(mlist, n + 1) then map[] else Row(rows, p) {
      assert Row(now - {path}, p) == if p == path then map[] else Row(now, p);
    }
  }

  // ---- Replacement of modules ----

  /** The module list and the two module maps tell the same story. */
  ghost predicate Registry(modules: seq<Entry>, names: map<Module, Path>, revs: map<Path, Module>) {
    DistinctPaths(modules) && Listed(modules, revs) && Named(names, revs)
  }

  ghost predicate Listed(modules: seq<Entry>, revs: map<Path, Module>) {
    && (forall k | 0 <= k < |modules| :: modules[k].path in revs && revs[modules[k].path] == modules[k].mod)
    && (forall p | p in revs :: exists k :: 0 <= k < |modules| && modules[k].path == p)
  }

  ghost predicate Named(names: map<Module, Path>, revs: map<Path, Module>) {
    && (forall m | m in names :: names[m] in revs && revs[names[m]] == m)
    && (forall p | p in revs :: revs[p] in names && names[revs[p]] == p)
  }

  lemma UnnameOne(names: map<Module, Path>, revs: map<Path, Module>, gone: Path)
    requires Named(names, revs)
    ensures Named(names - (set m | m in names && names[m] == gone), revs - {gone})
  {
  }

  lemma ListedByMember(modules: seq<Entry>, revs: map<Path, Module>)
    ensures Listed(modules, revs) <==>
            && (forall e | e in modules :: e.path in revs && revs[e.path] == e.mod)
            && (forall p | p in revs :: exists e :: e in modules && e.path == p)
  {
    if forall p | p in revs :: exists e :: e in modules && e.path == p {
      forall p | p in revs ensures exists k :: 0 <= k < |modules| && modules[k].path == p {
        var e :| e in modules && e.path == p;
      }
    }
  }

  lemma UnregisterOne(modules: seq<Entry>, names: map<Module, Path>, revs: map<Path, Module>, k: nat)
    requires Registry(modules, names, revs) && k < |modules|
    ensures Registry(modules[..k] + modules[k + 1..],
                     names - (set m | m in names && names[m] == modules[k].path), revs - {modules[k].path})
  {
    var rest := modules[..k] + modules[k + 1..];
    var gone := modules[k].path;
    WithoutOne(modules, k);
    UnnameOne(names, revs, gone);
    ListedByMember(modules, revs);
    forall p | p in revs - {gone} ensures exists e :: e in rest && e.path == p {
      var e :| e in modules && e.path == p;
      var j :| 0 <= j < |modules| && modules[j] == e;
      assert modules[j] in rest;
    }
    hide DistinctPaths, Named, Listed;
    ListedByMember(rest, revs - {gone});
  }

  lemma WithoutOne(modules: seq<Entry>, k: nat)
    requires DistinctPaths(modules) && k < |modules|
    ensures DistinctPaths(modules[..k] + modules[k + 1..])
    ensures forall j {:trigger modules[j]} | 0 <= j < |modules| && j != k :: modules[j] in modules[..k] + modules[k + 1..]
    ensures forall e | e in modules[..k] + modules[k + 1..] :: e in modules && e.path != modules[k].path
  {
    var rest := modules[..k] + modules[k + 1..];
    assert forall j {:trigger rest[j]} | 0 <= j < |rest| :: rest[j] == modules[if j < k then j else j + 1];
    forall j | 0 <= j < |modules| && j != k ensures modules[j] in rest {
      assert rest[if j < k then j else j - 1] == modules[j];
    }
    forall e | e in rest ensures e in modules && e.path != modules[k].path {
      var j :| 0 <= j < |rest| && rest[j] == e;
      assert e == modules[if j < k then j else j + 1];
    }
  }

  lemma NameOne(names: map<Module, Path>, revs: map<Path, Module>, e: Entry)
    requires Named(names, revs) && e.path !in revs && forall p | p in revs :: revs[p] != e.mod
    ensures Named(names[e.mod := e.path], revs[e.path := e.mod])
  {
    assert forall m | m in names :: m == revs[names[m]];
  }

  lemma RegisterOne(modules: seq<Entry>, names: map<Module, Path>, revs: map<Path, Module>, e: Entry)
    requires Registry(modules, names, revs) && e.path !in revs && forall p | p in revs :: revs[p] != e.mod
    ensures Registry(modules + [e], names[e.mod := e.path], revs[e.path := e.mod])
  {
    var longer := modules + [e];
    NameOne(names, revs, e);
    hide Named;
    forall p | p in revs || p == e.path ensures exists j :: 0 <= j < |longer| && longer[j].path == p {
      if p == e.path {
        assert longer[|modules|].path == p;
      } else {
        var j :| 0 <= j < |modules| && modules[j].path == p;
        assert longer[j].path == p;
      }
    }
  }

  function DefinedGuids(m: Module, n: nat): set<nat>
    requires n <= |m.funcs|
  {
    set i | 0 <= i < n && !m.funcs[i].declaration :: m.funcs[i].guid
  }

  /** The GUIDs defined by what is loaded under the first `n` listed paths. */
  function ErasedUpTo(loaded: map<Path, Module>, mlist: seq<Entry>, n: nat): set<nat>
    requires n <= |mlist|
  {
    if n == 0 then {}
    else ErasedUpTo(loaded, mlist, n - 1) + GuidsAt(loaded, mlist[n - 1].path)
  }

  /** The GUIDs defined by what is loaded under a path. */
  function GuidsAt(loaded: map<Path, Module>, p: Path): set<nat> {
    if p in loaded then DefinedGuids(loaded[p], |loaded[p].funcs|) else {}
  }

  lemma {:induction false} ErasedExact(loaded: map<Path, Module>, mlist: seq<Entry>, n: nat, k: nat)
    requires n <= |mlist|
    ensures k in ErasedUpTo(loaded, mlist, n) <==>
            exists i, f :: 0 <= i < n && InFile(loaded, mlist[i].path, f) && f.Guid() == k
  {
    if n > 0 {
      ErasedExact(loaded, mlist, n - 1, k);
      DefinedGuidsExact(loaded, mlist[n - 1].path, k);
    }
  }

  lemma DefinedGuidsExact(loaded: map<Path, Module>, p: Path, k: nat)
    ensures p in loaded ==>
              (k in DefinedGuids(loaded[p], |loaded[p].funcs|) <==> exists f :: InFile(loaded, p, f) && f.Guid() == k)
  {
    if p in loaded {
      var m := loaded[p];
      if k in DefinedGuids(m, |m.funcs|) {
        var j :| 0 <= j < |m.funcs| && !m.funcs[j].declaration && m.funcs[j].guid == k;
        assert InFile(loaded, p, Func(m, j));
      }
    }
  }

  /** The files of `done` are loaded as in `final`, the others as before. */
  ghost function Replaced(loaded: map<Path, Module>, final: map<Path, Module>, done: set<Path>): map<Path, Module> {
    map p | p in loaded.Keys + final.Keys && (p in loaded || p in done) :: if p in done && p in final then final[p] else loaded[p]
  }

  lemma ReplacedAll(loaded: map<Path, Module>, batch: Batch)
    ensures Replaced(loaded, loaded + batch, batch.Keys) == loaded + batch
    ensures Replaced(loaded, loaded + batch, {}) == loaded
  {
  }

  lemma ErasedStep(s: State, mlist: seq<Entry>, n: nat, now: map<nat, Func>, next: map<nat, Func>)
    requires n < |mlist| && now == s.globals - ErasedUpTo(s.loaded, mlist, n)
    requires next == now - GuidsAt(s.loaded, mlist[n].path)
    ensures next == s.globals - ErasedUpTo(s.loaded, mlist, n + 1)
  {
  }

  lemma ReplacedOneMore(loaded: map<Path, Module>, final: map<Path, Module>, done: set<Path>, p: Path)
    requires p in final && p !in done
    ensures Replaced(loaded, final, done + {p}) == Replaced(loaded, final, done)[p := final[p]]
    ensures GuidsAt(Replaced(loaded, final, done), p) == GuidsAt(loaded, p)
  {
  }

  /** What a round changes. */
  lemma ReplacedStep(loaded: map<Path, Module>, final: map<Path, Module>, touched: set<Path>,
                     mlist: seq<Entry>, aff: set<Path>, n: nat, now: map<Path, Module>, next: map<Path, Module>)
    requires n < |mlist| && Covers(mlist, final, touched)
    requires now == Replaced(loaded, final, PathsUpTo(mlist, n) - aff)
    requires next == if mlist[n].path in aff then now else now[mlist[n].path := mlist[n].mod]
    ensures next == Replaced(loaded, final, PathsUpTo(mlist, n + 1) - aff)
    ensures GuidsAt(now, mlist[n].path) == GuidsAt(loaded, mlist[n].path)
  {
    var p, done := mlist[n].path, PathsUpTo(mlist, n) - aff;
    assert p !in done;
    ReplacedOneMore(loaded, final, done, p);
    assert PathsUpTo(mlist, n + 1) - aff == if p in aff then done else done + {p};
  }

  lemma AllReplaced(mlist: seq<Entry>, final: map<Path, Module>, batched: set<Path>, aff: set<Path>)
    requires Covers(mlist, final, batched + aff) && aff !! batched
    ensures PathsUpTo(mlist, |mlist|) == batched + aff
    ensures PathsUpTo(mlist, |mlist|) - aff == batched
  {
    forall p | p in batched + aff ensures p in PathsUpTo(mlist, |mlist|) {
      var k :| 0 <= k < |mlist| && mlist[k].path == p;
    }
  }

  /** A module of the batch is not loaded before its turn. */
  lemma FreshAtTurn(s: State, batch: Batch, done: set<Path>, e: Entry)
    requires Loadable(s, batch) && e.path in batch && e.mod == batch[e.path] && e.path !in done
    ensures forall p | p in Replaced(s.loaded, s.loaded + batch, done) :: Replaced(s.loaded, s.loaded + batch, done)[p] != e.mod
  {
    var final := s.loaded + batch;
    forall p | p in Replaced(s.loaded, final, done) ensures Replaced(s.loaded, final, done)[p] != e.mod {
      assert final[e.path] == e.mod;
    }
  }
}
