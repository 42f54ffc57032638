/** The driver of the call graph: the initial load, and the update that reloads some files
    and scans them together with their recorded callers. */
module TypeDive {
  import opened MultiMap
  import opened Program
  import opened CallGraphState
  import opened CallGraphRuns
  import opened CallGraphPass
  import opened TypeDiveSteps
  import opened UpdateRefines

  datatype Load = Loaded(entry: Entry) | Unparsable(path: Path)

  function Parsed(vec: seq<Load>, n: nat): seq<Entry>
    requires n <= |vec|
  {
    if n == 0 then []
    else if vec[n - 1].Loaded? then Parsed(vec, n - 1) + [vec[n - 1].entry]
    else Parsed(vec, n - 1)
  }

  lemma {:induction false} ParsedPrefix(vec: seq<Load>, n: nat, m: nat)
    requires n <= m <= |vec|
    ensures Parsed(vec, n) <= Parsed(vec, m)
  {
    if n < m {
      ParsedPrefix(vec, n, m - 1);
    }
  }

  lemma {:induction false} BatchPrefix(a: seq<Entry>, b: seq<Entry>, n: nat)
    requires a <= b && n <= |a|
    ensures BatchUpTo(a, n) == BatchUpTo(b, n)
  {
    if n > 0 {
      BatchPrefix(a, b, n - 1);
    }
  }

  lemma LinkableInjective(loaded: map<Path, Module>)
    requires Linkable(loaded)
    ensures forall p, q {:trigger loaded[p], loaded[q]} | p in loaded && q in loaded :: loaded[p] == loaded[q] ==> p == q
  {
  }

  lemma EmptyRegistry(vec: seq<Load>)
    ensures Registry([], map[], map[]) && BatchOf([]) == map[] && Parsed(vec, 0) == []
  {
  }

  lemma ParsedSkip(vec: seq<Load>, n: nat)
    requires n < |vec| && !vec[n].Loaded?
    ensures Parsed(vec, n + 1) == Parsed(vec, n)
  {
  }

  lemma ParsedPosition(vec: seq<Load>, n: nat)
    requires n < |vec| && vec[n].Loaded?
    ensures var all, k := Parsed(vec, |vec|), |Parsed(vec, n)|;
            k < |all| && all[k] == vec[n].entry && Parsed(vec, n) == all[..k] && Parsed(vec, n + 1) == all[..k + 1]
  {
    ParsedPrefix(vec, n, |vec|);
    ParsedPrefix(vec, n + 1, |vec|);
  }

  lemma EntriesApart(all: seq<Entry>, i: nat, k: nat)
    requires DistinctPaths(all) && i < k < |all|
    requires forall p, q {:trigger BatchOf(all)[p], BatchOf(all)[q]} |
               p in BatchOf(all) && q in BatchOf(all) :: BatchOf(all)[p] == BatchOf(all)[q] ==> p == q
    ensures all[i].path != all[k].path && all[i].mod != all[k].mod
  {
    BatchExact(all, |all|);
    assert BatchOf(all)[all[i].path] == all[i].mod && BatchOf(all)[all[k].path] == all[k].mod;
  }

  /** A file about to be registered is registered neither by its path nor by its module. */
  lemma NextIsNew(all: seq<Entry>, k: nat)
    requires DistinctPaths(all) && k < |all|
    requires forall p, q {:trigger BatchOf(all)[p], BatchOf(all)[q]} |
               p in BatchOf(all) && q in BatchOf(all) :: BatchOf(all)[p] == BatchOf(all)[q] ==> p == q
    ensures all[k].path !in BatchOf(all[..k])
    ensures forall p | p in BatchOf(all[..k]) :: BatchOf(all[..k])[p] != all[k].mod
    ensures BatchOf(all[..k + 1]) == BatchOf(all[..k])[all[k].path := all[k].mod]
  {
    var here := all[..k];
    BatchExact(here, k);
    BatchPrefix(here, all[..k + 1], k);
    forall p | p in BatchOf(here) ensures p != all[k].path && BatchOf(here)[p] != all[k].mod {
      var i :| 0 <= i < k && here[i].path == p;
      EntriesApart(all, i, k);
    }
  }

  /** On an empty context there is nothing to tear down. */
  lemma FirstLoadPrepared(vec: seq<Entry>)
    requires DistinctPaths(vec) && Linkable(BatchOf(vec))
    ensures EMPTY.loaded + BatchOf(vec) == BatchOf(vec)
    ensures Prepared(EMPTY, vec, vec, map[], Links(map[], map[], map[]), map[], map[])
  {
    var batch := BatchOf(vec);
    BatchExact(vec, |vec|);
    assert EMPTY.loaded + batch == batch;
    assert Touched(EMPTY, batch) == batch.Keys;
    forall f ensures f !in TornUpTo(map[], vec, |vec|) { TornExact(map[], vec, |vec|, f); }
    forall k ensures k !in ErasedUpTo(map[], vec, |vec|) { ErasedExact(map[], vec, |vec|, k); }
  }

  lemma CollectingStarts(s: State, vec: seq<Entry>)
    requires DistinctPaths(vec)
    ensures BatchOf(vec).Keys == PathsUpTo(vec, |vec|)
    ensures forall i | 0 <= i < |vec| :: vec[i].path in BatchOf(vec) && BatchOf(vec)[vec[i].path] == vec[i].mod
    ensures Collecting(s, vec, 0, [], {}) && Dropped(s, vec, 0, s.callerPaths)
  {
    BatchExact(vec, |vec|);
    assert PathsUpTo(vec, 0) == {};
  }

  lemma CollectingEnds(s: State, vec: seq<Entry>, mlist: seq<Entry>, aff: set<Path>)
    requires DistinctPaths(vec) && Collecting(s, vec, |vec|, mlist, aff)
    ensures aff == Affected(s, BatchOf(vec))
    ensures Covers(mlist, s.loaded + BatchOf(vec), BatchOf(vec).Keys + aff) && DistinctPaths(mlist)
  {
    AffectedIsAll(s, vec);
    BatchExact(vec, |vec|);
    hide AffectedUpTo, Affected;
  }

  class TypeDive {
    const GlobalCtx: GlobalContext
    const CGPass: CallGraphPass

    constructor (ctx: GlobalContext)
      ensures GlobalCtx == ctx && CGPass.Ctx == ctx
    {
      GlobalCtx := ctx;
      CGPass := new CallGraphPass(ctx);
    }

    /** The lambda `AddAff`: note an affected file, unless it is being reloaded or noted already. */
    method AddAff(path: Path, batched: set<Path>, mlist: seq<Entry>, aff: set<Path>, ghost loaded: map<Path, Module>, ghost done: set<Path>)
      returns (mlist': seq<Entry>, aff': set<Path>)
      requires done <= batched && aff !! batched && Covers(mlist, loaded, done + aff)
      requires path in GlobalCtx.ModuleRevMaps
      requires path !in batched ==> path in loaded && loaded[path] == GlobalCtx.ModuleRevMaps[path]
      ensures aff' == aff + ({path} - batched)
      ensures Covers(mlist', loaded, done + aff')
    {
      mlist', aff' := mlist, aff;
      if path in batched {
        return;
      }
      if path !in aff {
        CoversOneMore(mlist, loaded, done + aff, Entry(GlobalCtx.ModuleRevMaps[path], path));
        assert done + aff + {path} == done + (aff + {path});
        mlist' := mlist + [Entry(GlobalCtx.ModuleRevMaps[path], path)];
        aff' := aff + {path};
      }
    }

    /** `AddAff` for each path of `callers`. */
    method AddCallers(callers: set<Path>, batched: set<Path>, mlist: seq<Entry>, aff: set<Path>, ghost loaded: map<Path, Module>, ghost done: set<Path>)
      returns (mlist': seq<Entry>, aff': set<Path>)
      requires done <= batched && aff !! batched && Covers(mlist, loaded, done + aff)
      requires callers <= GlobalCtx.ModuleRevMaps.Keys
      requires forall p | p in callers && p !in batched :: p in loaded && loaded[p] == GlobalCtx.ModuleRevMaps[p]
      ensures aff' == aff + (callers - batched)
      ensures Covers(mlist', loaded, done + aff')
    {
      mlist', aff' := mlist, aff;
      var todo := callers;
      while todo != {}
        invariant todo <= callers
        invariant aff' == aff + (callers - todo - batched)
        invariant Covers(mlist', loaded, done + aff')
        decreases |todo|
      {
        var path :| path in todo;
        todo := todo - {path};
        mlist', aff' := AddAff(path, batched, mlist', aff', loaded, done);
      }
    }

    /** One round of the first loop of `UpdateModules`. */
    method CollectOne(vec: seq<Entry>, i: nat, mlist: seq<Entry>, aff: set<Path>, ghost s: State)
      returns (mlist': seq<Entry>, aff': set<Path>)
      requires DistinctPaths(vec) && i < |vec| && BatchOf(vec).Keys == PathsUpTo(vec, |vec|)
      requires BatchOf(vec)[vec[i].path] == vec[i].mod
      requires CallerPathsLoaded(s) && s.loaded == GlobalCtx.ModuleRevMaps
      requires Collecting(s, vec, i, mlist, aff) && Dropped(s, vec, i, GlobalCtx.CallerPaths)
      modifies GlobalCtx`CallerPaths
      ensures Collecting(s, vec, i + 1, mlist', aff') && Dropped(s, vec, i + 1, GlobalCtx.CallerPaths)
    {
      var path := vec[i].path;
      CollectingStep(s, vec, i, mlist, aff);
      CallersAtTurn(s, vec, i, GlobalCtx.CallerPaths);
      mlist', aff' := AddCallers(Get(GlobalCtx.CallerPaths, path), PathsUpTo(vec, |vec|), mlist + [vec[i]], aff,
                                 s.loaded + BatchOf(vec), PathsUpTo(vec, i + 1));
      ghost var before := GlobalCtx.CallerPaths;
      GlobalCtx.CallerPaths := GlobalCtx.CallerPaths - {path};
      GlobalCtx.CallerPaths := EraseFromAll(GlobalCtx.CallerPaths, path);
      DroppedOneMore(s, vec, i, before, GlobalCtx.CallerPaths);
    }

    /** The first loop of `UpdateModules`: the list of modules to scan, with the recorded
        callers of each reloaded file, whose own records are dropped. */
    method CollectAffected(vec: seq<Entry>) returns (mlist: seq<Entry>, aff: set<Path>)
      requires DistinctPaths(vec)
      requires CallerPathsLoaded(GlobalCtx.Snapshot())
      modifies GlobalCtx`CallerPaths
      ensures aff == Affected(old(GlobalCtx.Snapshot()), BatchOf(vec))
      ensures Covers(mlist, GlobalCtx.ModuleRevMaps + BatchOf(vec), BatchOf(vec).Keys + aff) && DistinctPaths(mlist)
      ensures Dropped(old(GlobalCtx.Snapshot()), vec, |vec|, GlobalCtx.CallerPaths)
    {
      ghost var s := GlobalCtx.Snapshot();
      hide *;
      mlist, aff := [], {};
      CollectingStarts(s, vec);
      var i := 0;
      while i < |vec|
        invariant i <= |vec|
        invariant Collecting(s, vec, i, mlist, aff)
        invariant Dropped(s, vec, i, GlobalCtx.CallerPaths)
      {
        mlist, aff := CollectOne(vec, i, mlist, aff, s);
        i := i + 1;
      }
      CollectingEnds(s, vec, mlist, aff);
    }

    /** Remove the outgoing edges of a function, at both ends. */
    method TearDown(func: Func)
      modifies GlobalCtx`Callees, GlobalCtx`Callers
      ensures Removed({func}, old(GlobalCtx.Linked()), GlobalCtx.Linked())
    {
      var all := Get(GlobalCtx.Callees, func);
      var todo := all;
      while todo != {}
        invariant todo <= all
        invariant GlobalCtx.Callees == old(GlobalCtx.Callees)
        invariant forall f, g {:trigger f in Get(GlobalCtx.Callers, g)} ::
                    f in Get(GlobalCtx.Callers, g) <==> f in Get(old(GlobalCtx.Callers), g) && !(f == func && g in all - todo)
        decreases |todo|
      {
        var callee :| callee in todo;
        todo := todo - {callee};
        ghost var before := GlobalCtx.Callers;
        GlobalCtx.Callers := GlobalCtx.Callers[callee := Get(GlobalCtx.Callers, callee) - {func}];
        forall f, g
          ensures f in Get(GlobalCtx.Callers, g) <==> f in Get(old(GlobalCtx.Callers), g) && !(f == func && g in all - todo)
        {
          assert f in Get(before, g) <==> f in Get(old(GlobalCtx.Callers), g) && !(f == func && g in all - (todo + {callee}));
        }
      }
      GlobalCtx.Callees := GlobalCtx.Callees - {func};
    }

    /** The second loop of `UpdateModules`. */
    method InvalidateEdges(mlist: seq<Entry>)
      requires DistinctPaths(mlist)
      modifies GlobalCtx`Callees, GlobalCtx`Callers, GlobalCtx`BCFuncs
      ensures Removed(TornUpTo(old(GlobalCtx.BCFuncs), mlist, |mlist|), old(GlobalCtx.Linked()), GlobalCtx.Linked())
      ensures RowsCleared(old(GlobalCtx.BCFuncs), mlist, |mlist|, GlobalCtx.BCFuncs)
    {
      ghost var before := GlobalCtx.Linked();
      var i := 0;
      while i < |mlist|
        invariant i <= |mlist|
        invariant Removed(TornUpTo(old(GlobalCtx.BCFuncs), mlist, i), before, GlobalCtx.Linked())
        invariant RowsCleared(old(GlobalCtx.BCFuncs), mlist, i, GlobalCtx.BCFuncs)
      {
        var path := mlist[i].path;
        ghost var sofar := GlobalCtx.Linked();
        ClearedOneMore(old(GlobalCtx.BCFuncs), mlist, i, GlobalCtx.BCFuncs);
        TearDownRow(Row(GlobalCtx.BCFuncs, path));
        RemovedCompose(TornUpTo(old(GlobalCtx.BCFuncs), mlist, i), Row(GlobalCtx.BCFuncs, path).Values,
                       before, sofar, GlobalCtx.Linked());
        GlobalCtx.BCFuncs := GlobalCtx.BCFuncs - {path};
        i := i + 1;
      }
    }

    method TearDownRow(row: map<string, Func>)
      modifies GlobalCtx`Callees, GlobalCtx`Callers
      ensures Removed(row.Values, old(GlobalCtx.Linked()), GlobalCtx.Linked())
    {
      ghost var gone: set<Func> := {};
      var todo := row.Keys;
      while todo != {}
        invariant todo <= row.Keys
        invariant gone <= row.Values && forall n | n in row.Keys - todo :: row[n] in gone
        invariant Removed(gone, old(GlobalCtx.Linked()), GlobalCtx.Linked())
        decreases |todo|
      {
        var name :| name in todo;
        todo := todo - {name};
        ghost var sofar := GlobalCtx.Linked();
        TearDown(row[name]);
        RemovedCompose(gone, {row[name]}, old(GlobalCtx.Linked()), sofar, GlobalCtx.Linked());
        gone := gone + {row[name]};
      }
      assert gone == row.Values;
    }

    method EraseGuids(m: Module)
      modifies GlobalCtx`GlobalFuncMap
      ensures GlobalCtx.GlobalFuncMap == old(GlobalCtx.GlobalFuncMap) - DefinedGuids(m, |m.funcs|)
    {
      assert DefinedGuids(m, 0) == {};
      var i := 0;
      while i < |m.funcs|
        invariant i <= |m.funcs|
        invariant GlobalCtx.GlobalFuncMap == old(GlobalCtx.GlobalFuncMap) - DefinedGuids(m, i)
      {
        if !m.funcs[i].declaration {
          GlobalCtx.GlobalFuncMap := GlobalCtx.GlobalFuncMap - {m.funcs[i].guid};
          assert DefinedGuids(m, i + 1) == DefinedGuids(m, i) + {m.funcs[i].guid};
        } else {
          assert DefinedGuids(m, i + 1) == DefinedGuids(m, i);
        }
        i := i + 1;
      }
    }

    /** Forget the definitions of the module loaded under `path`; unless that module is
        only to be scanned again, unload it. */
    method InvalidateOld(path: Path, isAff: bool)
      requires Registry(GlobalCtx.Modules, GlobalCtx.ModuleMaps, GlobalCtx.ModuleRevMaps)
      modifies GlobalCtx`Modules, GlobalCtx`ModuleMaps, GlobalCtx`ModuleRevMaps, GlobalCtx`GlobalFuncMap
      ensures Registry(GlobalCtx.Modules, GlobalCtx.ModuleMaps, GlobalCtx.ModuleRevMaps)
      ensures GlobalCtx.ModuleRevMaps == if isAff then old(GlobalCtx.ModuleRevMaps) else old(GlobalCtx.ModuleRevMaps) - {path}
      ensures GlobalCtx.GlobalFuncMap == old(GlobalCtx.GlobalFuncMap) - GuidsAt(old(GlobalCtx.ModuleRevMaps), path)
    {
      ghost var loaded, globals := GlobalCtx.ModuleRevMaps, GlobalCtx.GlobalFuncMap;
      var modules := GlobalCtx.Modules;
      var k := 0;
      while k < |modules| && modules[k].path != path
        invariant k <= |modules|
        invariant forall j | 0 <= j < k :: modules[j].path != path
      {
        k := k + 1;
      }
      if k == |modules| {
        assert path !in loaded;
        assert GlobalCtx.ModuleRevMaps - {path} == GlobalCtx.ModuleRevMaps;
        assert globals - {} == globals;
        return;
      }
      EraseGuids(modules[k].mod);
      if !isAff {
        GlobalCtx.Modules := modules[..k] + modules[k + 1..];
        var named := set m | m in GlobalCtx.ModuleMaps && GlobalCtx.ModuleMaps[m] == path;
        GlobalCtx.ModuleMaps := GlobalCtx.ModuleMaps - named;
        GlobalCtx.ModuleRevMaps := GlobalCtx.ModuleRevMaps - {path};
        UnregisterOne(modules, old(GlobalCtx.ModuleMaps), loaded, k);
      }
    }

    /** One round of the third loop of `UpdateModules`. */
    method ReplaceOne(e: Entry, isAff: bool)
      requires Registry(GlobalCtx.Modules, GlobalCtx.ModuleMaps, GlobalCtx.ModuleRevMaps)
      requires isAff ==> e.path in GlobalCtx.ModuleRevMaps
      requires !isAff ==> forall p | p in GlobalCtx.ModuleRevMaps :: GlobalCtx.ModuleRevMaps[p] != e.mod
      modifies GlobalCtx`Modules, GlobalCtx`ModuleMaps, GlobalCtx`ModuleRevMaps, GlobalCtx`GlobalFuncMap
      ensures Registry(GlobalCtx.Modules, GlobalCtx.ModuleMaps, GlobalCtx.ModuleRevMaps)
      ensures GlobalCtx.ModuleRevMaps ==
              if isAff then old(GlobalCtx.ModuleRevMaps) else old(GlobalCtx.ModuleRevMaps)[e.path := e.mod]
      ensures GlobalCtx.GlobalFuncMap == old(GlobalCtx.GlobalFuncMap) - GuidsAt(old(GlobalCtx.ModuleRevMaps), e.path)
    {
      hide Registry, GuidsAt;
      InvalidateOld(e.path, isAff);
      if !isAff {
        RegisterOne(GlobalCtx.Modules, GlobalCtx.ModuleMaps, GlobalCtx.ModuleRevMaps, e);
        GlobalCtx.Modules := GlobalCtx.Modules + [e];
        GlobalCtx.ModuleMaps := GlobalCtx.ModuleMaps[e.mod := e.path];
        GlobalCtx.ModuleRevMaps := GlobalCtx.ModuleRevMaps[e.path := e.mod];
        assert GlobalCtx.ModuleRevMaps == old(GlobalCtx.ModuleRevMaps)[e.path := e.mod];
      }
    }

    /** The third loop of `UpdateModules`. */
    method InvalidateModules(mlist: seq<Entry>, aff: set<Path>, ghost s: State, ghost batch: Batch)
      requires Registry(GlobalCtx.Modules, GlobalCtx.ModuleMaps, GlobalCtx.ModuleRevMaps)
      requires s.loaded == GlobalCtx.ModuleRevMaps && s.globals == GlobalCtx.GlobalFuncMap
      requires Loadable(s, batch) && aff !! batch.Keys
      requires Covers(mlist, s.loaded + batch, batch.Keys + aff)
      modifies GlobalCtx`Modules, GlobalCtx`ModuleMaps, GlobalCtx`ModuleRevMaps, GlobalCtx`GlobalFuncMap
      ensures Registry(GlobalCtx.Modules, GlobalCtx.ModuleMaps, GlobalCtx.ModuleRevMaps)
      ensures GlobalCtx.ModuleRevMaps == s.loaded + batch
      ensures GlobalCtx.GlobalFuncMap == s.globals - ErasedUpTo(s.loaded, mlist, |mlist|)
    {
      ghost var final := s.loaded + batch;
      ReplacedAll(s.loaded, batch);
      assert PathsUpTo(mlist, 0) - aff == {};
      hide Registry, Loadable, ErasedUpTo;
      var i := 0;
      while i < |mlist|
        invariant i <= |mlist|
        invariant Registry(GlobalCtx.Modules, GlobalCtx.ModuleMaps, GlobalCtx.ModuleRevMaps)
        invariant GlobalCtx.ModuleRevMaps == Replaced(s.loaded, final, PathsUpTo(mlist, i) - aff)
        invariant GlobalCtx.GlobalFuncMap == s.globals - ErasedUpTo(s.loaded, mlist, i)
      {
        var isAff := mlist[i].path in aff;
        ghost var done := PathsUpTo(mlist, i) - aff;
        if !isAff { FreshAtTurn(s, batch, done, mlist[i]); }
        ghost var now, globals := GlobalCtx.ModuleRevMaps, GlobalCtx.GlobalFuncMap;
        assert isAff ==> mlist[i].path in now;
        ReplaceOne(mlist[i], isAff);
        ReplacedStep(s.loaded, final, batch.Keys + aff, mlist, aff, i, now, GlobalCtx.ModuleRevMaps);
        ErasedStep(s, mlist, i, globals, GlobalCtx.GlobalFuncMap);
        i := i + 1;
      }
      AllReplaced(mlist, final, batch.Keys, aff);
    }

    ghost predicate Valid()
      reads GlobalCtx
    {
      && CGPass.Ctx == GlobalCtx
      && Registry(GlobalCtx.Modules, GlobalCtx.ModuleMaps, GlobalCtx.ModuleRevMaps)
      && Inv(GlobalCtx.Snapshot())
    }

    /** The initial load. A file that does not parse is skipped, whether or not the caller
        asked for strictness. */
    method Initialize(vec: seq<Load>)
      requires CGPass.Ctx == GlobalCtx && GlobalCtx.Snapshot() == EMPTY
      requires GlobalCtx.Modules == [] && GlobalCtx.ModuleMaps == map[]
      requires DistinctPaths(Parsed(vec, |vec|)) && Linkable(BatchOf(Parsed(vec, |vec|)))
      modifies GlobalCtx
      ensures Valid()
      ensures Next(EMPTY, BatchOf(Parsed(vec, |vec|)), GlobalCtx.Snapshot())
    {
      hide Inv, Next, Loadable, Prepared, Added, FinalizedOn, RowsAdded, NamesOf, PathOf, Touched, Linkable, DistinctPaths;
      hide Registry, Parsed, BatchOf;
      ghost var batch := BatchOf(Parsed(vec, |vec|));
      LoadAll(vec);
      FirstLoadPrepared(Parsed(vec, |vec|));
      EmptyInv();
      ScanReady(EMPTY, Parsed(vec, |vec|), GlobalCtx.Modules, GlobalCtx.Modules, GlobalCtx.ModuleMaps,
                map[], Links(map[], map[], map[]), map[], map[]);
      ghost var added := CGPass.Run(GlobalCtx.Modules);
      GlobalCtx.Seen := map p | p in GlobalCtx.ModuleRevMaps :: GlobalCtx.GlobalFuncMap;
      UpdateIsNext(EMPTY, Parsed(vec, |vec|), GlobalCtx.Modules, GlobalCtx.ModuleMaps,
                   map[], Links(map[], map[], map[]), map[], map[], added, GlobalCtx.Snapshot());
      UpdateKeepsInv(EMPTY, batch, GlobalCtx.Snapshot());
    }

    method LoadOne(vec: seq<Load>, i: nat)
      requires i < |vec| && GlobalCtx.Modules == Parsed(vec, i) && GlobalCtx.ModuleRevMaps == BatchOf(Parsed(vec, i))
      requires DistinctPaths(Parsed(vec, |vec|)) && Linkable(BatchOf(Parsed(vec, |vec|)))
      requires Registry(GlobalCtx.Modules, GlobalCtx.ModuleMaps, GlobalCtx.ModuleRevMaps)
      modifies GlobalCtx`Modules, GlobalCtx`ModuleMaps, GlobalCtx`ModuleRevMaps
      ensures GlobalCtx.Modules == Parsed(vec, i + 1)
      ensures GlobalCtx.ModuleRevMaps == BatchOf(Parsed(vec, i + 1))
      ensures Registry(GlobalCtx.Modules, GlobalCtx.ModuleMaps, GlobalCtx.ModuleRevMaps)
    {
      hide *;
      if vec[i].Loaded? {
        LinkableInjective(BatchOf(Parsed(vec, |vec|)));
        ParsedPosition(vec, i);
        NextIsNew(Parsed(vec, |vec|), |Parsed(vec, i)|);
        Register(vec[i].entry);
      } else {
        ParsedSkip(vec, i);
      }
    }

    method LoadAll(vec: seq<Load>)
      requires GlobalCtx.Modules == [] && GlobalCtx.ModuleMaps == map[] && GlobalCtx.ModuleRevMaps == map[]
      requires DistinctPaths(Parsed(vec, |vec|)) && Linkable(BatchOf(Parsed(vec, |vec|)))
      modifies GlobalCtx`Modules, GlobalCtx`ModuleMaps, GlobalCtx`ModuleRevMaps
      ensures GlobalCtx.Modules == Parsed(vec, |vec|)
      ensures GlobalCtx.ModuleRevMaps == BatchOf(Parsed(vec, |vec|))
      ensures Registry(GlobalCtx.Modules, GlobalCtx.ModuleMaps, GlobalCtx.ModuleRevMaps)
    {
      hide *;
      EmptyRegistry(vec);
      var i := 0;
      while i < |vec|
        invariant i <= |vec|
        invariant GlobalCtx.Modules == Parsed(vec, i)
        invariant GlobalCtx.ModuleRevMaps == BatchOf(Parsed(vec, i))
        invariant Registry(GlobalCtx.Modules, GlobalCtx.ModuleMaps, GlobalCtx.ModuleRevMaps)
      {
        LoadOne(vec, i);
        i := i + 1;
      }
    }

    method Register(e: Entry)
      requires Registry(GlobalCtx.Modules, GlobalCtx.ModuleMaps, GlobalCtx.ModuleRevMaps)
      requires e.path !in GlobalCtx.ModuleRevMaps && forall p | p in GlobalCtx.ModuleRevMaps :: GlobalCtx.ModuleRevMaps[p] != e.mod
      modifies GlobalCtx`Modules, GlobalCtx`ModuleMaps, GlobalCtx`ModuleRevMaps
      ensures GlobalCtx.Modules == old(GlobalCtx.Modules) + [e]
      ensures GlobalCtx.ModuleRevMaps == old(GlobalCtx.ModuleRevMaps)[e.path := e.mod]
      ensures Registry(GlobalCtx.Modules, GlobalCtx.ModuleMaps, GlobalCtx.ModuleRevMaps)
    {
      RegisterOne(GlobalCtx.Modules, GlobalCtx.ModuleMaps, GlobalCtx.ModuleRevMaps, e);
      hide Registry;
      GlobalCtx.Modules := GlobalCtx.Modules + [e];
      GlobalCtx.ModuleMaps := GlobalCtx.ModuleMaps[e.mod := e.path];
      GlobalCtx.ModuleRevMaps := GlobalCtx.ModuleRevMaps[e.path := e.mod];
    }

    /** The three loops of `UpdateModules`. */
    method Prepare(vec: seq<Entry>)
      returns (mlist: seq<Entry>, ghost paths: map<Path, set<Path>>, ghost torn: Links, ghost cleared: map<Path, map<string, Func>>)
      requires Valid() && DistinctPaths(vec)
      requires Loadable(GlobalCtx.Snapshot(), BatchOf(vec))
      modifies GlobalCtx
      ensures Prepared(old(GlobalCtx.Snapshot()), vec, mlist, paths, torn, cleared, GlobalCtx.GlobalFuncMap)
      ensures GlobalCtx.Linked() == torn && GlobalCtx.BCFuncs == cleared && GlobalCtx.Seen == old(GlobalCtx.Seen)
      ensures GlobalCtx.ModuleRevMaps == old(GlobalCtx.ModuleRevMaps) + BatchOf(vec)
      ensures Registry(GlobalCtx.Modules, GlobalCtx.ModuleMaps, GlobalCtx.ModuleRevMaps)
    {
      hide Linkable, IsGlobals, RowsExact, CalleesExact, SeenCurrent, CallersInverse, CallerPathsLoaded, CallerPathsCover;
      hide Covers, Dropped, Removed, RowsCleared, Registry, Loadable, ErasedUpTo, TornUpTo, BatchUpTo;
      ghost var s := GlobalCtx.Snapshot();
      var aff;
      mlist, aff := CollectAffected(vec);
      paths := GlobalCtx.CallerPaths;
      InvalidateEdges(mlist);
      torn, cleared := GlobalCtx.Linked(), GlobalCtx.BCFuncs;
      InvalidateModules(mlist, aff, s, BatchOf(vec));
    }

    method UpdateModules(vec: seq<Entry>)
      requires Valid() && DistinctPaths(vec)
      requires Loadable(GlobalCtx.Snapshot(), BatchOf(vec))
      modifies GlobalCtx
      ensures Valid()
      ensures Next(old(GlobalCtx.Snapshot()), BatchOf(vec), GlobalCtx.Snapshot())
    {
      hide Inv, Next, Loadable, Registry, Prepared, Added, FinalizedOn, RowsAdded, NamesOf, PathOf, Touched;
      ghost var s := GlobalCtx.Snapshot();
      var mlist, paths, torn, cleared := Prepare(vec);
      ghost var globals := GlobalCtx.GlobalFuncMap;
      ScanReady(s, vec, mlist, GlobalCtx.Modules, GlobalCtx.ModuleMaps, paths, torn, cleared, globals);
      ghost var added := CGPass.Run(mlist);
      GlobalCtx.Seen := map p | p in GlobalCtx.ModuleRevMaps ::
          if p in Touched(s, BatchOf(vec)) || p !in s.seen then GlobalCtx.GlobalFuncMap else s.seen[p];
      UpdateIsNext(s, vec, mlist, GlobalCtx.ModuleMaps, paths, torn, cleared, globals, added, GlobalCtx.Snapshot());
      UpdateKeepsInv(s, BatchOf(vec), GlobalCtx.Snapshot());
    }
  }
}
