/** The loops of an update, put together, make the step `Next`. */
module UpdateRefines {
  import opened MultiMap
  import opened Program
  import opened CallGraphState
  import opened CallGraphRuns
  import opened CallGraphPass
  import opened TypeDiveSteps

  /** `mlist` lists exactly the touched files, each with the module it ends up loaded as. */
  ghost predicate Planned(s: State, batch: Batch, mlist: seq<Entry>) {
    Loadable(s, batch) && Covers(mlist, s.loaded + batch, Touched(s, batch))
  }

  lemma ListedIsScanned(s: State, batch: Batch, mlist: seq<Entry>, f: Func)
    requires Planned(s, batch, mlist)
    ensures f in ScannedUpTo(mlist, |mlist|) <==> Scanned(s.loaded + batch, Touched(s, batch), f)
    ensures f in ListedUpTo(mlist, |mlist|) && f.Defined() ==> f in ScannedUpTo(mlist, |mlist|)
    ensures f in ScannedUpTo(mlist, |mlist|) ==> f in ListedUpTo(mlist, |mlist|)
  {
    var final := s.loaded + batch;
    ScannedExact(mlist, |mlist|, f);
    if f.Defined() && Lists(mlist, |mlist|, f.parent) {
      var k :| 0 <= k < |mlist| && mlist[k].mod == f.parent;
      assert InFile(final, mlist[k].path, f);
    }
    if Scanned(final, Touched(s, batch), f) {
      var p :| p in Touched(s, batch) && InFile(final, p, f);
      var k :| 0 <= k < |mlist| && mlist[k].path == p;
      assert mlist[k].mod == f.parent;
    }
  }

  lemma TornIsTorn(s: State, batch: Batch, mlist: seq<Entry>, f: Func)
    requires Planned(s, batch, mlist)
    ensures f in TornUpTo(s.bcFuncs, mlist, |mlist|) <==> Torn(s, batch, f)
  {
    TornExact(s.bcFuncs, mlist, |mlist|, f);
    if Torn(s, batch, f) {
      var p :| p in Touched(s, batch) && f in Row(s.bcFuncs, p).Values;
      var k :| 0 <= k < |mlist| && mlist[k].path == p;
    }
  }

  // ---- Exported definitions ----

  /** After the erasure and the scan, the table lists exactly the exported definitions. */
  lemma GlobalsExact(s: State, batch: Batch, mlist: seq<Entry>, globals: map<nat, Func>)
    requires Linkable(s.loaded) && IsGlobals(s.loaded, s.globals) && Planned(s, batch, mlist)
    requires globals == AllExports(s.globals - ErasedUpTo(s.loaded, mlist, |mlist|), mlist, |mlist|)
    ensures IsGlobals(s.loaded + batch, globals)
  {
    var final := s.loaded + batch;
    forall i | 0 <= i < |mlist| ensures WellFormed(mlist[i].mod) {
      assert final[mlist[i].path] == mlist[i].mod;
    }
    forall f | InProgram(final, f) && f.Exported() ensures f.Guid() in globals && globals[f.Guid()] == f {
      ExportedListed(s, batch, mlist, globals, f);
    }
    forall k | k in globals
      ensures InProgram(final, globals[k]) && globals[k].Exported() && globals[k].Guid() == k
    {
      ListedExported(s, batch, mlist, globals, k);
    }
  }

  lemma OfferedInProgram(s: State, batch: Batch, mlist: seq<Entry>, k: nat, f: Func)
    requires Planned(s, batch, mlist) && Offered(mlist, |mlist|, k, f)
    ensures InProgram(s.loaded + batch, f) && f.Exported() && f.Guid() == k
    ensures Scanned(s.loaded + batch, Touched(s, batch), f)
  {
    var i :| 0 <= i < |mlist| && mlist[i].mod == f.parent;
    assert InFile(s.loaded + batch, mlist[i].path, f);
  }

  lemma ExportedListed(s: State, batch: Batch, mlist: seq<Entry>, globals: map<nat, Func>, f: Func)
    requires Linkable(s.loaded) && IsGlobals(s.loaded, s.globals) && Planned(s, batch, mlist)
    requires forall i | 0 <= i < |mlist| :: WellFormed(mlist[i].mod)
    requires globals == AllExports(s.globals - ErasedUpTo(s.loaded, mlist, |mlist|), mlist, |mlist|)
    requires InProgram(s.loaded + batch, f) && f.Exported()
    ensures f.Guid() in globals && globals[f.Guid()] == f
  {
    var kept := s.globals - ErasedUpTo(s.loaded, mlist, |mlist|);
    var k := f.Guid();
    AllExportsExact(kept, mlist, |mlist|, k);
    var p :| InFile(s.loaded + batch, p, f);
    if p in Touched(s, batch) {
      var i :| 0 <= i < |mlist| && mlist[i].path == p;
      assert Offered(mlist, |mlist|, k, f);
      OfferedInProgram(s, batch, mlist, k, globals[k]);
    } else {
      assert InFile(s.loaded, p, f);
      assert InProgram(s.loaded, f);
      KeptGuid(s, batch, mlist, p, f);
      if Offered(mlist, |mlist|, k, globals[k]) {
        OfferedInProgram(s, batch, mlist, k, globals[k]);
      }
    }
  }

  /** The exported name of an untouched file is not erased. */
  lemma KeptGuid(s: State, batch: Batch, mlist: seq<Entry>, p: Path, f: Func)
    requires Linkable(s.loaded) && Planned(s, batch, mlist)
    requires InFile(s.loaded, p, f) && p !in Touched(s, batch) && f.Exported()
    ensures f.Guid() !in ErasedUpTo(s.loaded, mlist, |mlist|)
  {
    ErasedExact(s.loaded, mlist, |mlist|, f.Guid());
    if f.Guid() in ErasedUpTo(s.loaded, mlist, |mlist|) {
      var i, g :| 0 <= i < |mlist| && InFile(s.loaded, mlist[i].path, g) && g.Guid() == f.Guid();
      assert InProgram(s.loaded, g) && InProgram(s.loaded, f);
      assert false;
    }
  }

  lemma ListedExported(s: State, batch: Batch, mlist: seq<Entry>, globals: map<nat, Func>, k: nat)
    requires Linkable(s.loaded) && IsGlobals(s.loaded, s.globals) && Planned(s, batch, mlist)
    requires forall i | 0 <= i < |mlist| :: WellFormed(mlist[i].mod)
    requires globals == AllExports(s.globals - ErasedUpTo(s.loaded, mlist, |mlist|), mlist, |mlist|)
    requires k in globals
    ensures InProgram(s.loaded + batch, globals[k]) && globals[k].Exported() && globals[k].Guid() == k
  {
    var kept := s.globals - ErasedUpTo(s.loaded, mlist, |mlist|);
    AllExportsExact(kept, mlist, |mlist|, k);
    if Offered(mlist, |mlist|, k, globals[k]) {
      OfferedInProgram(s, batch, mlist, k, globals[k]);
    } else {
      var f := s.globals[k];
      var p :| InFile(s.loaded, p, f);
      TouchedErased(s, batch, mlist, p, f);
      assert InFile(s.loaded + batch, p, f);
    }
  }

  /** Every name defined by a touched file is erased. */
  lemma TouchedErased(s: State, batch: Batch, mlist: seq<Entry>, p: Path, f: Func)
    requires Planned(s, batch, mlist) && InFile(s.loaded, p, f)
    ensures p in Touched(s, batch) ==> f.Guid() in ErasedUpTo(s.loaded, mlist, |mlist|)
  {
    ErasedExact(s.loaded, mlist, |mlist|, f.Guid());
    if p in Touched(s, batch) {
      var i :| 0 <= i < |mlist| && mlist[i].path == p;
    }
  }

  // ---- The three maps ----

  lemma CalleesRefine(s: State, batch: Batch, mlist: seq<Entry>, globals: map<nat, Func>,
                      torn: Links, added: Links, after: map<Func, set<Func>>, f: Func)
    requires Inv(s) && Planned(s, batch, mlist) && IsGlobals(s.loaded + batch, globals)
    requires RemovedCallees(TornUpTo(s.bcFuncs, mlist, |mlist|), Links(s.callees, s.callers, s.callerPaths), torn)
    requires AddedCallees(globals, ScannedUpTo(mlist, |mlist|), torn, added)
    requires FinalizedOn(globals, ListedUpTo(mlist, |mlist|), added.callees, after)
    ensures Get(after, f) ==
            if Scanned(s.loaded + batch, Touched(s, batch), f) then Edges(globals, f)
            else if Torn(s, batch, f) then {}
            else Get(s.callees, f)
  {
    ListedIsScanned(s, batch, mlist, f);
    TornIsTorn(s, batch, mlist, f);
    OldCalleesGone(s, batch, mlist, f);
    var scanned, listed := f in ScannedUpTo(mlist, |mlist|), f in ListedUpTo(mlist, |mlist|);
    assert Get(torn.callees, f) == if Torn(s, batch, f) then {} else Get(s.callees, f);
    assert Get(added.callees, f) == Get(torn.callees, f) + (if scanned then Targets(globals, f) else {});
    assert Get(after, f) == if listed then Finalized(globals, Get(added.callees, f)) else Get(added.callees, f);
    CalleesCases(globals, f, scanned, listed, Get(torn.callees, f), Get(added.callees, f), Get(after, f));
  }

  /** A listed function that is not torn has no edges from before. */
  lemma OldCalleesGone(s: State, batch: Batch, mlist: seq<Entry>, f: Func)
    requires Linkable(s.loaded) && RowsExact(s) && CalleesExact(s) && Planned(s, batch, mlist)
    ensures f in ListedUpTo(mlist, |mlist|) && !Torn(s, batch, f) ==> Get(s.callees, f) == {}
  {
    ListedIsScanned(s, batch, mlist, f);
    if f in ScannedUpTo(mlist, |mlist|) && Get(s.callees, f) != {} {
      RescannedTorn(s, batch, f);
    }
  }

  lemma CalleesCases(globals: map<nat, Func>, f: Func, scanned: bool, listed: bool, a: set<Func>, b: set<Func>, c: set<Func>)
    requires forall k | k in globals :: globals[k].Defined()
    requires scanned ==> listed
    requires listed ==> a == {}
    requires b == a + (if scanned then Targets(globals, f) else {})
    requires c == if listed then Finalized(globals, b) else b
    ensures c == if scanned then Edges(globals, f) else a
  {
    if scanned {
      assert b == Targets(globals, f);
      FinalizedIsEdges(globals, f);
    }
  }

  lemma CallersRefine(s: State, batch: Batch, mlist: seq<Entry>, globals: map<nat, Func>, torn: Links, added: Links, f: Func, g: Func)
    requires Planned(s, batch, mlist)
    requires RemovedCallers(TornUpTo(s.bcFuncs, mlist, |mlist|), Links(s.callees, s.callers, s.callerPaths), torn)
    requires AddedCallers(globals, ScannedUpTo(mlist, |mlist|), torn, added)
    ensures f in Get(added.callers, g) <==>
            || (f in Get(s.callers, g) && !(Torn(s, batch, f) && g in Get(s.callees, f)))
            || (Scanned(s.loaded + batch, Touched(s, batch), f) && g in Targets(globals, f))
  {
    ListedIsScanned(s, batch, mlist, f);
    TornIsTorn(s, batch, mlist, f);
    assert f in Get(torn.callers, g) <==> f in Get(s.callers, g) && !(Torn(s, batch, f) && g in Get(s.callees, f));
  }

  lemma TargetLoaded(loaded: map<Path, Module>, globals: map<nat, Func>, q: Path, f: Func, g: Func) returns (p: Path)
    requires IsGlobals(loaded, globals) && InFile(loaded, q, f) && g in Targets(globals, f)
    ensures p in loaded && loaded[p] == g.parent
  {
    var c :| c in f.Operands() && g == Resolve(globals, c);
    if c.Exists() && c.Info().declaration && c.Guid() in globals {
      p :| InFile(loaded, p, g);
    } else {
      p := q;
    }
  }

  /** The names under which the modules of a program are registered. */
  ghost predicate NamesOf(loaded: map<Path, Module>, names: map<Module, Path>) {
    forall p {:trigger loaded[p]} | p in loaded :: PathOf(names, loaded[p]) == p
  }

  lemma CrossesIsCallsInto(s: State, batch: Batch, mlist: seq<Entry>, globals: map<nat, Func>, names: map<Module, Path>, q: Path, p: Path)
    requires Planned(s, batch, mlist) && IsGlobals(s.loaded + batch, globals) && NamesOf(s.loaded + batch, names)
    ensures Crosses(globals, names, ScannedUpTo(mlist, |mlist|), q, p) <==>
            CallsInto(s.loaded + batch, globals, Touched(s, batch), q, p)
  {
    var final := s.loaded + batch;
    if Crosses(globals, names, ScannedUpTo(mlist, |mlist|), q, p) {
      var f :| f in ScannedUpTo(mlist, |mlist|) && PathOf(names, f.parent) == q && SomeIn(names, Targets(globals, f), p);
      var g :| g in Targets(globals, f) && PathOf(names, g.parent) == p;
      ListedIsScanned(s, batch, mlist, f);
      var q' :| q' in Touched(s, batch) && InFile(final, q', f);
      assert final[q'] == f.parent;
      var p' := TargetLoaded(final, globals, q, f, g);
      assert PathOf(names, final[p']) == p';
    }
    if CallsInto(final, globals, Touched(s, batch), q, p) {
      var f, g :| InFile(final, q, f) && g in Targets(globals, f) && g.parent == final[p];
      ListedIsScanned(s, batch, mlist, f);
      assert PathOf(names, f.parent) == q && PathOf(names, g.parent) == p;
      assert SomeIn(names, Targets(globals, f), p);
    }
  }

  lemma RowsRefine(s: State, batch: Batch, mlist: seq<Entry>, names: map<Module, Path>,
                   cleared: map<Path, map<string, Func>>, after: map<Path, map<string, Func>>, p: Path)
    requires RowsExact(s) && Planned(s, batch, mlist)
    requires forall i | 0 <= i < |mlist| :: PathOf(names, mlist[i].mod) == mlist[i].path
    requires RowsCleared(s.bcFuncs, mlist, |mlist|, cleared) && RowsAdded(names, mlist, |mlist|, cleared, after)
    ensures Row(after, p) == if p in s.loaded + batch then ByName((s.loaded + batch)[p], |(s.loaded + batch)[p].funcs|) else map[]
  {
    var final := s.loaded + batch;
    if p in Touched(s, batch) {
      var k :| 0 <= k < |mlist| && mlist[k].path == p;
      ScannedRow(mlist, names, s.bcFuncs, cleared, after, k);
    } else {
      assert forall i | 0 <= i < |mlist| :: mlist[i].path != p;
      UnscannedRow(mlist, names, s.bcFuncs, cleared, after, p);
      assert p in final <==> p in s.loaded;
    }
  }

  lemma ScannedRow(mlist: seq<Entry>, names: map<Module, Path>, rows: map<Path, map<string, Func>>,
                   cleared: map<Path, map<string, Func>>, after: map<Path, map<string, Func>>, k: nat)
    requires k < |mlist| && PathOf(names, mlist[k].mod) == mlist[k].path
    requires RowsCleared(rows, mlist, |mlist|, cleared) && RowsAdded(names, mlist, |mlist|, cleared, after)
    ensures Row(after, mlist[k].path) == ByName(mlist[k].mod, |mlist[k].mod.funcs|)
  {
    assert mlist[k].path in PathsUpTo(mlist, |mlist|);
    assert Row(cleared, mlist[k].path) == map[];
    assert RowAdded(mlist[k].mod, PathOf(names, mlist[k].mod), cleared, after);
  }

  lemma UnscannedRow(mlist: seq<Entry>, names: map<Module, Path>, rows: map<Path, map<string, Func>>,
                     cleared: map<Path, map<string, Func>>, after: map<Path, map<string, Func>>, p: Path)
    requires forall i | 0 <= i < |mlist| :: PathOf(names, mlist[i].mod) != p && mlist[i].path != p
    requires RowsCleared(rows, mlist, |mlist|, cleared) && RowsAdded(names, mlist, |mlist|, cleared, after)
    ensures Row(after, p) == Row(rows, p)
  {
    assert p !in PathsUpTo(mlist, |mlist|);
    assert Row(after, p) == Row(cleared, p);
  }

  // ---- The step as a whole ----

  /** What the three loops leave: every touched file torn down, replaced and forgotten. */
  ghost predicate Prepared(s: State, vec: seq<Entry>, mlist: seq<Entry>, paths: map<Path, set<Path>>,
                           torn: Links, cleared: map<Path, map<string, Func>>, globals: map<nat, Func>) {
    && Planned(s, BatchOf(vec), mlist)
    && Dropped(s, vec, |vec|, paths)
    && Removed(TornUpTo(s.bcFuncs, mlist, |mlist|), Links(s.callees, s.callers, paths), torn)
    && RowsCleared(s.bcFuncs, mlist, |mlist|, cleared)
    && globals == s.globals - ErasedUpTo(s.loaded, mlist, |mlist|)
  }

  /** What the scan makes of it. */
  ghost predicate Rescanned(s: State, batch: Batch, mlist: seq<Entry>, names: map<Module, Path>, torn: Links,
                            cleared: map<Path, map<string, Func>>, globals: map<nat, Func>, added: Links, s': State) {
    && s'.loaded == s.loaded + batch
    && s'.globals == AllExports(globals, mlist, |mlist|)
    && Added(s'.globals, names, ScannedUpTo(mlist, |mlist|), torn, added)
    && FinalizedOn(s'.globals, ListedUpTo(mlist, |mlist|), added.callees, s'.callees)
    && s'.callers == added.callers && s'.callerPaths == added.paths
    && RowsAdded(names, mlist, |mlist|, cleared, s'.bcFuncs)
    && s'.seen == (map p | p in s'.loaded :: if p in Touched(s, batch) || p !in s.seen then s'.globals else s.seen[p])
  }

  lemma NextCalleesHolds(s: State, batch: Batch, mlist: seq<Entry>, torn: Links, added: Links, s': State)
    requires Inv(s) && Planned(s, batch, mlist) && s'.loaded == s.loaded + batch && IsGlobals(s'.loaded, s'.globals)
    requires RemovedCallees(TornUpTo(s.bcFuncs, mlist, |mlist|), Links(s.callees, s.callers, s.callerPaths), torn)
    requires AddedCallees(s'.globals, ScannedUpTo(mlist, |mlist|), torn, added)
    requires FinalizedOn(s'.globals, ListedUpTo(mlist, |mlist|), added.callees, s'.callees)
    ensures NextCallees(s, batch, s')
  {
    forall f ensures Get(s'.callees, f) ==
                     if Scanned(s'.loaded, Touched(s, batch), f) then Edges(s'.globals, f)
                     else if Torn(s, batch, f) then {}
                     else Get(s.callees, f)
    {
      CalleesRefine(s, batch, mlist, s'.globals, torn, added, s'.callees, f);
    }
  }

  lemma NextCallersHolds(s: State, batch: Batch, mlist: seq<Entry>, torn: Links, added: Links, s': State)
    requires Planned(s, batch, mlist) && s'.loaded == s.loaded + batch
    requires RemovedCallers(TornUpTo(s.bcFuncs, mlist, |mlist|), Links(s.callees, s.callers, s.callerPaths), torn)
    requires AddedCallers(s'.globals, ScannedUpTo(mlist, |mlist|), torn, added) && s'.callers == added.callers
    ensures NextCallers(s, batch, s')
  {
    forall f, g ensures f in Get(s'.callers, g) <==>
                        || (f in Get(s.callers, g) && !(Torn(s, batch, f) && g in Get(s.callees, f)))
                        || (Scanned(s'.loaded, Touched(s, batch), f) && g in Targets(s'.globals, f))
    {
      CallersRefine(s, batch, mlist, s'.globals, torn, added, f, g);
    }
  }

  lemma NextCallerPathsHolds(s: State, vec: seq<Entry>, mlist: seq<Entry>, names: map<Module, Path>,
                             torn: Links, added: Links, s': State)
    requires DistinctPaths(vec) && Planned(s, BatchOf(vec), mlist)
    requires s'.loaded == s.loaded + BatchOf(vec) && IsGlobals(s'.loaded, s'.globals)
    requires NamesOf(s'.loaded, names) && Dropped(s, vec, |vec|, torn.paths)
    requires AddedPaths(s'.globals, names, ScannedUpTo(mlist, |mlist|), torn, added) && s'.callerPaths == added.paths
    ensures NextCallerPaths(s, BatchOf(vec), s')
  {
    BatchExact(vec, |vec|);
    forall p, q ensures q in Get(s'.callerPaths, p) <==>
                        || (q in Get(s.callerPaths, p) && p !in BatchOf(vec) && q !in BatchOf(vec))
                        || CallsInto(s'.loaded, s'.globals, Touched(s, BatchOf(vec)), q, p)
    {
      CrossesIsCallsInto(s, BatchOf(vec), mlist, s'.globals, names, q, p);
      assert q in Get(torn.paths, p) <==> q in Get(s.callerPaths, p) && p !in BatchOf(vec) && q !in BatchOf(vec);
    }
  }

  lemma RowsExactHolds(s: State, batch: Batch, mlist: seq<Entry>, names: map<Module, Path>,
                       cleared: map<Path, map<string, Func>>, s': State)
    requires RowsExact(s) && Planned(s, batch, mlist) && s'.loaded == s.loaded + batch
    requires forall i | 0 <= i < |mlist| :: PathOf(names, mlist[i].mod) == mlist[i].path
    requires RowsCleared(s.bcFuncs, mlist, |mlist|, cleared) && RowsAdded(names, mlist, |mlist|, cleared, s'.bcFuncs)
    ensures RowsExact(s')
  {
    forall p ensures Row(s'.bcFuncs, p) == if p in s'.loaded then ByName(s'.loaded[p], |s'.loaded[p].funcs|) else map[] {
      RowsRefine(s, batch, mlist, names, cleared, s'.bcFuncs, p);
    }
  }

  lemma UpdateIsNext(s: State, vec: seq<Entry>, mlist: seq<Entry>, names: map<Module, Path>, paths: map<Path, set<Path>>,
                     torn: Links, cleared: map<Path, map<string, Func>>, globals: map<nat, Func>, added: Links, s': State)
    requires Inv(s) && DistinctPaths(vec)
    requires Prepared(s, vec, mlist, paths, torn, cleared, globals)
    requires Rescanned(s, BatchOf(vec), mlist, names, torn, cleared, globals, added, s')
    requires NamesOf(s'.loaded, names)
    requires forall i | 0 <= i < |mlist| :: PathOf(names, mlist[i].mod) == mlist[i].path
    ensures Next(s, BatchOf(vec), s')
  {
    GlobalsExact(s, BatchOf(vec), mlist, s'.globals);
    NextCalleesHolds(s, BatchOf(vec), mlist, torn, added, s');
    NextCallersHolds(s, BatchOf(vec), mlist, torn, added, s');
    NextCallerPathsHolds(s, vec, mlist, names, torn, added, s');
    RowsExactHolds(s, BatchOf(vec), mlist, names, cleared, s');
  }

  /** The scan finds each listed module under its own path, and a table of definitions. */
  lemma ScanReady(s: State, vec: seq<Entry>, mlist: seq<Entry>, modules: seq<Entry>, names: map<Module, Path>,
                  paths: map<Path, set<Path>>, torn: Links, cleared: map<Path, map<string, Func>>, globals: map<nat, Func>)
    requires Inv(s) && Prepared(s, vec, mlist, paths, torn, cleared, globals)
    requires Registry(modules, names, s.loaded + BatchOf(vec))
    ensures NamesOf(s.loaded + BatchOf(vec), names)
    ensures forall i | 0 <= i < |mlist| :: WellFormed(mlist[i].mod) && PathOf(names, mlist[i].mod) == mlist[i].path
    ensures forall i, j | 0 <= i < j < |mlist| :: PathOf(names, mlist[i].mod) != PathOf(names, mlist[j].mod)
    ensures forall k | k in globals :: globals[k].Defined()
  {
    var final := s.loaded + BatchOf(vec);
    forall i | 0 <= i < |mlist| ensures WellFormed(mlist[i].mod) && PathOf(names, mlist[i].mod) == mlist[i].path {
      assert final[mlist[i].path] == mlist[i].mod;
    }
  }
}
