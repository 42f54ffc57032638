/** What every update of the call graph keeps. */
module CallGraphRuns {
  import opened MultiMap
  import opened Program
  import opened CallGraphState

  // ---- The invariant ----

  /** A function has edges only while its module is loaded, and they are those its calls
      resolved to when its file was last scanned. */
  ghost predicate CalleesExact(s: State) {
    && s.seen.Keys == s.loaded.Keys
    && (forall f {:trigger Get(s.callees, f)} | Get(s.callees, f) != {} :: InProgram(s.loaded, f))
    && (forall p, f {:trigger InFile(s.loaded, p, f)} | InFile(s.loaded, p, f) ::
          Get(s.callees, f) == Edges(s.seen[p], f))
  }

  /** What a call resolved to at the last scan is still what it would resolve to now. */
  ghost predicate SeenCurrent(s: State) {
    forall p, f, c: Func {:trigger InFile(s.loaded, p, f), c in f.Operands()} |
      InFile(s.loaded, p, f) && p in s.seen && c in f.Operands() ::
      c.Exists() && c.Info().declaration && c.Guid() in s.seen[p] ==>
        c.Guid() in s.globals && s.globals[c.Guid()] == s.seen[p][c.Guid()]
  }

  /** On defined functions, `callers` is the inverse of `callees`. */
  ghost predicate CallersInverse(s: State) {
    forall f: Func, g: Func {:trigger f in Get(s.callers, g)} {:trigger g in Get(s.callees, f)} | g.Defined() ::
      f in Get(s.callers, g) <==> g in Get(s.callees, f)
  }

  ghost predicate CallerPathsLoaded(s: State) {
    forall p, q {:trigger q in Get(s.callerPaths, p)} | q in Get(s.callerPaths, p) :: p in s.loaded && q in s.loaded
  }

  /** The caller's file is on record for the callee's file, edge by edge. */
  ghost predicate CallerPathsCover(s: State) {
    forall p, q, f, g {:trigger InFile(s.loaded, p, f), InFile(s.loaded, q, g)} |
      InFile(s.loaded, p, f) && InFile(s.loaded, q, g) ::
      g in Get(s.callees, f) ==> p in Get(s.callerPaths, q)
  }

  ghost predicate Inv(s: State) {
    && Linkable(s.loaded)
    && IsGlobals(s.loaded, s.globals)
    && RowsExact(s)
    && CalleesExact(s)
    && SeenCurrent(s)
    && CallersInverse(s)
    && CallerPathsLoaded(s)
    && CallerPathsCover(s)
  }

  lemma EmptyInv()
    ensures Inv(EMPTY)
  {
  }

  // ---- Consequences of the invariant ----

  /** The functions on record for a loaded file are its definitions. */
  lemma RowValues(s: State, p: Path, f: Func)
    requires Linkable(s.loaded) && RowsExact(s) && p in s.loaded
    ensures f in Row(s.bcFuncs, p).Values <==> InFile(s.loaded, p, f)
  {
    var m := s.loaded[p];
    ByNameExact(m, |m.funcs|);
    assert f.Defined() && f.parent == m ==> f == Func(m, f.index);
  }

  /** Either end of an edge is a definition of the program. */
  lemma EdgesInProgram(s: State, f: Func, g: Func)
    requires Linkable(s.loaded) && IsGlobals(s.loaded, s.globals) && CalleesExact(s) && SeenCurrent(s)
    requires g in Get(s.callees, f)
    ensures InProgram(s.loaded, f) && InProgram(s.loaded, g)
  {
    var p :| InFile(s.loaded, p, f);
    var c :| c in f.Operands() && g == Resolve(s.seen[p], c);
    if c.Exists() && c.Info().declaration && c.Guid() in s.seen[p] {
      assert g == s.globals[c.Guid()];
    } else {
      assert InFile(s.loaded, p, g);
    }
  }

  /** A function of a file outside the touched ones is neither torn down nor scanned. */
  lemma Untouched(s: State, batch: Batch, s': State, p: Path, f: Func)
    requires Linkable(s.loaded) && RowsExact(s) && CallerPathsLoaded(s)
    requires Linkable(s'.loaded) && s'.loaded == s.loaded + batch
    requires InFile(s'.loaded, p, f) && p !in Touched(s, batch)
    ensures InFile(s.loaded, p, f)
    ensures !Torn(s, batch, f) && !Scanned(s'.loaded, Touched(s, batch), f)
  {
    if Torn(s, batch, f) {
      var q :| q in Touched(s, batch) && f in Row(s.bcFuncs, q).Values;
      assert q in s.loaded;
      RowValues(s, q, f);
      assert false;
    }
  }

  /** Every function of a touched file is torn down. */
  lemma TouchedTorn(s: State, batch: Batch, p: Path, f: Func)
    requires Linkable(s.loaded) && RowsExact(s)
    requires InFile(s.loaded, p, f) && p in Touched(s, batch)
    ensures Torn(s, batch, f)
  {
    RowValues(s, p, f);
  }

  /** Why the affected set suffices: a file that is not touched has no edge into the
      batch, so both ends of its edges stay loaded. */
  lemma EdgeSurvives(s: State, batch: Batch, p: Path, f: Func, g: Func) returns (q: Path)
    requires CallerPathsCover(s) && InProgram(s.loaded, g)
    requires InFile(s.loaded, p, f) && p !in Touched(s, batch) && g in Get(s.callees, f)
    ensures q !in batch && InFile(s.loaded, q, g) && InFile(s.loaded + batch, q, g)
    ensures p in Get(s.callerPaths, q)
  {
    q :| InFile(s.loaded, q, g);
    assert p in Get(s.callerPaths, q);
  }

  // ---- Preservation ----

  lemma CalleesKept(s: State, batch: Batch, s': State)
    requires Linkable(s.loaded) && RowsExact(s) && CallerPathsLoaded(s) && CalleesExact(s)
    requires Linkable(s'.loaded) && s'.loaded == s.loaded + batch && NextCallees(s, batch, s')
    requires s'.seen == (map p | p in s'.loaded :: if p in Touched(s, batch) || p !in s.seen then s'.globals else s.seen[p])
    ensures CalleesExact(s')
  {
    var touched := Touched(s, batch);
    forall f | Get(s'.callees, f) != {} ensures InProgram(s'.loaded, f) {
      if !Scanned(s'.loaded, touched, f) {
        var p :| InFile(s.loaded, p, f);
        if p in touched { TouchedTorn(s, batch, p, f); }
        assert InFile(s'.loaded, p, f);
      }
    }
    forall p, f | InFile(s'.loaded, p, f)
      ensures Get(s'.callees, f) == Edges(s'.seen[p], f)
    {
      if p in touched {
        assert Scanned(s'.loaded, touched, f);
      } else {
        Untouched(s, batch, s', p, f);
      }
    }
  }

  lemma SeenKept(s: State, batch: Batch, s': State)
    requires Inv(s) && Loadable(s, batch) && Next(s, batch, s')
    ensures SeenCurrent(s')
  {
    forall p, f, c: Func | InFile(s'.loaded, p, f) && p in s'.seen && c in f.Operands()
                     && c.Exists() && c.Info().declaration && c.Guid() in s'.seen[p]
      ensures c.Guid() in s'.globals && s'.globals[c.Guid()] == s'.seen[p][c.Guid()]
    {
      if p !in Touched(s, batch) {
        Untouched(s, batch, s', p, f);
        OldCallCurrent(s, batch, s', p, f, c);
      }
    }
  }

  lemma OldCallCurrent(s: State, batch: Batch, s': State, p: Path, f: Func, c: Func)
    requires Linkable(s.loaded) && IsGlobals(s.loaded, s.globals) && CalleesExact(s) && SeenCurrent(s)
    requires CallerPathsCover(s) && s'.loaded == s.loaded + batch && IsGlobals(s'.loaded, s'.globals)
    requires InFile(s.loaded, p, f) && p !in Touched(s, batch)
    requires c in f.Operands() && c.Exists() && c.Info().declaration && c.Guid() in s.seen[p]
    ensures c.Guid() in s'.globals && s'.globals[c.Guid()] == s.seen[p][c.Guid()]
  {
    var g := s.seen[p][c.Guid()];
    assert g == s.globals[c.Guid()] && g.Exported() && g.Guid() == c.Guid();
    assert g == Resolve(s.seen[p], c);
    assert g in Targets(s.seen[p], f);
    assert g in Get(s.callees, f);
    var q := EdgeSurvives(s, batch, p, f, g);
    assert InProgram(s'.loaded, g);
  }

  lemma CallersKept(s: State, batch: Batch, s': State)
    requires Linkable(s.loaded) && RowsExact(s) && CalleesExact(s) && CallersInverse(s)
    requires Loadable(s, batch) && s'.loaded == s.loaded + batch
    requires NextCallees(s, batch, s') && NextCallers(s, batch, s')
    ensures CallersInverse(s')
  {
    forall f: Func, g: Func | g.Defined() ensures f in Get(s'.callers, g) <==> g in Get(s'.callees, f) {
      if Scanned(s'.loaded, Touched(s, batch), f) && Get(s.callees, f) != {} {
        RescannedTorn(s, batch, f);
      }
    }
  }

  /** A scanned function that had edges before was torn down first: its file is affected
      rather than reloaded. */
  lemma RescannedTorn(s: State, batch: Batch, f: Func)
    requires Linkable(s.loaded) && RowsExact(s) && CalleesExact(s) && Loadable(s, batch)
    requires Scanned(s.loaded + batch, Touched(s, batch), f) && Get(s.callees, f) != {}
    ensures Torn(s, batch, f)
  {
    var p :| p in Touched(s, batch) && InFile(s.loaded + batch, p, f);
    var q :| InFile(s.loaded, q, f);
    assert p !in batch;
    TouchedTorn(s, batch, p, f);
  }

  lemma PathsCoverKept(s: State, batch: Batch, s': State)
    requires Inv(s) && Loadable(s, batch) && Next(s, batch, s')
    ensures CallerPathsCover(s')
  {
    forall p, q, f, g | InFile(s'.loaded, p, f) && InFile(s'.loaded, q, g) && g in Get(s'.callees, f)
      ensures p in Get(s'.callerPaths, q)
    {
      if p in Touched(s, batch) {
        assert Scanned(s'.loaded, Touched(s, batch), f);
        assert CallsInto(s'.loaded, s'.globals, Touched(s, batch), p, q);
      } else {
        Untouched(s, batch, s', p, f);
        OldEdgeCovered(s, batch, s', p, q, f, g);
      }
    }
  }

  lemma OldEdgeCovered(s: State, batch: Batch, s': State, p: Path, q: Path, f: Func, g: Func)
    requires Linkable(s.loaded) && IsGlobals(s.loaded, s.globals) && CalleesExact(s) && SeenCurrent(s)
    requires CallerPathsCover(s) && s'.loaded == s.loaded + batch && Linkable(s'.loaded) && NextCallerPaths(s, batch, s')
    requires InFile(s.loaded, p, f) && p !in Touched(s, batch) && g in Get(s.callees, f) && InFile(s'.loaded, q, g)
    ensures p in Get(s'.callerPaths, q)
  {
    EdgesInProgram(s, f, g);
    var r := EdgeSurvives(s, batch, p, f, g);
    assert r == q;
  }

  lemma PathsLoadedKept(s: State, batch: Batch, s': State)
    requires CallerPathsLoaded(s) && s'.loaded == s.loaded + batch && NextCallerPaths(s, batch, s')
    ensures CallerPathsLoaded(s')
  {
    forall p: Path, q: Path | q in Get(s'.callerPaths, p) ensures p in s'.loaded && q in s'.loaded {
      if q in Get(s.callerPaths, p) {
        assert p in s.loaded;
      } else {
        assert CallsInto(s'.loaded, s'.globals, Touched(s, batch), q, p);
      }
    }
  }

  /** One update keeps the invariant. */
  lemma UpdateKeepsInv(s: State, batch: Batch, s': State)
    requires Inv(s) && Loadable(s, batch) && Next(s, batch, s')
    ensures Inv(s')
  {
    CalleesKept(s, batch, s');
    SeenKept(s, batch, s');
    CallersKept(s, batch, s');
    PathsCoverKept(s, batch, s');
    PathsLoadedKept(s, batch, s');
  }
}
