/** How the maintained call graph compares with one built from scratch over the files
    loaded at that moment, after one update and over every run of updates. */
module CallGraphRebuild {
  import opened MultiMap
  import opened Program
  import opened CallGraphState
  import opened CallGraphRuns

  /** `r` is what the pass builds when it starts from nothing on the files `loaded`. */
  ghost predicate Built(loaded: map<Path, Module>, r: State) {
    Linkable(loaded) && Next(EMPTY, loaded, r)
  }

  /** The call `c` of `f`, in the file `p`, was unresolved when `p` was last scanned but
      would be resolved now. */
  ghost predicate Missed(s: State, p: Path, f: Func, c: Func) {
    && InFile(s.loaded, p, f) && p in s.seen && c in f.Operands()
    && c.Exists() && c.Info().declaration && c.Guid() !in s.seen[p] && c.Guid() in s.globals
  }

  ghost predicate NoneMissed(s: State, p: Path, f: Func) {
    forall c :: !Missed(s, p, f, c)
  }

  lemma GlobalsUnique(loaded: map<Path, Module>, g: map<nat, Func>, h: map<nat, Func>)
    requires IsGlobals(loaded, g) && IsGlobals(loaded, h)
    ensures g == h
  {
    forall k | k in g ensures k in h && h[k] == g[k] { assert InProgram(loaded, g[k]); }
    forall k | k in h ensures k in g { assert InProgram(loaded, h[k]); }
  }

  /** A rebuild resolves every call against the current definitions. */
  lemma BuiltCallees(s: State, r: State, f: Func)
    requires Inv(s) && Built(s.loaded, r)
    ensures Inv(r) && r.loaded == s.loaded && r.globals == s.globals
    ensures Get(r.callees, f) == if InProgram(s.loaded, f) then Edges(s.globals, f) else {}
  {
    EmptyInv();
    assert EMPTY.loaded + s.loaded == s.loaded;
    UpdateKeepsInv(EMPTY, s.loaded, r);
    GlobalsUnique(s.loaded, s.globals, r.globals);
    if InProgram(s.loaded, f) {
      var p :| InFile(s.loaded, p, f);
      assert p in Touched(EMPTY, s.loaded);
    }
  }

  /** `f` is a function with a body in one of the files. */
  ghost predicate HasBody(loaded: map<Path, Module>, f: Func) {
    f.index < |f.parent.funcs| && !f.parent.funcs[f.index].declaration && exists p :: p in loaded && loaded[p] == f.parent
  }

  /** Call `i` of `f` leads to `g`: the function called, if it has a body, or the external one of
      the same GUID that has. */
  ghost predicate CallLeadsTo(loaded: map<Path, Module>, f: Func, i: nat, g: Func) {
    && f.index < |f.parent.funcs| && i < |f.parent.funcs[f.index].calls|
    && var call, funcs := f.parent.funcs[f.index].calls[i], f.parent.funcs;
       && call.Direct? && call.callee < |funcs| && HasBody(loaded, g)
       && if !funcs[call.callee].declaration then g == Func(f.parent, call.callee)
          else g.parent.funcs[g.index].external && g.parent.funcs[g.index].guid == funcs[call.callee].guid
  }

  lemma BodyInProgram(loaded: map<Path, Module>, f: Func)
    ensures HasBody(loaded, f) <==> InProgram(loaded, f)
  {
    if HasBody(loaded, f) {
      var p :| p in loaded && loaded[p] == f.parent;
      assert InFile(loaded, p, f);
    }
  }

  lemma CallTarget(loaded: map<Path, Module>, globals: map<nat, Func>, f: Func, i: nat, g: Func)
    requires Linkable(loaded) && IsGlobals(loaded, globals) && InProgram(loaded, f)
    requires i < |f.Info().calls| && f.Info().calls[i].Direct?
    ensures g == Resolve(globals, Func(f.parent, f.Info().calls[i].callee)) && g.Defined() <==> CallLeadsTo(loaded, f, i, g)
  {
    var c := Func(f.parent, f.Info().calls[i].callee);
    forall h: Func ensures HasBody(loaded, h) <==> InProgram(loaded, h) { BodyInProgram(loaded, h); }
    hide InProgram, HasBody;
    if c.Exists() && c.Info().declaration && g == Resolve(globals, c) && g.Defined() {
      assert InProgram(loaded, globals[c.Guid()]);
    }
  }

  lemma EdgesLead(loaded: map<Path, Module>, globals: map<nat, Func>, f: Func, g: Func)
    requires Linkable(loaded) && IsGlobals(loaded, globals) && InProgram(loaded, f)
    ensures g in Edges(globals, f) <==> exists i: nat :: CallLeadsTo(loaded, f, i, g)
  {
    forall i: nat | i < |f.Info().calls| && f.Info().calls[i].Direct?
      ensures g == Resolve(globals, Func(f.parent, f.Info().calls[i].callee)) && g.Defined() <==> CallLeadsTo(loaded, f, i, g)
    {
      CallTarget(loaded, globals, f, i, g);
    }
    hide InProgram, Linkable, IsGlobals, Resolve;
    if g in Edges(globals, f) {
      var c :| c in f.Operands() && g == Resolve(globals, c);
      var i: nat :| i < |f.Info().calls| && f.Info().calls[i].Direct? && c == Func(f.parent, f.Info().calls[i].callee);
      assert CallLeadsTo(loaded, f, i, g);
    }
    if i: nat :| CallLeadsTo(loaded, f, i, g) {
      assert Func(f.parent, f.Info().calls[i].callee) in f.Operands();
    }
  }

  lemma BuiltInv(loaded: map<Path, Module>, r: State)
    requires Built(loaded, r)
    ensures Inv(r) && r.loaded == loaded && Linkable(loaded) && IsGlobals(loaded, r.globals)
  {
    EmptyInv();
    assert EMPTY.loaded + loaded == loaded;
    hide Inv, Linkable, IsGlobals, NextCallees, NextCallers, NextCallerPaths, RowsExact;
    UpdateKeepsInv(EMPTY, loaded, r) by { NothingInTheWay(loaded); }
  }

  lemma NothingInTheWay(loaded: map<Path, Module>)
    requires Linkable(loaded)
    ensures Inv(EMPTY) && Loadable(EMPTY, loaded)
  {
    EmptyInv();
    assert EMPTY.loaded + loaded == loaded;
  }

  /** What a rebuild is: an edge for every call with a target that has a body, and no other. */
  lemma BuiltEdges(loaded: map<Path, Module>, r: State, f: Func, g: Func)
    requires Built(loaded, r)
    ensures g in Get(r.callees, f) <==> HasBody(loaded, f) && exists i: nat :: CallLeadsTo(loaded, f, i, g)
  {
    BuiltInv(loaded, r);
    hide Built, Inv, Linkable, IsGlobals, InProgram, HasBody, CallLeadsTo, Edges;
    BuiltCallees(r, r, f);
    BodyInProgram(loaded, f);
    if InProgram(loaded, f) {
      EdgesLead(loaded, r.globals, f, g);
    }
  }

  /** The maintained edges are edges of a rebuild. */
  lemma MaintainedInRebuilt(s: State, r: State, f: Func)
    requires Inv(s) && Built(s.loaded, r)
    ensures Get(s.callees, f) <= Get(r.callees, f)
  {
    BuiltCallees(s, r, f);
    forall g | g in Get(s.callees, f) ensures g in Get(r.callees, f) {
      var p :| InFile(s.loaded, p, f);
      var c :| c in f.Operands() && g == Resolve(s.seen[p], c);
      CallResolvedNow(s, p, f, c);
    }
  }

  /** A call whose target was a definition at the last scan resolves to it still. */
  lemma CallResolvedNow(s: State, p: Path, f: Func, c: Func)
    requires Inv(s) && InFile(s.loaded, p, f) && c in f.Operands() && Resolve(s.seen[p], c).Defined()
    ensures Resolve(s.globals, c) == Resolve(s.seen[p], c)
    ensures Resolve(s.globals, c) in Edges(s.globals, f)
  {
    assert Resolve(s.globals, c) in Targets(s.globals, f);
  }

  /** When the last scan missed nothing, it saw every edge of a rebuild. */
  lemma NoneMissedAllMaintained(s: State, p: Path, f: Func, g: Func)
    requires Inv(s) && InFile(s.loaded, p, f) && NoneMissed(s, p, f) && g in Edges(s.globals, f)
    ensures g in Get(s.callees, f)
  {
    var c :| c in f.Operands() && g == Resolve(s.globals, c);
    assert !Missed(s, p, f, c);
    assert Resolve(s.seen[p], c) == g;
    assert g in Targets(s.seen[p], f);
  }

  /** An edge to an exported definition was found under its GUID, so a declaration of the
      same GUID in the calling module was resolved by the same scan. */
  lemma EdgeSeen(s: State, p: Path, f: Func, c: Func, g: Func)
    requires Inv(s) && InFile(s.loaded, p, f) && c in f.Operands() && c.Exists() && c.Info().declaration
    requires g in Get(s.callees, f) && g.Exported() && g.Guid() == c.Guid()
    ensures c.Guid() in s.seen[p]
  {
    var d :| d in f.Operands() && g == Resolve(s.seen[p], d);
    if d.Exists() && d.Info().declaration && d.Guid() in s.seen[p] {
      assert s.globals[d.Guid()] == g;
      assert g.Guid() == d.Guid();
    } else {
      SameGuidSameIndex(s.loaded[p], c, g);
    }
  }

  lemma SameGuidSameIndex(m: Module, c: Func, g: Func)
    requires WellFormed(m) && c.parent == g.parent == m && c.Exists() && g.Exists() && c.Guid() == g.Guid()
    ensures c == g
  {
    assert m.funcs[c.index].guid == m.funcs[g.index].guid;
  }

  /** A missed call is an edge of the rebuild that is not maintained. */
  lemma MissedEdge(s: State, p: Path, f: Func, c: Func)
    requires Inv(s) && Missed(s, p, f, c)
    ensures s.globals[c.Guid()] in Edges(s.globals, f)
    ensures s.globals[c.Guid()] !in Get(s.callees, f)
  {
    var g := s.globals[c.Guid()];
    assert g == Resolve(s.globals, c) && g in Targets(s.globals, f) && g.Exported() && g.Guid() == c.Guid();
    if g in Get(s.callees, f) {
      EdgeSeen(s, p, f, c, g);
    }
  }

  /** A function's maintained edges are those of a rebuild if and only if no name it calls
      became defined since its file was last scanned. */
  lemma EqualIffNoneMissed(s: State, r: State, p: Path, f: Func)
    requires Inv(s) && Built(s.loaded, r) && InFile(s.loaded, p, f)
    ensures Get(s.callees, f) == Get(r.callees, f) <==> NoneMissed(s, p, f)
  {
    BuiltCallees(s, r, f);
    MaintainedInRebuilt(s, r, f);
    if NoneMissed(s, p, f) {
      forall g | g in Edges(s.globals, f) ensures g in Get(s.callees, f) {
        NoneMissedAllMaintained(s, p, f, g);
      }
    } else {
      var c :| Missed(s, p, f, c);
      MissedEdge(s, p, f, c);
    }
  }

  // ---- One update ----

  /** The files scanned by an update end up with the edges of a rebuild. */
  lemma TouchedExact(s: State, batch: Batch, s': State, r: State, p: Path, f: Func)
    requires Inv(s) && Loadable(s, batch) && Next(s, batch, s') && Built(s'.loaded, r)
    requires p in Touched(s, batch) && InFile(s'.loaded, p, f)
    ensures Get(s'.callees, f) == Get(r.callees, f)
  {
    UpdateKeepsInv(s, batch, s');
    EqualIffNoneMissed(s', r, p, f);
  }

  /** The maintained graph is the rebuilt one. */
  ghost predicate Complete(s: State) {
    forall p, f {:trigger InFile(s.loaded, p, f)} | InFile(s.loaded, p, f) :: NoneMissed(s, p, f)
  }

  lemma CompleteIffRebuilt(s: State, r: State)
    requires Inv(s) && Built(s.loaded, r)
    ensures Complete(s) <==> forall f :: Get(s.callees, f) == Get(r.callees, f)
  {
    forall p, f | InFile(s.loaded, p, f)
      ensures Get(s.callees, f) == Get(r.callees, f) <==> NoneMissed(s, p, f)
    {
      EqualIffNoneMissed(s, r, p, f);
    }
    if Complete(s) {
      forall f ensures Get(s.callees, f) == Get(r.callees, f) {
        BuiltCallees(s, r, f);
      }
    }
  }

  /** The batch exports a name that the call `c` of an untouched file has no definition for. */
  ghost predicate Captured(s: State, batch: Batch, p: Path, f: Func, c: Func, q: Path, g: Func) {
    && InFile(s.loaded, p, f) && p !in Touched(s, batch) && c in f.Operands()
    && c.Exists() && c.Info().declaration && c.Guid() !in s.globals
    && InFile(batch, q, g) && g.Exported() && g.Guid() == c.Guid()
  }

  ghost predicate Captures(s: State, batch: Batch) {
    exists p, f, c, q, g :: Captured(s, batch, p, f, c, q, g)
  }

  /** From a complete graph, an update leads to a complete graph if and only if it exports
      no name that an untouched file calls without a definition. */
  lemma CompleteIffNothingCaptured(s: State, batch: Batch, s': State)
    requires Inv(s) && Loadable(s, batch) && Next(s, batch, s') && Complete(s)
    ensures Complete(s') <==> !Captures(s, batch)
  {
    if Captures(s, batch) {
      var p, f, c, q, g :| Captured(s, batch, p, f, c, q, g);
      CapturedIsMissed(s, batch, s', p, f, c, q, g);
    }
    if !Complete(s') {
      var p, f :| InFile(s'.loaded, p, f) && !NoneMissed(s', p, f);
      var c :| Missed(s', p, f, c);
      var q, g := MissedIsCaptured(s, batch, s', p, f, c);
    }
  }

  lemma CapturedIsMissed(s: State, batch: Batch, s': State, p: Path, f: Func, c: Func, q: Path, g: Func)
    requires Inv(s) && Loadable(s, batch) && Next(s, batch, s')
    requires Captured(s, batch, p, f, c, q, g)
    ensures Missed(s', p, f, c)
  {
    assert InFile(s'.loaded, p, f);
    assert InFile(s'.loaded, q, g);
    assert InProgram(s'.loaded, g);
  }

  lemma MissedIsCaptured(s: State, batch: Batch, s': State, p: Path, f: Func, c: Func) returns (q: Path, g: Func)
    requires Inv(s) && Loadable(s, batch) && Next(s, batch, s') && Complete(s)
    requires Missed(s', p, f, c)
    ensures Captured(s, batch, p, f, c, q, g)
  {
    Untouched(s, batch, s', p, f);
    assert !Missed(s, p, f, c);
    g := s'.globals[c.Guid()];
    q :| InFile(s'.loaded, q, g);
    if q !in batch {
      assert InFile(s.loaded, q, g);
      assert InProgram(s.loaded, g);
      assert false;
    }
  }

  // ---- Runs ----

  /** A session: the first batch is the initial list of files. */
  ghost predicate IsRun(states: seq<State>, batches: seq<Batch>) {
    && |states| == |batches| + 1
    && states[0] == EMPTY
    && forall i | 0 <= i < |batches| :: Loadable(states[i], batches[i]) && Next(states[i], batches[i], states[i + 1])
  }

  lemma {:induction false} RunKeepsInv(states: seq<State>, batches: seq<Batch>, n: nat)
    requires IsRun(states, batches) && n < |states|
    ensures Inv(states[n])
  {
    if n == 0 {
      EmptyInv();
    } else {
      RunKeepsInv(states, batches, n - 1);
      UpdateKeepsInv(states[n - 1], batches[n - 1], states[n]);
    }
  }

  /** At every moment of every run the maintained graph is contained in the rebuilt one,
      equal on the files of the last update, and equal on any file exactly when none of its
      calls was missed. */
  lemma RunAgainstRebuild(states: seq<State>, batches: seq<Batch>, n: nat, r: State)
    requires IsRun(states, batches) && 0 < n < |states| && Built(states[n].loaded, r)
    ensures forall f :: Get(states[n].callees, f) <= Get(r.callees, f)
    ensures forall p, f | InFile(states[n].loaded, p, f) ::
              Get(states[n].callees, f) == Get(r.callees, f) <==> NoneMissed(states[n], p, f)
    ensures forall p, f | p in Touched(states[n - 1], batches[n - 1]) && InFile(states[n].loaded, p, f) ::
              Get(states[n].callees, f) == Get(r.callees, f)
  {
    var s := states[n];
    RunKeepsInv(states, batches, n - 1);
    RunKeepsInv(states, batches, n);
    forall f ensures Get(s.callees, f) <= Get(r.callees, f) {
      MaintainedInRebuilt(s, r, f);
    }
    forall p, f | InFile(s.loaded, p, f)
      ensures Get(s.callees, f) == Get(r.callees, f) <==> NoneMissed(s, p, f)
    {
      EqualIffNoneMissed(s, r, p, f);
    }
    forall p, f | p in Touched(states[n - 1], batches[n - 1]) && InFile(s.loaded, p, f)
      ensures Get(s.callees, f) == Get(r.callees, f)
    {
      TouchedExact(states[n - 1], batches[n - 1], s, r, p, f);
    }
  }

  /** A run stays complete throughout if and only if none of its updates captures a call. */
  lemma {:induction false} RunCompleteIffNothingCaptured(states: seq<State>, batches: seq<Batch>)
    requires IsRun(states, batches)
    ensures (forall i | 0 <= i < |states| :: Complete(states[i]))
       <==> (forall i | 0 <= i < |batches| :: !Captures(states[i], batches[i]))
  {
    if forall i | 0 <= i < |states| :: Complete(states[i]) {
      forall i | 0 <= i < |batches| ensures !Captures(states[i], batches[i]) {
        RunKeepsInv(states, batches, i);
        assert Complete(states[i + 1]);
        CompleteIffNothingCaptured(states[i], batches[i], states[i + 1]);
      }
    }
    if forall i | 0 <= i < |batches| :: !Captures(states[i], batches[i]) {
      forall i | 0 <= i < |states| ensures Complete(states[i]) {
        NothingCapturedComplete(states, batches, i);
      }
    }
  }

  lemma {:induction false} NothingCapturedComplete(states: seq<State>, batches: seq<Batch>, n: nat)
    requires IsRun(states, batches) && n < |states|
    requires forall i | 0 <= i < |batches| :: !Captures(states[i], batches[i])
    ensures Complete(states[n])
  {
    if n > 0 {
      NothingCapturedComplete(states, batches, n - 1);
      RunKeepsInv(states, batches, n - 1);
      CompleteIffNothingCaptured(states[n - 1], batches[n - 1], states[n]);
    }
  }

  // ---- The update that a rebuild would see and the maintained graph does not ----

  const CALLER := Module(0, [FuncDef("main", 1, false, true, [Direct(1)]), FuncDef("helper", 2, true, true, [])])
  const HELPER := Module(1, [FuncDef("helper", 2, false, true, [])])
  const FIRST: Batch := map["main.bc" := CALLER]
  const SECOND: Batch := map["helper.bc" := HELPER]

  lemma FirstProgram(f: Func)
    requires InProgram(FIRST, f)
    ensures f == Func(CALLER, 0)
  {
    var p :| InFile(FIRST, p, f);
    assert p == "main.bc" && f.index < 2;
  }

  lemma BothProgram(f: Func)
    requires InProgram(FIRST + SECOND, f)
    ensures f == Func(CALLER, 0) || f == Func(HELPER, 0)
  {
    var p :| InFile(FIRST + SECOND, p, f);
    if p == "helper.bc" {
      assert f.index < 1;
    } else {
      assert InFile(FIRST, p, f);
      FirstProgram(f);
    }
  }

  lemma CallerWellFormed()
    ensures WellFormed(CALLER) && WellFormed(HELPER)
  {
  }

  lemma BothLinkable()
    ensures Linkable(FIRST) && Linkable(FIRST + SECOND)
  {
    CallerWellFormed();
    hide WellFormed;
    forall f | InProgram(FIRST, f) ensures f == Func(CALLER, 0) { FirstProgram(f); }
    forall f | InProgram(FIRST + SECOND, f) ensures f == Func(CALLER, 0) || f == Func(HELPER, 0) { BothProgram(f); }
  }

  lemma BatchesLoadable(s: State)
    requires Next(EMPTY, FIRST, s)
    ensures Loadable(EMPTY, FIRST) && Loadable(s, SECOND)
    ensures s.loaded == FIRST && 2 !in s.globals
  {
    assert EMPTY.loaded + FIRST == FIRST;
    BothLinkable();
    if 2 in s.globals {
      FirstProgram(s.globals[2]);
    }
  }

  lemma HelperCaptured(s: State)
    requires Next(EMPTY, FIRST, s)
    ensures Captured(s, SECOND, "main.bc", Func(CALLER, 0), Func(CALLER, 1), "helper.bc", Func(HELPER, 0))
  {
    BatchesLoadable(s);
    var main := Func(CALLER, 0);
    assert main.Info().calls[0] == Direct(1);
    assert InFile(s.loaded, "main.bc", main);
    MainUntouched(s);
    hide Next, Touched, Loadable;
  }

  lemma MainUntouched(s: State)
    requires Next(EMPTY, FIRST, s)
    ensures "main.bc" !in Touched(s, SECOND) && "main.bc" in s.seen && s.seen["main.bc"] == s.globals
  {
    BatchesLoadable(s);
    EmptyInv();
    UpdateKeepsInv(EMPTY, FIRST, s);
    hide Inv, Loadable, Linkable;
  }

  /** `main` calls `helper` before any file defines it. When a new file defines it, nobody
      is on record as a caller of that file, so `main` keeps no edge to it. */
  lemma LateDefinitionIsMissed(s: State, t: State, r: State)
    requires Next(EMPTY, FIRST, s) && Next(s, SECOND, t) && Built(t.loaded, r)
    ensures Loadable(EMPTY, FIRST) && Loadable(s, SECOND)
    ensures Func(HELPER, 0) in Get(r.callees, Func(CALLER, 0))
    ensures Func(HELPER, 0) !in Get(t.callees, Func(CALLER, 0))
  {
    var main, decl, helper := Func(CALLER, 0), Func(CALLER, 1), Func(HELPER, 0);
    BatchesLoadable(s);
    HelperCaptured(s);
    hide Touched, Loadable, Captured, Linkable, NextCallees, NextCallers, NextCallerPaths, RowsExact;
    EmptyInv();
    UpdateKeepsInv(EMPTY, FIRST, s);
    UpdateKeepsInv(s, SECOND, t);
    CapturedIsMissed(s, SECOND, t, "main.bc", main, decl, "helper.bc", helper);
    MissedTarget(t, r, "main.bc", main, decl);
    assert InProgram(t.loaded, t.globals[2]);
    BothProgram(t.globals[2]);
  }

  lemma MissedTarget(s: State, r: State, p: Path, f: Func, c: Func)
    requires Inv(s) && Built(s.loaded, r) && Missed(s, p, f, c)
    ensures s.globals[c.Guid()] in Get(r.callees, f) && s.globals[c.Guid()] !in Get(s.callees, f)
  {
    MissedEdge(s, p, f, c);
    BuiltCallees(s, r, f);
  }
}
