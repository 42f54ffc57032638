/** The part of the global context that a program of direct calls uses, and the step that
    one batch of reloaded files makes on it. */
module CallGraphState {
  import opened MultiMap
  import opened Program

  /** `seen` is a history variable: for each loaded file, the table of exported
      definitions it was last scanned against. The other fields do not depend on it. */
  datatype State = State(
    loaded: map<Path, Module>,
    globals: map<nat, Func>,
    callees: map<Func, set<Func>>,
    callers: map<Func, set<Func>>,
    callerPaths: map<Path, set<Path>>,
    bcFuncs: map<Path, map<string, Func>>,
    seen: map<Path, map<nat, Func>>)

  const EMPTY := State(map[], map[], map[], map[], map[], map[], map[])

  type Batch = map<Path, Module>

  // ---- Resolution of direct calls ----

  /** A declaration stands for the exported definition of its GUID, when there is one. */
  function Resolve(globals: map<nat, Func>, c: Func): Func {
    if c.Exists() && c.Info().declaration && c.Guid() in globals then globals[c.Guid()] else c
  }

  /** What `doMLTA` inserts for a function. */
  function Targets(globals: map<nat, Func>, f: Func): set<Func> {
    set c | c in f.Operands() :: Resolve(globals, c)
  }

  /** What `doFinalization` leaves of it: only definitions. */
  function Edges(globals: map<nat, Func>, f: Func): set<Func> {
    set g | g in Targets(globals, f) && g.Defined()
  }

  /** `f` is defined in the file `p`. */
  ghost predicate InFile(loaded: map<Path, Module>, p: Path, f: Func) {
    p in loaded && f.Defined() && f.parent == loaded[p]
  }

  ghost predicate InProgram(loaded: map<Path, Module>, f: Func) {
    exists p :: InFile(loaded, p, f)
  }

  /** `globals` lists exactly the exported definitions of the loaded files. */
  ghost predicate IsGlobals(loaded: map<Path, Module>, globals: map<nat, Func>) {
    && (forall f {:trigger InProgram(loaded, f)} :: InProgram(loaded, f) && f.Exported() ==> f.Guid() in globals && globals[f.Guid()] == f)
    && (forall k {:trigger globals[k]} | k in globals :: InProgram(loaded, globals[k]) && globals[k].Exported() && globals[k].Guid() == k)
  }

  /** An exported definition shares its GUID with no other definition of the program, and
      no module version is loaded under two paths. */
  ghost predicate Linkable(loaded: map<Path, Module>) {
    && (forall p {:trigger loaded[p]} | p in loaded :: WellFormed(loaded[p]))
    && (forall p, q {:trigger loaded[p], loaded[q]} | p in loaded && q in loaded :: loaded[p] == loaded[q] ==> p == q)
    && (forall f, g {:trigger InProgram(loaded, f), InProgram(loaded, g)} |
          InProgram(loaded, f) && InProgram(loaded, g) :: f.Exported() && f.Guid() == g.Guid() ==> f == g)
  }

  function Row(bcFuncs: map<Path, map<string, Func>>, p: Path): map<string, Func> {
    if p in bcFuncs then bcFuncs[p] else map[]
  }

  // ---- One update ----

  /** The files outside the batch that are scanned again: the recorded callers. */
  ghost function Affected(s: State, batch: Batch): set<Path> {
    (set p, q | p in batch && q in Get(s.callerPaths, p) :: q) - batch.Keys
  }

  ghost function Touched(s: State, batch: Batch): set<Path> {
    batch.Keys + Affected(s, batch)
  }

  /** The functions whose outgoing edges are torn down. */
  ghost predicate Torn(s: State, batch: Batch, f: Func) {
    exists p :: p in Touched(s, batch) && f in Row(s.bcFuncs, p).Values
  }

  /** The functions scanned again after the new versions are in place. */
  ghost predicate Scanned(loaded: map<Path, Module>, touched: set<Path>, f: Func) {
    exists p :: p in touched && InFile(loaded, p, f)
  }

  /** The files with a scanned function that calls into the file `p`. */
  ghost predicate CallsInto(loaded: map<Path, Module>, globals: map<nat, Func>, touched: set<Path>, q: Path, p: Path) {
    && q in touched && p in loaded
    && exists f, g :: InFile(loaded, q, f) && g in Targets(globals, f) && g.parent == loaded[p]
  }

  /** The batch can be loaded: versions not loaded now, and a program that still links. */
  ghost predicate Loadable(s: State, batch: Batch) {
    && (forall p, q {:trigger batch[p], s.loaded[q]} | p in batch && q in s.loaded :: batch[p] != s.loaded[q])
    && Linkable(s.loaded + batch)
  }

  /** Scanned functions get the edges their calls resolve to now, torn ones lose theirs. */
  ghost predicate NextCallees(s: State, batch: Batch, s': State) {
    forall f {:trigger Get(s'.callees, f)} :: Get(s'.callees, f) ==
                if Scanned(s'.loaded, Touched(s, batch), f) then Edges(s'.globals, f)
                else if Torn(s, batch, f) then {}
                else Get(s.callees, f)
  }

  /** A torn edge is removed at its other end, a scanned call is added, resolved or not. */
  ghost predicate NextCallers(s: State, batch: Batch, s': State) {
    forall f, g {:trigger f in Get(s'.callers, g)} :: f in Get(s'.callers, g) <==>
                   || (f in Get(s.callers, g) && !(Torn(s, batch, f) && g in Get(s.callees, f)))
                   || (Scanned(s'.loaded, Touched(s, batch), f) && g in Targets(s'.globals, f))
  }

  /** The batch disappears from both sides of the caller record, the scan adds to it. */
  ghost predicate NextCallerPaths(s: State, batch: Batch, s': State) {
    forall p, q {:trigger q in Get(s'.callerPaths, p)} :: q in Get(s'.callerPaths, p) <==>
                   || (q in Get(s.callerPaths, p) && p !in batch && q !in batch)
                   || CallsInto(s'.loaded, s'.globals, Touched(s, batch), q, p)
  }

  /** The functions on record for each file are its definitions. */
  ghost predicate RowsExact(s: State) {
    forall p {:trigger Row(s.bcFuncs, p)} :: Row(s.bcFuncs, p) == if p in s.loaded then ByName(s.loaded[p], |s.loaded[p].funcs|) else map[]
  }

  /** What `UpdateModules` does to the state. */
  ghost predicate Next(s: State, batch: Batch, s': State) {
    && s'.loaded == s.loaded + batch
    && IsGlobals(s'.loaded, s'.globals)
    && NextCallees(s, batch, s')
    && NextCallers(s, batch, s')
    && NextCallerPaths(s, batch, s')
    && RowsExact(s')
    && s'.seen == (map p | p in s'.loaded :: if p in Touched(s, batch) || p !in s.seen then s'.globals else s.seen[p])
  }
}
