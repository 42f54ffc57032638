/** The pass that scans a list of modules: exported definitions first, then the calls of
    every function, then the removal of what stayed a declaration. */
module CallGraphPass {
  import opened MultiMap
  import opened Program
  import opened CallGraphState

  datatype Entry = Entry(mod: Module, path: Path)

  function PathOf(names: map<Module, Path>, m: Module): Path {
    if m in names then names[m] else ""
  }

  class GlobalContext {
    var Modules: seq<Entry>
    var ModuleMaps: map<Module, Path>
    var ModuleRevMaps: map<Path, Module>
    var GlobalFuncMap: map<nat, Func>
    var Callees: map<Func, set<Func>>
    var Callers: map<Func, set<Func>>
    var CallerPaths: map<Path, set<Path>>
    var BCFuncs: map<Path, map<string, Func>>
    ghost var Seen: map<Path, map<nat, Func>>

    constructor ()
      ensures Snapshot() == EMPTY && Modules == [] && ModuleMaps == map[]
    {
      Modules, ModuleMaps, ModuleRevMaps := [], map[], map[];
      GlobalFuncMap, Callees, Callers, CallerPaths, BCFuncs := map[], map[], map[], map[], map[];
      Seen := map[];
    }

    ghost function Snapshot(): State
      reads this
    {
      State(ModuleRevMaps, GlobalFuncMap, Callees, Callers, CallerPaths, BCFuncs, Seen)
    }

    ghost function Linked(): Links
      reads this
    {
      Links(Callees, Callers, CallerPaths)
    }
  }

  // ---- What scanning a set of functions adds ----

  /** The three maps that the scan of a call extends. */
  datatype Links = Links(callees: map<Func, set<Func>>, callers: map<Func, set<Func>>, paths: map<Path, set<Path>>)

  ghost predicate AddedCallees(globals: map<nat, Func>, scanned: set<Func>, a: Links, b: Links) {
    forall h {:trigger Get(b.callees, h)} ::
      Get(b.callees, h) == Get(a.callees, h) + (if h in scanned then Targets(globals, h) else {})
  }

  ghost predicate AddedCallers(globals: map<nat, Func>, scanned: set<Func>, a: Links, b: Links) {
    forall f, g {:trigger f in Get(b.callers, g)} ::
      f in Get(b.callers, g) <==> f in Get(a.callers, g) || (f in scanned && g in Targets(globals, f))
  }

  /** One of `targets` is in the file `p`. */
  ghost predicate SomeIn(names: map<Module, Path>, targets: set<Func>, p: Path) {
    exists g :: g in targets && PathOf(names, g.parent) == p
  }

  /** A function of `scanned` in the file `q` calls into the file `p`. */
  ghost predicate Crosses(globals: map<nat, Func>, names: map<Module, Path>, scanned: set<Func>, q: Path, p: Path) {
    exists f :: f in scanned && PathOf(names, f.parent) == q && SomeIn(names, Targets(globals, f), p)
  }

  ghost predicate AddedPaths(globals: map<nat, Func>, names: map<Module, Path>, scanned: set<Func>, a: Links, b: Links) {
    forall p, q {:trigger q in Get(b.paths, p)} ::
      q in Get(b.paths, p) <==> q in Get(a.paths, p) || Crosses(globals, names, scanned, q, p)
  }

  ghost predicate Added(globals: map<nat, Func>, names: map<Module, Path>, scanned: set<Func>, a: Links, b: Links) {
    AddedCallees(globals, scanned, a, b) && AddedCallers(globals, scanned, a, b) && AddedPaths(globals, names, scanned, a, b)
  }

  lemma AddedNothing(globals: map<nat, Func>, names: map<Module, Path>, a: Links)
    ensures Added(globals, names, {}, a, a)
  {
  }

  lemma AddedCompose(globals: map<nat, Func>, names: map<Module, Path>, s: set<Func>, t: set<Func>, a: Links, b: Links, c: Links)
    requires Added(globals, names, s, a, b) && Added(globals, names, t, b, c)
    ensures Added(globals, names, s + t, a, c)
  {
    forall h ensures Get(c.callees, h) == Get(a.callees, h) + (if h in s + t then Targets(globals, h) else {}) {
      assert Get(b.callees, h) == Get(a.callees, h) + (if h in s then Targets(globals, h) else {});
    }
    forall f, g ensures f in Get(c.callers, g) <==> f in Get(a.callers, g) || (f in s + t && g in Targets(globals, f)) {
      assert f in Get(b.callers, g) <==> f in Get(a.callers, g) || (f in s && g in Targets(globals, f));
    }
    forall p, q ensures q in Get(c.paths, p) <==> q in Get(a.paths, p) || Crosses(globals, names, s + t, q, p) {
      assert q in Get(b.paths, p) <==> q in Get(a.paths, p) || Crosses(globals, names, s, q, p);
      CrossesUnion(globals, names, s, t, q, p);
    }
  }

  lemma CrossesUnion(globals: map<nat, Func>, names: map<Module, Path>, s: set<Func>, t: set<Func>, q: Path, p: Path)
    ensures Crosses(globals, names, s + t, q, p) <==> Crosses(globals, names, s, q, p) || Crosses(globals, names, t, q, p)
  {
  }

  /** What the calls of `f` seen so far, with the targets `found`, add. */
  ghost predicate SoFarCallees(f: Func, found: set<Func>, a: Links, b: Links) {
    forall h {:trigger Get(b.callees, h)} :: Get(b.callees, h) == Get(a.callees, h) + (if h == f then found else {})
  }

  ghost predicate SoFarCallers(f: Func, found: set<Func>, a: Links, b: Links) {
    forall h, g {:trigger h in Get(b.callers, g)} ::
      h in Get(b.callers, g) <==> h in Get(a.callers, g) || (h == f && g in found)
  }

  ghost predicate SoFarPaths(names: map<Module, Path>, f: Func, found: set<Func>, a: Links, b: Links) {
    forall p, q {:trigger q in Get(b.paths, p)} ::
      q in Get(b.paths, p) <==> q in Get(a.paths, p) || (q == PathOf(names, f.parent) && SomeIn(names, found, p))
  }

  ghost predicate SoFar(names: map<Module, Path>, f: Func, found: set<Func>, a: Links, b: Links) {
    SoFarCallees(f, found, a, b) && SoFarCallers(f, found, a, b) && SoFarPaths(names, f, found, a, b)
  }

  lemma SoFarCalleesStep(f: Func, found: set<Func>, cf: Func, a: Links, b: Links, c: Links)
    requires SoFarCallees(f, found, a, b) && c.callees == Insert(b.callees, f, cf)
    ensures SoFarCallees(f, found + {cf}, a, c)
  {
    forall h ensures Get(c.callees, h) == Get(a.callees, h) + (if h == f then found + {cf} else {}) {
      assert Get(b.callees, h) == Get(a.callees, h) + (if h == f then found else {});
    }
  }

  lemma SoFarCallersStep(f: Func, found: set<Func>, cf: Func, a: Links, b: Links, c: Links)
    requires SoFarCallers(f, found, a, b) && c.callers == Insert(b.callers, cf, f)
    ensures SoFarCallers(f, found + {cf}, a, c)
  {
    forall h, g ensures h in Get(c.callers, g) <==> h in Get(a.callers, g) || (h == f && g in found + {cf}) {
      assert h in Get(b.callers, g) <==> h in Get(a.callers, g) || (h == f && g in found);
    }
  }

  lemma SoFarPathsStep(names: map<Module, Path>, f: Func, found: set<Func>, cf: Func, a: Links, b: Links, c: Links)
    requires SoFarPaths(names, f, found, a, b)
    requires c.paths == Insert(b.paths, PathOf(names, cf.parent), PathOf(names, f.parent))
    ensures SoFarPaths(names, f, found + {cf}, a, c)
  {
    forall p, q
      ensures q in Get(c.paths, p) <==>
              q in Get(a.paths, p) || (q == PathOf(names, f.parent) && SomeIn(names, found + {cf}, p))
    {
      assert q in Get(b.paths, p) <==> q in Get(a.paths, p) || (q == PathOf(names, f.parent) && SomeIn(names, found, p));
      SomeInOneMore(names, found, cf, p);
    }
  }

  lemma SomeInOneMore(names: map<Module, Path>, found: set<Func>, cf: Func, p: Path)
    ensures SomeIn(names, found + {cf}, p) <==> SomeIn(names, found, p) || PathOf(names, cf.parent) == p
  {
    if PathOf(names, cf.parent) == p { assert cf in found + {cf}; }
  }

  lemma SoFarAll(globals: map<nat, Func>, names: map<Module, Path>, f: Func, a: Links, b: Links)
    requires SoFar(names, f, Targets(globals, f), a, b)
    ensures Added(globals, names, {f}, a, b)
  {
    forall p, q ensures q in Get(b.paths, p) <==> q in Get(a.paths, p) || Crosses(globals, names, {f}, q, p) {
      if q == PathOf(names, f.parent) && SomeIn(names, Targets(globals, f), p) {
        assert f in {f};
      }
    }
  }

  // ---- Exported definitions ----

  /** The first `n` functions of a module, those it exports, by GUID. */
  function Exports(m: Module, n: nat): map<nat, Func>
    requires n <= |m.funcs|
  {
    if n == 0 then map[]
    else if Func(m, n - 1).Exported() then Exports(m, n - 1)[m.funcs[n - 1].guid := Func(m, n - 1)]
    else Exports(m, n - 1)
  }

  function AllExports(globals: map<nat, Func>, mlist: seq<Entry>, n: nat): map<nat, Func>
    requires n <= |mlist|
  {
    if n == 0 then globals
    else AllExports(globals, mlist, n - 1) + Exports(mlist[n - 1].mod, |mlist[n - 1].mod.funcs|)
  }

  lemma {:induction false} ExportsExact(m: Module, n: nat)
    requires WellFormed(m) && n <= |m.funcs|
    ensures forall i | 0 <= i < n :: Func(m, i).Exported() ==>
              m.funcs[i].guid in Exports(m, n) && Exports(m, n)[m.funcs[i].guid] == Func(m, i)
    ensures forall k | k in Exports(m, n) ::
              Exports(m, n)[k].parent == m && Exports(m, n)[k].index < n && Exports(m, n)[k].Exported() && Exports(m, n)[k].Guid() == k
  {
    if n > 0 {
      ExportsExact(m, n - 1);
    }
  }

  /** A function some listed module exports, under its GUID. */
  ghost predicate Offered(mlist: seq<Entry>, n: nat, k: nat, f: Func)
    requires n <= |mlist|
  {
    f.Exported() && f.Guid() == k && exists i :: 0 <= i < n && mlist[i].mod == f.parent
  }

  lemma {:induction false} AllExportsExact(globals: map<nat, Func>, mlist: seq<Entry>, n: nat, k: nat)
    requires n <= |mlist| && forall i | 0 <= i < |mlist| :: WellFormed(mlist[i].mod)
    ensures k in AllExports(globals, mlist, n) <==> k in globals || exists f :: Offered(mlist, n, k, f)
    ensures k in AllExports(globals, mlist, n) ==>
              || Offered(mlist, n, k, AllExports(globals, mlist, n)[k])
              || ((!exists f :: Offered(mlist, n, k, f)) && k in globals && AllExports(globals, mlist, n)[k] == globals[k])
  {
    if n > 0 {
      var m := mlist[n - 1].mod;
      AllExportsExact(globals, mlist, n - 1, k);
      ExportsExact(m, |m.funcs|);
      forall f ensures Offered(mlist, n, k, f) <==>
                       Offered(mlist, n - 1, k, f) || (f.parent == m && f.Exported() && f.Guid() == k)
      {
      }
      if k in Exports(m, |m.funcs|) {
        assert Offered(mlist, n, k, Exports(m, |m.funcs|)[k]);
      }
    }
  }

  // ---- The pass ----

  /** What `doFinalization` makes of a callee set. */
  function Finalized(globals: map<nat, Func>, targets: set<Func>): set<Func> {
    (set f | f in targets && f.Defined()) +
    (set f | f in targets && f.Exists() && !f.Defined() && f.Guid() in globals :: globals[f.Guid()])
  }

  lemma FinalizedIsEdges(globals: map<nat, Func>, f: Func)
    requires forall k | k in globals :: globals[k].Defined()
    ensures Finalized(globals, Targets(globals, f)) == Edges(globals, f)
  {
    forall h | h in Targets(globals, f) && h.Exists() && !h.Defined() ensures h.Guid() !in globals {
      var c :| c in f.Operands() && h == Resolve(globals, c);
    }
  }

  function TargetsUpTo(globals: map<nat, Func>, f: Func, n: nat): set<Func>
    requires f.Exists() && n <= |f.Info().calls|
  {
    if n == 0 then {}
    else if f.Info().calls[n - 1].Direct? then
      TargetsUpTo(globals, f, n - 1) + {Resolve(globals, Func(f.parent, f.Info().calls[n - 1].callee))}
    else TargetsUpTo(globals, f, n - 1)
  }

  lemma {:induction false} TargetsUpToExact(globals: map<nat, Func>, f: Func, n: nat)
    requires f.Exists() && n <= |f.Info().calls|
    ensures forall g :: g in TargetsUpTo(globals, f, n) <==>
                        exists j :: 0 <= j < n && f.Info().calls[j].Direct? && g == Resolve(globals, Func(f.parent, f.Info().calls[j].callee))
  {
    if n > 0 { TargetsUpToExact(globals, f, n - 1); }
  }

  lemma TargetsUpToAll(globals: map<nat, Func>, f: Func)
    requires f.Exists()
    ensures TargetsUpTo(globals, f, |f.Info().calls|) == Targets(globals, f)
  {
    var calls := f.Info().calls;
    TargetsUpToExact(globals, f, |calls|);
    forall g | g in TargetsUpTo(globals, f, |calls|) ensures g in Targets(globals, f) {
      var j :| 0 <= j < |calls| && calls[j].Direct? && g == Resolve(globals, Func(f.parent, calls[j].callee));
      assert Func(f.parent, calls[j].callee) in f.Operands();
    }
  }

  lemma FinalizedOneMore(globals: map<nat, Func>, targets: set<Func>, f: Func)
    ensures Finalized(globals, targets + {f}) ==
            Finalized(globals, targets) +
            (if f.Defined() then {f} else if f.Exists() && f.Guid() in globals then {globals[f.Guid()]} else {})
  {
  }

  lemma FinalizedTwice(globals: map<nat, Func>, targets: set<Func>)
    requires forall k | k in globals :: globals[k].Defined()
    ensures Finalized(globals, Finalized(globals, targets)) == Finalized(globals, targets)
  {
  }

  /** The callee sets of the functions in `done` are finalised, the others untouched. */
  ghost predicate FinalizedOn(globals: map<nat, Func>, done: set<Func>, a: map<Func, set<Func>>, b: map<Func, set<Func>>) {
    forall h {:trigger Get(b, h)} :: Get(b, h) == if h in done then Finalized(globals, Get(a, h)) else Get(a, h)
  }

  lemma FinalizedCompose(globals: map<nat, Func>, s: set<Func>, t: set<Func>,
                         a: map<Func, set<Func>>, b: map<Func, set<Func>>, c: map<Func, set<Func>>)
    requires forall k | k in globals :: globals[k].Defined()
    requires FinalizedOn(globals, s, a, b) && FinalizedOn(globals, t, b, c)
    ensures FinalizedOn(globals, s + t, a, c)
  {
    forall h ensures Get(c, h) == if h in s + t then Finalized(globals, Get(a, h)) else Get(a, h) {
      FinalizedTwice(globals, Get(a, h));
      assert Get(b, h) == if h in s then Finalized(globals, Get(a, h)) else Get(a, h);
    }
  }

  // ---- Lists of modules ----

  function DefinitionsUpTo(m: Module, n: nat): set<Func>
    requires n <= |m.funcs|
  {
    set i | 0 <= i < n && !m.funcs[i].declaration :: Func(m, i)
  }

  function FunctionsUpTo(m: Module, n: nat): set<Func>
    requires n <= |m.funcs|
  {
    set i | 0 <= i < n :: Func(m, i)
  }

  /** The definitions of the first `n` listed modules. */
  function ScannedUpTo(mlist: seq<Entry>, n: nat): set<Func>
    requires n <= |mlist|
  {
    if n == 0 then {} else ScannedUpTo(mlist, n - 1) + Definitions(mlist[n - 1].mod)
  }

  /** Their definitions and declarations. */
  function ListedUpTo(mlist: seq<Entry>, n: nat): set<Func>
    requires n <= |mlist|
  {
    if n == 0 then {} else ListedUpTo(mlist, n - 1) + FunctionsUpTo(mlist[n - 1].mod, |mlist[n - 1].mod.funcs|)
  }

  ghost predicate Lists(mlist: seq<Entry>, n: nat, m: Module)
    requires n <= |mlist|
  {
    exists i :: 0 <= i < n && mlist[i].mod == m
  }

  lemma {:induction false} ScannedExact(mlist: seq<Entry>, n: nat, h: Func)
    requires n <= |mlist|
    ensures h in ScannedUpTo(mlist, n) <==> h.Defined() && Lists(mlist, n, h.parent)
    ensures h in ListedUpTo(mlist, n) <==> h.Exists() && Lists(mlist, n, h.parent)
  {
    if n > 0 {
      ScannedExact(mlist, n - 1, h);
      var m := mlist[n - 1].mod;
      assert h in Definitions(m) <==> h.Defined() && h.parent == m;
      assert h in FunctionsUpTo(m, |m.funcs|) <==> h.Exists() && h.parent == m;
      assert Lists(mlist, n, h.parent) <==> Lists(mlist, n - 1, h.parent) || h.parent == m;
    }
  }

  /** The rows of the listed modules gained their definitions, the others did not change. */
  ghost predicate RowsAdded(names: map<Module, Path>, mlist: seq<Entry>, n: nat,
                            a: map<Path, map<string, Func>>, b: map<Path, map<string, Func>>)
    requires n <= |mlist|
  {
    && (forall i | 0 <= i < n :: RowAdded(mlist[i].mod, PathOf(names, mlist[i].mod), a, b))
    && (forall p {:trigger Row(b, p)} | (forall i | 0 <= i < n :: PathOf(names, mlist[i].mod) != p) :: Row(b, p) == Row(a, p))
  }

  ghost predicate RowAdded(m: Module, p: Path, a: map<Path, map<string, Func>>, b: map<Path, map<string, Func>>) {
    Row(b, p) == Row(a, p) + ByName(m, |m.funcs|)
  }

  lemma RowsAddedStep(names: map<Module, Path>, mlist: seq<Entry>, n: nat,
                      a: map<Path, map<string, Func>>, b: map<Path, map<string, Func>>, c: map<Path, map<string, Func>>)
    requires n < |mlist| && RowsAdded(names, mlist, n, a, b)
    requires forall i, j | 0 <= i < j < |mlist| :: PathOf(names, mlist[i].mod) != PathOf(names, mlist[j].mod)
    requires RowAdded(mlist[n].mod, PathOf(names, mlist[n].mod), b, c)
    requires forall p {:trigger Row(c, p)} | p != PathOf(names, mlist[n].mod) :: Row(c, p) == Row(b, p)
    ensures RowsAdded(names, mlist, n + 1, a, c)
  {
    var here := PathOf(names, mlist[n].mod);
    assert Row(b, here) == Row(a, here);
    forall i | 0 <= i < n + 1 ensures RowAdded(mlist[i].mod, PathOf(names, mlist[i].mod), a, c) {
      if i < n {
        assert RowAdded(mlist[i].mod, PathOf(names, mlist[i].mod), a, b);
        assert Row(c, PathOf(names, mlist[i].mod)) == Row(b, PathOf(names, mlist[i].mod));
      }
    }
    forall p | (forall i | 0 <= i < n + 1 :: PathOf(names, mlist[i].mod) != p) ensures Row(c, p) == Row(a, p) {
      assert p != here;
      assert Row(b, p) == Row(a, p);
    }
  }

  /** The row of one module gained its first `n` definitions, the others did not change. */
  ghost predicate RowSoFar(m: Module, n: nat, path: Path, a: map<Path, map<string, Func>>, b: map<Path, map<string, Func>>)
    requires n <= |m.funcs|
  {
    && Row(b, path) == Row(a, path) + ByName(m, n)
    && (forall p {:trigger Row(b, p)} | p != path :: Row(b, p) == Row(a, p))
  }

  lemma PassStarts(m: Module, path: Path, rows: map<Path, map<string, Func>>)
    ensures DefinitionsUpTo(m, 0) == {} && DefinitionsUpTo(m, |m.funcs|) == Definitions(m)
    ensures RowSoFar(m, 0, path, rows, rows)
  {
  }

  lemma RowStep(m: Module, n: nat, path: Path, a: map<Path, map<string, Func>>, b: map<Path, map<string, Func>>, c: map<Path, map<string, Func>>)
    requires n < |m.funcs| && RowSoFar(m, n, path, a, b)
    requires if m.funcs[n].declaration then c == b
             else forall p :: Row(c, p) == if p == path then Row(b, p)[m.funcs[n].name := Func(m, n)] else Row(b, p)
    ensures RowSoFar(m, n + 1, path, a, c)
  {
  }

  lemma RowDone(m: Module, path: Path, a: map<Path, map<string, Func>>, b: map<Path, map<string, Func>>)
    requires RowSoFar(m, |m.funcs|, path, a, b)
    ensures RowAdded(m, path, a, b)
    ensures forall p {:trigger Row(b, p)} | p != path :: Row(b, p) == Row(a, p)
  {
  }

  lemma DefinitionsStep(m: Module, n: nat)
    requires n < |m.funcs|
    ensures DefinitionsUpTo(m, n + 1) == DefinitionsUpTo(m, n) + if m.funcs[n].declaration then {} else {Func(m, n)}
  {
  }

  class CallGraphPass {
    const Ctx: GlobalContext

    constructor (ctx: GlobalContext)
      ensures Ctx == ctx
    {
      Ctx := ctx;
    }

    method DoInitialization(m: Module)
      modifies Ctx`GlobalFuncMap
      ensures Ctx.GlobalFuncMap == old(Ctx.GlobalFuncMap) + Exports(m, |m.funcs|)
    {
      var i := 0;
      while i < |m.funcs|
        invariant i <= |m.funcs|
        invariant Ctx.GlobalFuncMap == old(Ctx.GlobalFuncMap) + Exports(m, i)
      {
        if !m.funcs[i].declaration && m.funcs[i].external {
          Ctx.GlobalFuncMap := Ctx.GlobalFuncMap[m.funcs[i].guid := Func(m, i)];
        }
        i := i + 1;
      }
    }

    /** The direct-call branch, for the called operand `operand` of `f`. */
    method LinkCall(f: Func, operand: Func, ghost found: set<Func>, ghost before: Links)
      requires SoFar(Ctx.ModuleMaps, f, found, before, Ctx.Linked())
      modifies Ctx`Callees, Ctx`Callers, Ctx`CallerPaths
      ensures SoFar(Ctx.ModuleMaps, f, found + {Resolve(Ctx.GlobalFuncMap, operand)}, before, Ctx.Linked())
    {
      var cf := operand;
      if cf.Exists() && cf.Info().declaration {
        if cf.Guid() in Ctx.GlobalFuncMap {
          cf := Ctx.GlobalFuncMap[cf.Guid()];
        }
      }
      ghost var sofar := Ctx.Linked();
      Ctx.Callees := Insert(Ctx.Callees, f, cf);
      Ctx.Callers := Insert(Ctx.Callers, cf, f);
      Ctx.CallerPaths := Insert(Ctx.CallerPaths, PathOf(Ctx.ModuleMaps, cf.parent), PathOf(Ctx.ModuleMaps, f.parent));
      SoFarCalleesStep(f, found, cf, before, sofar, Ctx.Linked());
      SoFarCallersStep(f, found, cf, before, sofar, Ctx.Linked());
      SoFarPathsStep(Ctx.ModuleMaps, f, found, cf, before, sofar, Ctx.Linked());
    }

    method DoMLTA(f: Func)
      requires f.Defined()
      modifies Ctx`Callees, Ctx`Callers, Ctx`CallerPaths, Ctx`BCFuncs
      ensures Added(Ctx.GlobalFuncMap, Ctx.ModuleMaps, {f}, old(Ctx.Linked()), Ctx.Linked())
      ensures forall p :: Row(Ctx.BCFuncs, p) ==
                          if p == PathOf(Ctx.ModuleMaps, f.parent) then Row(old(Ctx.BCFuncs), p)[f.Info().name := f]
                          else Row(old(Ctx.BCFuncs), p)
    {
      var path := PathOf(Ctx.ModuleMaps, f.parent);
      Ctx.BCFuncs := Ctx.BCFuncs[path := Row(Ctx.BCFuncs, path)[f.Info().name := f]];
      ghost var before, rows := Ctx.Linked(), Ctx.BCFuncs;
      var calls := f.Info().calls;
      var i := 0;
      while i < |calls|
        invariant i <= |calls|
        invariant Ctx.BCFuncs == rows
        invariant SoFar(Ctx.ModuleMaps, f, TargetsUpTo(Ctx.GlobalFuncMap, f, i), before, Ctx.Linked())
      {
        if calls[i].Direct? {
          LinkCall(f, Func(f.parent, calls[i].callee), TargetsUpTo(Ctx.GlobalFuncMap, f, i), before);
        }
        i := i + 1;
      }
      TargetsUpToAll(Ctx.GlobalFuncMap, f);
      SoFarAll(Ctx.GlobalFuncMap, Ctx.ModuleMaps, f, before, Ctx.Linked());
    }

    method DoModulePass(m: Module)
      modifies Ctx`Callees, Ctx`Callers, Ctx`CallerPaths, Ctx`BCFuncs
      ensures Added(Ctx.GlobalFuncMap, Ctx.ModuleMaps, Definitions(m), old(Ctx.Linked()), Ctx.Linked())
      ensures RowAdded(m, PathOf(Ctx.ModuleMaps, m), old(Ctx.BCFuncs), Ctx.BCFuncs)
      ensures forall p {:trigger Row(Ctx.BCFuncs, p)} | p != PathOf(Ctx.ModuleMaps, m) ::
                Row(Ctx.BCFuncs, p) == Row(old(Ctx.BCFuncs), p)
    {
      ghost var before, rows := Ctx.Linked(), Ctx.BCFuncs;
      var path := PathOf(Ctx.ModuleMaps, m);
      AddedNothing(Ctx.GlobalFuncMap, Ctx.ModuleMaps, before);
      PassStarts(m, path, rows);
      hide Added, RowSoFar, Row, DefinitionsUpTo, Definitions;
      var i := 0;
      while i < |m.funcs|
        invariant i <= |m.funcs|
        invariant Added(Ctx.GlobalFuncMap, Ctx.ModuleMaps, DefinitionsUpTo(m, i), before, Ctx.Linked())
        invariant RowSoFar(m, i, path, rows, Ctx.BCFuncs)
      {
        if !m.funcs[i].declaration {
          PassFunction(m, i, before, rows);
        } else {
          DefinitionsStep(m, i);
          RowStep(m, i, path, rows, Ctx.BCFuncs, Ctx.BCFuncs);
        }
        i := i + 1;
      }
      RowDone(m, path, rows, Ctx.BCFuncs);
    }

    /** One definition of a module, after the `i` functions before it. */
    method PassFunction(m: Module, i: nat, ghost before: Links, ghost rows: map<Path, map<string, Func>>)
      requires i < |m.funcs| && !m.funcs[i].declaration
      requires Added(Ctx.GlobalFuncMap, Ctx.ModuleMaps, DefinitionsUpTo(m, i), before, Ctx.Linked())
      requires RowSoFar(m, i, PathOf(Ctx.ModuleMaps, m), rows, Ctx.BCFuncs)
      modifies Ctx`Callees, Ctx`Callers, Ctx`CallerPaths, Ctx`BCFuncs
      ensures Added(Ctx.GlobalFuncMap, Ctx.ModuleMaps, DefinitionsUpTo(m, i + 1), before, Ctx.Linked())
      ensures RowSoFar(m, i + 1, PathOf(Ctx.ModuleMaps, m), rows, Ctx.BCFuncs)
    {
      hide Added, RowSoFar, Row, DefinitionsUpTo;
      var f := Func(m, i);
      ghost var sofar, was := Ctx.Linked(), Ctx.BCFuncs;
      DoMLTA(f);
      DefinitionsStep(m, i);
      AddedCompose(Ctx.GlobalFuncMap, Ctx.ModuleMaps, DefinitionsUpTo(m, i), {f}, before, sofar, Ctx.Linked());
      RowStep(m, i, PathOf(Ctx.ModuleMaps, m), rows, was, Ctx.BCFuncs);
    }

    method FinalizeFunction(cf: Func)
      modifies Ctx`Callees
      ensures FinalizedOn(Ctx.GlobalFuncMap, {cf}, old(Ctx.Callees), Ctx.Callees)
    {
      var all := Get(Ctx.Callees, cf);
      var todo := all;
      var fs: set<Func> := {};
      ghost var done: set<Func> := {};
      assert Finalized(Ctx.GlobalFuncMap, {}) == {};
      hide Finalized;
      while todo != {}
        invariant done <= all && todo == all - done
        invariant fs == Finalized(Ctx.GlobalFuncMap, done)
        invariant Ctx.Callees == old(Ctx.Callees)
        decreases |todo|
      {
        var f :| f in todo;
        todo := todo - {f};
        MoveOver(all, done, f);
        FinalizedOneMore(Ctx.GlobalFuncMap, done, f);
        done := done + {f};
        if f.Exists() && f.Info().declaration {
          if f.Guid() in Ctx.GlobalFuncMap {
            fs := fs + {Ctx.GlobalFuncMap[f.Guid()]};
          }
        } else if f.Exists() {
          fs := fs + {f};
        }
      }
      assert done == all;
      Ctx.Callees := Ctx.Callees[cf := fs];
    }

    method FinalizeModule(m: Module)
      requires forall k | k in Ctx.GlobalFuncMap :: Ctx.GlobalFuncMap[k].Defined()
      modifies Ctx`Callees
      ensures FinalizedOn(Ctx.GlobalFuncMap, FunctionsUpTo(m, |m.funcs|), old(Ctx.Callees), Ctx.Callees)
    {
      var i := 0;
      while i < |m.funcs|
        invariant i <= |m.funcs|
        invariant FinalizedOn(Ctx.GlobalFuncMap, FunctionsUpTo(m, i), old(Ctx.Callees), Ctx.Callees)
      {
        ghost var sofar := Ctx.Callees;
        FinalizeFunction(Func(m, i));
        FinalizedCompose(Ctx.GlobalFuncMap, FunctionsUpTo(m, i), {Func(m, i)}, old(Ctx.Callees), sofar, Ctx.Callees);
        assert FunctionsUpTo(m, i + 1) == FunctionsUpTo(m, i) + {Func(m, i)};
        i := i + 1;
      }
    }

    method DoFinalization(mlist: seq<Entry>)
      requires forall k | k in Ctx.GlobalFuncMap :: Ctx.GlobalFuncMap[k].Defined()
      modifies Ctx`Callees
      ensures FinalizedOn(Ctx.GlobalFuncMap, ListedUpTo(mlist, |mlist|), old(Ctx.Callees), Ctx.Callees)
    {
      var i := 0;
      while i < |mlist|
        invariant i <= |mlist|
        invariant FinalizedOn(Ctx.GlobalFuncMap, ListedUpTo(mlist, i), old(Ctx.Callees), Ctx.Callees)
      {
        ghost var sofar := Ctx.Callees;
        FinalizeModule(mlist[i].mod);
        FinalizedCompose(Ctx.GlobalFuncMap, ListedUpTo(mlist, i), FunctionsUpTo(mlist[i].mod, |mlist[i].mod.funcs|),
                         old(Ctx.Callees), sofar, Ctx.Callees);
        i := i + 1;
      }
    }

    method InitializeAll(mlist: seq<Entry>)
      modifies Ctx`GlobalFuncMap
      ensures Ctx.GlobalFuncMap == AllExports(old(Ctx.GlobalFuncMap), mlist, |mlist|)
    {
      var i := 0;
      while i < |mlist|
        invariant i <= |mlist|
        invariant Ctx.GlobalFuncMap == AllExports(old(Ctx.GlobalFuncMap), mlist, i)
      {
        DoInitialization(mlist[i].mod);
        i := i + 1;
      }
    }

    method ScanAll(mlist: seq<Entry>)
      requires forall i, j | 0 <= i < j < |mlist| ::
                 PathOf(Ctx.ModuleMaps, mlist[i].mod) != PathOf(Ctx.ModuleMaps, mlist[j].mod)
      modifies Ctx`Callees, Ctx`Callers, Ctx`CallerPaths, Ctx`BCFuncs
      ensures Added(Ctx.GlobalFuncMap, Ctx.ModuleMaps, ScannedUpTo(mlist, |mlist|), old(Ctx.Linked()), Ctx.Linked())
      ensures RowsAdded(Ctx.ModuleMaps, mlist, |mlist|, old(Ctx.BCFuncs), Ctx.BCFuncs)
    {
      ghost var before := Ctx.Linked();
      AddedNothing(Ctx.GlobalFuncMap, Ctx.ModuleMaps, before);
      assert RowsAdded(Ctx.ModuleMaps, mlist, 0, Ctx.BCFuncs, Ctx.BCFuncs);
      hide Added, RowsAdded, RowAdded, Definitions, Row;
      var i := 0;
      while i < |mlist|
        invariant i <= |mlist|
        invariant Added(Ctx.GlobalFuncMap, Ctx.ModuleMaps, ScannedUpTo(mlist, i), before, Ctx.Linked())
        invariant RowsAdded(Ctx.ModuleMaps, mlist, i, old(Ctx.BCFuncs), Ctx.BCFuncs)
      {
        ghost var sofar, rows := Ctx.Linked(), Ctx.BCFuncs;
        DoModulePass(mlist[i].mod);
        AddedCompose(Ctx.GlobalFuncMap, Ctx.ModuleMaps, ScannedUpTo(mlist, i), Definitions(mlist[i].mod),
                     before, sofar, Ctx.Linked());
        RowsAddedStep(Ctx.ModuleMaps, mlist, i, old(Ctx.BCFuncs), rows, Ctx.BCFuncs);
        i := i + 1;
      }
    }

    /** Initialise every listed module, scan every one, then finalise. The maps between the
        last two steps are `added`. */
    method Run(mlist: seq<Entry>) returns (ghost added: Links)
      requires forall i | 0 <= i < |mlist| :: WellFormed(mlist[i].mod)
      requires forall i, j | 0 <= i < j < |mlist| ::
                 PathOf(Ctx.ModuleMaps, mlist[i].mod) != PathOf(Ctx.ModuleMaps, mlist[j].mod)
      requires forall k | k in Ctx.GlobalFuncMap :: Ctx.GlobalFuncMap[k].Defined()
      modifies Ctx`GlobalFuncMap, Ctx`Callees, Ctx`Callers, Ctx`CallerPaths, Ctx`BCFuncs
      ensures Ctx.GlobalFuncMap == AllExports(old(Ctx.GlobalFuncMap), mlist, |mlist|)
      ensures Added(Ctx.GlobalFuncMap, Ctx.ModuleMaps, ScannedUpTo(mlist, |mlist|), old(Ctx.Linked()), added)
      ensures FinalizedOn(Ctx.GlobalFuncMap, ListedUpTo(mlist, |mlist|), added.callees, Ctx.Callees)
      ensures Ctx.Callers == added.callers && Ctx.CallerPaths == added.paths
      ensures RowsAdded(Ctx.ModuleMaps, mlist, |mlist|, old(Ctx.BCFuncs), Ctx.BCFuncs)
    {
      InitializeAll(mlist);
      forall k | k in Ctx.GlobalFuncMap ensures Ctx.GlobalFuncMap[k].Defined() {
        AllExportsExact(old(Ctx.GlobalFuncMap), mlist, |mlist|, k);
      }
      ScanAll(mlist);
      added := Ctx.Linked();
      DoFinalization(mlist);
    }
  }
}
