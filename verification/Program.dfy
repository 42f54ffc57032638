/** What the call graph pass sees of a loaded bitcode file: its functions, in order, and
    the called operand of every call instruction of each. A function pointer is the
    loaded module together with the position of the function in it. */
module Program {

  type Path = string

  /** The called operand: a function of the same module (perhaps only declared there),
      or something that is not a function. */
  datatype Operand = Direct(callee: nat) | InlineAsm

  datatype FuncDef = FuncDef(name: string, guid: nat, declaration: bool, external: bool, calls: seq<Operand>)

  /** `version` tells apart two loads of the same file. */
  datatype Module = Module(version: nat, funcs: seq<FuncDef>)

  datatype Func = Func(parent: Module, index: nat) {
    predicate Exists() {
      index < |parent.funcs|
    }

    function Info(): FuncDef
      requires Exists()
    {
      parent.funcs[index]
    }

    predicate Defined() {
      Exists() && !Info().declaration
    }

    /** A definition that other modules can link against. */
    predicate Exported() {
      Defined() && Info().external
    }

    function Guid(): nat
      requires Exists()
    {
      Info().guid
    }

    function Operands(): set<Func> {
      if Exists() then
        set i | 0 <= i < |Info().calls| && Info().calls[i].Direct? :: Func(parent, Info().calls[i].callee)
      else {}
    }
  }

  /** Calls stay inside the module's function list, a declaration has no body, and the
      names (hence the GUIDs, which identify them) of one module's functions differ. */
  predicate WellFormed(m: Module) {
    && (forall i | 0 <= i < |m.funcs| :: m.funcs[i].declaration ==> m.funcs[i].calls == [])
    && (forall i, j | 0 <= i < |m.funcs| && 0 <= j < |m.funcs[i].calls| ::
          m.funcs[i].calls[j].Direct? ==> m.funcs[i].calls[j].callee < |m.funcs|)
    && (forall i, j | 0 <= i < j < |m.funcs| ::
          m.funcs[i].name != m.funcs[j].name && m.funcs[i].guid != m.funcs[j].guid)
  }

  function Definitions(m: Module): set<Func> {
    set i | 0 <= i < |m.funcs| && !m.funcs[i].declaration :: Func(m, i)
  }

  /** The definitions of a module by name: the row `BCFuncs` holds for it. */
  function ByName(m: Module, n: nat): map<string, Func>
    requires n <= |m.funcs|
  {
    if n == 0 then map[]
    else if m.funcs[n - 1].declaration then ByName(m, n - 1)
    else ByName(m, n - 1)[m.funcs[n - 1].name := Func(m, n - 1)]
  }

  lemma {:induction false} ByNameExact(m: Module, n: nat)
    requires WellFormed(m) && n <= |m.funcs|
    ensures ByName(m, n).Values == set i | 0 <= i < n && !m.funcs[i].declaration :: Func(m, i)
    ensures forall s :: s in ByName(m, n) ==>
                          exists i :: 0 <= i < n && m.funcs[i].name == s && ByName(m, n)[s] == Func(m, i)
  {
    if n > 0 {
      ByNameExact(m, n - 1);
      var before, after := ByName(m, n - 1), ByName(m, n);
      if !m.funcs[n - 1].declaration {
        var s := m.funcs[n - 1].name;
        assert s !in before;
        assert after.Values == before.Values + {Func(m, n - 1)} by {
          assert after[s] == Func(m, n - 1);
          forall f | f in before.Values ensures f in after.Values {
            var t :| t in before && before[t] == f;
            assert after[t] == f;
          }
        }
      }
    }
  }
}
