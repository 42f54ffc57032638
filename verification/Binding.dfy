/** What it means to bind the arguments of a call to one overload: where every supplied
    argument goes, and when the overload is skipped. */
module Binding {
  import opened Options

  datatype Object = PyNone | Plain(id: int) | Tuple(items: seq<Object>) | Dict(entries: map<string, Object>)

  datatype Argument = Argument(name: Option<string>, value: Option<Object>, convert: bool, none: bool)

  datatype Function = Function(args: seq<Argument>, nargs: nat, nargsPos: nat, nargsPosOnly: nat,
                               hasArgs: bool, hasKwargs: bool, isMethod: bool) {
    function NumArgs(): int {
      nargs - (if hasArgs then 1 else 0) - (if hasKwargs then 1 else 0)
    }

    /** What registration leaves: every argument has a record, or none has. */
    ghost predicate Registered() {
      && nargsPosOnly <= nargsPos <= NumArgs()
      && (|args| == NumArgs() || (args == [] && nargsPosOnly == 0))
    }

    /** No argument after the positional ones lacks a record. */
    ghost predicate Ok() {
      Registered() && (args == [] ==> nargsPos == NumArgs())
    }
  }

  datatype Call = Call(args: seq<Object>, argsConvert: seq<bool>)

  type Keywords = map<string, Object>

  // ---- The slots ----

  function Copied(f: Function, n: nat): nat {
    if f.nargsPos <= n then f.nargsPos else n
  }

  /** The first slot that may be filled by keyword. */
  function Start(f: Function, n: nat): nat {
    if Copied(f, n) < f.nargsPosOnly then f.nargsPosOnly else Copied(f, n)
  }

  function NamesBetween(f: Function, from: nat, upTo: int): set<string> {
    set i | from <= i < upTo && i < |f.args| && f.args[i].name.Some? :: f.args[i].name.value
  }

  /** Slot `i` takes a keyword: the first slot of that name from the start. */
  predicate Takes(f: Function, n: nat, kw: Keywords, i: nat) {
    && Start(f, n) <= i < |f.args| && f.args[i].name.Some?
    && f.args[i].name.value in kw && f.args[i].name.value !in NamesBetween(f, Start(f, n), i)
  }

  function Slot(f: Function, ins: seq<Object>, kw: Keywords, i: nat): Option<Object> {
    if i < Copied(f, |ins|) then Some(ins[i])
    else if i >= |f.args| then None
    else if Takes(f, |ins|, kw, i) then Some(kw[f.args[i].name.value])
    else f.args[i].value
  }

  /** The keywords no slot before `upTo` takes. */
  function Untaken(f: Function, n: nat, kw: Keywords, upTo: int): Keywords {
    map key | key in kw && key !in NamesBetween(f, Start(f, n), upTo) :: kw[key]
  }

  function Leftover(f: Function, n: nat, kw: Keywords): Keywords {
    Untaken(f, n, kw, f.NumArgs())
  }

  // ---- When an overload is not skipped ----

  predicate CountOk(f: Function, n: nat) {
    (f.hasArgs || n <= f.nargsPos) && (f.nargsPos <= n || f.nargsPos <= |f.args|)
  }

  /** The binding goes on to the argument after the positional ones, and reads past the records,
      of which there are none. */
  ghost predicate PastRecords(f: Function, n: nat) {
    f.args == [] && f.nargsPos < f.NumArgs() && CountOk(f, n)
  }

  /** Binding never reads past the records exactly if an unannotated function has no arguments
      after `*args`. */
  lemma NeverPastIffOk(f: Function)
    requires f.Registered()
    ensures (forall n: nat :: !PastRecords(f, n)) <==> f.Ok()
  {
    assert CountOk(f, f.nargsPos);
    if !f.Ok() { assert PastRecords(f, f.nargsPos); }
  }

  /** A positional argument is not named again, and is not an unwelcome `None`. */
  predicate GivenOk(f: Function, ins: seq<Object>, kw: Keywords, i: nat)
    requires i < |ins|
  {
    i < |f.args| ==> (f.args[i].name.Some? ==> f.args[i].name.value !in kw) && (f.args[i].none || !ins[i].PyNone?)
  }

  ghost predicate AllGivenOk(f: Function, ins: seq<Object>, kw: Keywords, upTo: nat)
    requires upTo <= |ins|
  {
    forall i | 0 <= i < upTo :: GivenOk(f, ins, kw, i)
  }

  ghost predicate Filled(f: Function, ins: seq<Object>, kw: Keywords, upTo: int) {
    forall i: nat {:trigger Slot(f, ins, kw, i)} | i < upTo :: Slot(f, ins, kw, i).Some?
  }

  predicate NoneOk(f: Function, ins: seq<Object>, kw: Keywords, i: nat) {
    i < |f.args| ==> f.args[i].none || Slot(f, ins, kw, i) != Some(PyNone)
  }

  ghost predicate NonesOk(f: Function, ins: seq<Object>, kw: Keywords, upTo: int) {
    forall i | Start(f, |ins|) <= i < upTo :: NoneOk(f, ins, kw, i)
  }

  /** The overload is not skipped. */
  ghost predicate Accepts(f: Function, ins: seq<Object>, kw: Keywords) {
    && CountOk(f, |ins|)
    && AllGivenOk(f, ins, kw, Copied(f, |ins|))
    && Filled(f, ins, kw, f.NumArgs())
    && NonesOk(f, ins, kw, f.NumArgs())
    && (f.hasKwargs || Leftover(f, |ins|, kw) == map[])
  }

  /** Every argument of an overload that is not skipped has been found. */
  lemma AcceptedOk(f: Function, ins: seq<Object>, kw: Keywords)
    requires f.Registered() && Accepts(f, ins, kw)
    ensures f.Ok() && !PastRecords(f, |ins|)
  {
    if f.nargsPos < f.NumArgs() { assert Slot(f, ins, kw, f.nargsPos).Some?; }
  }

  function Slots(f: Function, ins: seq<Object>, kw: Keywords, from: nat, upTo: nat): seq<Object>
    requires from <= upTo && Filled(f, ins, kw, upTo)
  {
    seq(upTo - from, j requires 0 <= j < upTo - from => Slot(f, ins, kw, from + j).value)
  }

  function Flag(f: Function, i: nat): bool {
    if i < |f.args| then f.args[i].convert else true
  }

  /** The call made of a binding, as the dispatcher leaves it. */
  ghost function Binding(f: Function, ins: seq<Object>, kw: Keywords): Call
    requires f.Registered() && Accepts(f, ins, kw)
  {
    Call(
      Slots(f, ins, kw, 0, f.nargsPos)
      + (if f.hasArgs then [Tuple(ins[Copied(f, |ins|)..])] else [])
      + Slots(f, ins, kw, f.nargsPos, f.NumArgs())
      + (if f.hasKwargs then [Dict(Leftover(f, |ins|, kw))] else []),
      seq(f.NumArgs(), i requires 0 <= i => Flag(f, i))
      + (if f.hasArgs then [false] else [])
      + (if f.hasKwargs then [false] else []))
  }

  /** Both vectors end with exactly `nargs` entries. */
  lemma BothHaveNargs(f: Function, ins: seq<Object>, kw: Keywords)
    requires f.Registered() && Accepts(f, ins, kw)
    ensures |Binding(f, ins, kw).args| == |Binding(f, ins, kw).argsConvert| == f.nargs
  {
  }

  // ---- Conservation ----

  /** A place of the call: a slot, an element of `*args`, or an entry of `**kwargs`. */
  datatype Place = InSlot(i: nat) | InArgs(j: nat) | InKwargs(key: string)

  /** Where the object at a place comes from. */
  datatype Source = Positional(k: nat) | Keyword(name: string) | Default(arg: nat)

  predicate IsPlace(f: Function, n: nat, kw: Keywords, p: Place) {
    match p
    case InSlot(i) => i < f.NumArgs()
    case InArgs(j) => f.hasArgs && Copied(f, n) + j < n
    case InKwargs(key) => f.hasKwargs && key in Leftover(f, n, kw)
  }

  function SourceOf(f: Function, n: nat, kw: Keywords, p: Place): Source {
    match p
    case InSlot(i) =>
      if i < Copied(f, n) then Positional(i)
      else if Takes(f, n, kw, i) then Keyword(f.args[i].name.value) else Default(i)
    case InArgs(j) => Positional(Copied(f, n) + j)
    case InKwargs(key) => Keyword(key)
  }

  /** The index of a slot in the call: those after `*args` are one further. */
  function IndexOf(f: Function, i: nat): nat {
    if f.hasArgs && i >= f.nargsPos then i + 1 else i
  }

  /** The object at a place of the call, if the call has one there. */
  function At(f: Function, call: Call, p: Place): Option<Object> {
    match p
    case InSlot(i) => if IndexOf(f, i) < |call.args| then Some(call.args[IndexOf(f, i)]) else None
    case InArgs(j) =>
      if f.nargsPos < |call.args| && call.args[f.nargsPos].Tuple? && j < |call.args[f.nargsPos].items|
      then Some(call.args[f.nargsPos].items[j]) else None
    case InKwargs(key) =>
      if call.args != [] && call.args[|call.args| - 1].Dict? && key in call.args[|call.args| - 1].entries
      then Some(call.args[|call.args| - 1].entries[key]) else None
  }

  function Supplied(f: Function, ins: seq<Object>, kw: Keywords, s: Source): Option<Object> {
    match s
    case Positional(k) => if k < |ins| then Some(ins[k]) else None
    case Keyword(name) => if name in kw then Some(kw[name]) else None
    case Default(i) => if i < |f.args| then f.args[i].value else None
  }

  lemma SlotInCall(f: Function, ins: seq<Object>, kw: Keywords, i: nat)
    requires f.Registered() && Accepts(f, ins, kw) && i < f.NumArgs()
    ensures Slot(f, ins, kw, i).Some? && IndexOf(f, i) < |Binding(f, ins, kw).args|
    ensures Binding(f, ins, kw).args[IndexOf(f, i)] == Slot(f, ins, kw, i).value
  {
    assert Slot(f, ins, kw, i).Some?;
    hide Slot, Takes, Leftover, Accepts;
  }

  /** Every place of the call holds the object of its source. */
  lemma PlaceHoldsSource(f: Function, ins: seq<Object>, kw: Keywords, p: Place)
    requires f.Registered() && Accepts(f, ins, kw) && IsPlace(f, |ins|, kw, p)
    ensures At(f, Binding(f, ins, kw), p).Some?
    ensures At(f, Binding(f, ins, kw), p) == Supplied(f, ins, kw, SourceOf(f, |ins|, kw, p))
  {
    match p {
      case InSlot(i) =>
        SlotInCall(f, ins, kw, i);
      case InArgs(j) =>
        BothHaveNargs(f, ins, kw);
        assert Binding(f, ins, kw).args[f.nargsPos] == Tuple(ins[Copied(f, |ins|)..]);
      case InKwargs(key) =>
        BothHaveNargs(f, ins, kw);
        assert Binding(f, ins, kw).args[f.nargs - 1] == Dict(Leftover(f, |ins|, kw));
    }
  }

  /** The slot that takes a keyword. */
  lemma {:induction false} TakerOf(f: Function, n: nat, kw: Keywords, key: string, upTo: nat) returns (i: nat)
    requires key in kw && upTo <= |f.args| && key in NamesBetween(f, Start(f, n), upTo)
    ensures i < upTo && Takes(f, n, kw, i) && f.args[i].name == Some(key)
    decreases upTo
  {
    if key in NamesBetween(f, Start(f, n), upTo - 1) {
      i := TakerOf(f, n, kw, key, upTo - 1);
    } else {
      i := upTo - 1;
    }
  }

  lemma OneTaker(f: Function, n: nat, kw: Keywords, i: nat, j: nat)
    requires Takes(f, n, kw, i) && Takes(f, n, kw, j) && f.args[i].name == f.args[j].name
    ensures i == j
  {
  }

  /** Every positional argument goes to exactly one slot or into `*args`, every keyword to
      exactly one slot or into `**kwargs`. */
  lemma EachSuppliedOnce(f: Function, ins: seq<Object>, kw: Keywords, s: Source) returns (p: Place)
    requires f.Registered() && Accepts(f, ins, kw)
    requires match s case Positional(k) => k < |ins| case Keyword(name) => name in kw case Default(_) => false
    ensures IsPlace(f, |ins|, kw, p) && SourceOf(f, |ins|, kw, p) == s
    ensures forall q | IsPlace(f, |ins|, kw, q) && SourceOf(f, |ins|, kw, q) == s :: q == p
  {
    var n := |ins|;
    match s {
      case Positional(k) =>
        p := if k < Copied(f, n) then InSlot(k) else InArgs(k - Copied(f, n));
      case Keyword(key) =>
        if key in NamesBetween(f, Start(f, n), f.NumArgs()) {
          var i := TakerOf(f, n, kw, key, |f.args|);
          p := InSlot(i);
          forall q | IsPlace(f, n, kw, q) && SourceOf(f, n, kw, q) == s ensures q == p {
            if q.InSlot? { OneTaker(f, n, kw, i, q.i); }
          }
        } else {
          assert key in Leftover(f, n, kw);
          p := InKwargs(key);
        }
    }
  }

  // ---- The conversion flags ----

  /** Every slot is loaded with its own conversion flag. */
  ghost predicate FlagsAligned(f: Function, call: Call) {
    forall i: nat {:trigger Flag(f, i)} | i < f.NumArgs() :: IndexOf(f, i) < |call.argsConvert| && call.argsConvert[IndexOf(f, i)] == Flag(f, i)
  }

  lemma FlagsOf(f: Function, ins: seq<Object>, kw: Keywords)
    requires f.Registered() && Accepts(f, ins, kw)
    ensures |Binding(f, ins, kw).argsConvert| == f.nargs
    ensures f.hasArgs ==> !Binding(f, ins, kw).argsConvert[f.NumArgs()]
    ensures forall i: nat {:trigger Flag(f, i)} | i < f.NumArgs() :: Binding(f, ins, kw).argsConvert[i] == Flag(f, i)
  {
  }

  /** `args_convert` gets no entry when `*args` gets its place among `args`, so the keyword-only
      arguments after it are loaded with the flag of the next one, the last with `false`. This
      is harmless exactly if no argument follows `*args` or none of them may convert. */
  lemma FlagsAlignedIff(f: Function, ins: seq<Object>, kw: Keywords)
    requires f.Registered() && Accepts(f, ins, kw)
    ensures FlagsAligned(f, Binding(f, ins, kw)) <==>
            !f.hasArgs || forall i: nat {:trigger Flag(f, i)} | f.nargsPos <= i < f.NumArgs() :: !Flag(f, i)
  {
    FlagsOf(f, ins, kw);
    hide Binding, Accepts, Flag;
    var call := Binding(f, ins, kw);
    if f.hasArgs {
      if FlagsAligned(f, call) {
        NoFlagAfter(f, call.argsConvert, f.nargsPos);
      } else {
        var i: nat :| i < f.NumArgs() && !(IndexOf(f, i) < |call.argsConvert| && call.argsConvert[IndexOf(f, i)] == Flag(f, i));
        assert i + 1 < f.NumArgs() ==> call.argsConvert[i + 1] == Flag(f, i + 1);
      }
    }
  }

  lemma {:induction false} NoFlagAfter(f: Function, flags: seq<bool>, from: nat)
    requires f.hasArgs && f.nargsPos <= from <= f.NumArgs() < |flags| && !flags[f.NumArgs()]
    requires forall i: nat {:trigger Flag(f, i)} | i < f.NumArgs() :: flags[i] == Flag(f, i)
    requires forall i: nat {:trigger Flag(f, i)} | f.nargsPos <= i < f.NumArgs() :: flags[i + 1] == Flag(f, i)
    ensures !flags[from] && forall i: nat {:trigger Flag(f, i)} | from <= i < f.NumArgs() :: !Flag(f, i)
    decreases f.NumArgs() - from
  {
    if from < f.NumArgs() {
      NoFlagAfter(f, flags, from + 1);
      assert flags[from] == Flag(f, from) && flags[from + 1] == Flag(f, from);
    }
  }

  /** `*args` and one keyword-only argument that may be converted. */
  const VARIADIC := Function([Argument(Some("key"), None, true, false)], 2, 0, 0, true, false, false)

  /** The flag of the argument is left at the place of `*args`. */
  lemma KeywordOnlyLosesItsFlag(value: int)
    ensures VARIADIC.Registered() && Accepts(VARIADIC, [], map["key" := Plain(value)])
    ensures var call := Binding(VARIADIC, [], map["key" := Plain(value)]);
            call == Call([Tuple([]), Plain(value)], [true, false]) && !FlagsAligned(VARIADIC, call)
  {
    var f, kw: Keywords := VARIADIC, map["key" := Plain(value)];
    assert f.args[0].name == Some("key");
    assert NamesBetween(f, 0, 0) == {};
    assert Takes(f, 0, kw, 0);
    assert Slot(f, [], kw, 0) == Some(Plain(value));
    assert "key" in NamesBetween(f, 0, 1);
    assert Leftover(f, 0, kw) == map[];
    FlagsAlignedIff(f, [], kw);
    assert Flag(f, 0);
    assert Binding(f, [], kw).args == [Tuple([]), Plain(value)];
  }

  /** Without annotations, a function with an argument after `*args` reads past the records in
      every call. */
  lemma UnannotatedAfterArgs(n: nat)
    ensures var f := Function([], 2, 0, 0, true, false, false); f.Registered() && PastRecords(f, n)
  {
  }
}
