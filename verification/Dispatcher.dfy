/** The overload dispatcher: bind the arguments to each overload in turn, without conversion
    first, with conversion as a fallback. */
module Dispatcher {
  import opened Options
  import opened Binding

  function Given(kwargsIn: Option<Keywords>): Keywords {
    match kwargsIn case Some(kw) => kw case None => map[]
  }

  function Flags(f: Function, upTo: nat): seq<bool> {
    seq(upTo, i requires 0 <= i => Flag(f, i))
  }

  lemma NoSlot(f: Function, ins: seq<Object>, kw: Keywords, i: nat)
    requires i < f.NumArgs() && (Slot(f, ins, kw, i).None? || (Start(f, |ins|) <= i && !NoneOk(f, ins, kw, i)))
    ensures !Accepts(f, ins, kw)
  {
  }

  /** Steps 1 to 1.5: positional arguments, then defaults of positional-only ones. */
  method BindPositional(f: Function, ins: seq<Object>, kwargsIn: Option<Keywords>)
    returns (ok: bool, args: seq<Object>, convert: seq<bool>)
    requires f.Registered() && CountOk(f, |ins|)
    ensures ok ==> Filled(f, ins, Given(kwargsIn), Start(f, |ins|)) && AllGivenOk(f, ins, Given(kwargsIn), Copied(f, |ins|))
    ensures ok ==> args == Slots(f, ins, Given(kwargsIn), 0, Start(f, |ins|)) && convert == Flags(f, Start(f, |ins|))
    ensures !ok ==> !Accepts(f, ins, Given(kwargsIn)) && f.args != []
  {
    ghost var n, kw := |ins|, Given(kwargsIn);
    args, convert := [], [];
    var toCopy := if f.nargsPos <= |ins| then f.nargsPos else |ins|;
    var copied := 0;
    while copied < toCopy
      invariant copied <= toCopy == Copied(f, n)
      invariant args == Slots(f, ins, kw, 0, copied) && convert == Flags(f, copied)
      invariant AllGivenOk(f, ins, kw, copied)
    {
      var rec := if copied < |f.args| then Some(f.args[copied]) else None;
      if kwargsIn.Some? && rec.Some? && rec.value.name.Some? && rec.value.name.value in kwargsIn.value {
        assert !GivenOk(f, ins, kw, copied);
        return false, args, convert;
      }
      if rec.Some? && !rec.value.none && ins[copied].PyNone? {
        assert !GivenOk(f, ins, kw, copied);
        return false, args, convert;
      }
      args := args + [ins[copied]];
      convert := convert + [if rec.Some? then rec.value.convert else true];
      copied := copied + 1;
    }
    while copied < f.nargsPosOnly
      invariant toCopy <= copied && (copied == toCopy || copied <= f.nargsPosOnly)
      invariant Filled(f, ins, kw, copied)
      invariant args == Slots(f, ins, kw, 0, copied) && convert == Flags(f, copied)
    {
      var rec := f.args[copied];
      if rec.value.None? {
        NoSlot(f, ins, kw, copied);
        return false, args, convert;
      }
      args := args + [rec.value.value];
      convert := convert + [rec.convert];
      copied := copied + 1;
    }
    ok := true;
  }

  /** The slots so far, with the stub for `*args` in its place. */
  function WithStub(f: Function, ins: seq<Object>, kw: Keywords, upTo: nat): seq<Object>
    requires Filled(f, ins, kw, upTo)
  {
    if f.hasArgs && f.nargsPos < upTo
    then Slots(f, ins, kw, 0, f.nargsPos) + [PyNone] + Slots(f, ins, kw, f.nargsPos, upTo)
    else Slots(f, ins, kw, 0, upTo)
  }

  lemma OneMoreSlot(f: Function, ins: seq<Object>, kw: Keywords, upTo: nat)
    requires Filled(f, ins, kw, upTo + 1)
    ensures WithStub(f, ins, kw, upTo + 1) ==
            WithStub(f, ins, kw, upTo) + (if f.hasArgs && f.nargsPos == upTo then [PyNone] else []) + [Slot(f, ins, kw, upTo).value]
    ensures |WithStub(f, ins, kw, upTo)| == if f.hasArgs && f.nargsPos < upTo then upTo + 1 else upTo
  {
    hide Slot;
    if f.hasArgs && f.nargsPos <= upTo {
      assert Slots(f, ins, kw, f.nargsPos, upTo + 1) == Slots(f, ins, kw, f.nargsPos, upTo) + [Slot(f, ins, kw, upTo).value];
    } else {
      assert Slots(f, ins, kw, 0, upTo + 1) == Slots(f, ins, kw, 0, upTo) + [Slot(f, ins, kw, upTo).value];
    }
  }

  /** A slot past the positional ones takes its keyword out of those still there. */
  lemma KeywordStep(f: Function, ins: seq<Object>, kw: Keywords, i: nat)
    requires Start(f, |ins|) <= i < |f.args|
    ensures var rec, left := f.args[i], Untaken(f, |ins|, kw, i);
            if rec.name.Some? && rec.name.value in left then
              && Slot(f, ins, kw, i) == Some(left[rec.name.value])
              && Untaken(f, |ins|, kw, i + 1) == left - {rec.name.value}
            else
              && Slot(f, ins, kw, i) == rec.value
              && Untaken(f, |ins|, kw, i + 1) == left
  {
    assert NamesBetween(f, Start(f, |ins|), i + 1) ==
           NamesBetween(f, Start(f, |ins|), i) + if f.args[i].name.Some? then {f.args[i].name.value} else {};
  }

  lemma NoStubYet(f: Function, ins: seq<Object>, kw: Keywords)
    requires f.Ok() && Filled(f, ins, kw, Start(f, |ins|))
    ensures Bound(f, ins, kw, Start(f, |ins|), Slots(f, ins, kw, 0, Start(f, |ins|)), Flags(f, Start(f, |ins|)), kw)
  {
  }

  /** Step 2: the other slots from keywords, which are used up, and defaults. */
  method BindKeywords(f: Function, ins: seq<Object>, kwargsIn: Option<Keywords>, args0: seq<Object>, convert0: seq<bool>)
    returns (ok: bool, args: seq<Object>, convert: seq<bool>, kwargs: Option<Keywords>)
    requires f.Ok() && CountOk(f, |ins|) && Filled(f, ins, Given(kwargsIn), Start(f, |ins|))
    requires args0 == Slots(f, ins, Given(kwargsIn), 0, Start(f, |ins|)) && convert0 == Flags(f, Start(f, |ins|))
    ensures ok ==> Filled(f, ins, Given(kwargsIn), f.NumArgs()) && NonesOk(f, ins, Given(kwargsIn), f.NumArgs())
    ensures ok ==> args == WithStub(f, ins, Given(kwargsIn), f.NumArgs()) && convert == Flags(f, f.NumArgs())
    ensures ok ==> Given(kwargs) == Leftover(f, |ins|, Given(kwargsIn)) && (kwargs.None? <==> kwargsIn.None?)
    ensures !ok ==> !Accepts(f, ins, Given(kwargsIn))
  {
    ghost var kw := Given(kwargsIn);
    args, convert, kwargs := args0, convert0, kwargsIn;
    var copied := |args0|;
    NoStubYet(f, ins, kw);
    hide Accepts, Slot, NamesBetween, Untaken, WithStub, Bound;
    while copied < f.NumArgs()
      invariant Start(f, |ins|) <= copied <= f.NumArgs() && (kwargs.None? <==> kwargsIn.None?)
      invariant Bound(f, ins, kw, copied, args, convert, Given(kwargs))
    {
      ok, args, convert, kwargs := BindSlot(f, ins, kw, copied, args, convert, kwargs);
      if !ok { return; }
      copied := copied + 1;
    }
    BoundEnds(f, ins, kw, args, convert, Given(kwargs));
    ok := true;
  }

  /** One round of step 2. */
  method BindSlot(f: Function, ins: seq<Object>, ghost kw: Keywords, i: nat, args0: seq<Object>, convert0: seq<bool>, kwargs0: Option<Keywords>)
    returns (ok: bool, args: seq<Object>, convert: seq<bool>, kwargs: Option<Keywords>)
    requires Start(f, |ins|) <= i < f.NumArgs() == |f.args| && Bound(f, ins, kw, i, args0, convert0, Given(kwargs0))
    ensures kwargs.None? <==> kwargs0.None?
    ensures if ok then Bound(f, ins, kw, i + 1, args, convert, Given(kwargs)) else !Accepts(f, ins, kw)
  {
    BoundStep(f, ins, kw, i, args0, convert0, Given(kwargs0));
    hide Accepts, Bound, Start;
    args, convert, kwargs := args0, convert0, kwargs0;
    var rec := f.args[i];
    var value: Option<Object> := None;
    if kwargs.Some? && rec.name.Some? && rec.name.value in kwargs.value {
      value := Some(kwargs.value[rec.name.value]);
      kwargs := Some(kwargs.value - {rec.name.value});
    } else {
      value := rec.value;
    }
    if !rec.none && value == Some(PyNone) {
      return false, args, convert, kwargs;
    }
    if value.None? {
      return false, args, convert, kwargs;
    }
    if f.hasArgs && |args| == f.nargsPos {
      args := args + [PyNone];
      assert args0 + [PyNone] + [value.value] == args + [value.value];
    } else {
      assert args0 + [] + [value.value] == args + [value.value];
    }
    args := args + [value.value];
    convert := convert + [rec.convert];
    ok := true;
  }

  /** The state of step 2 before slot `i`. */
  ghost predicate Bound(f: Function, ins: seq<Object>, kw: Keywords, i: nat, args: seq<Object>, convert: seq<bool>, left: Keywords) {
    && Filled(f, ins, kw, i) && NonesOk(f, ins, kw, i)
    && args == WithStub(f, ins, kw, i) && convert == Flags(f, i) && left == Untaken(f, |ins|, kw, i)
  }

  /** The value of a slot, and what there is without it or with it. */
  lemma BoundStep(f: Function, ins: seq<Object>, kw: Keywords, i: nat, args: seq<Object>, convert: seq<bool>, left: Keywords)
    requires Start(f, |ins|) <= i < f.NumArgs() == |f.args| && Bound(f, ins, kw, i, args, convert, left)
    ensures var rec := f.args[i];
            var taken := rec.name.Some? && rec.name.value in left;
            var value := if taken then Some(left[rec.name.value]) else rec.value;
            if value.None? || (!rec.none && value == Some(PyNone)) then !Accepts(f, ins, kw)
            else
              var stub := if f.hasArgs && |args| == f.nargsPos then [PyNone] else [];
              Bound(f, ins, kw, i + 1, args + stub + [value.value], convert + [rec.convert], if taken then left - {rec.name.value} else left)
  {
    KeywordStep(f, ins, kw, i);
    var rec := f.args[i];
    if Slot(f, ins, kw, i).None? || (!rec.none && Slot(f, ins, kw, i) == Some(PyNone)) {
      NoSlot(f, ins, kw, i);
    } else {
      hide Slot, Untaken, WithStub;
      OneMoreSlot(f, ins, kw, i);
    }
  }

  lemma BoundEnds(f: Function, ins: seq<Object>, kw: Keywords, args: seq<Object>, convert: seq<bool>, left: Keywords)
    requires f.Ok() && Bound(f, ins, kw, f.NumArgs(), args, convert, left)
    ensures Filled(f, ins, kw, f.NumArgs()) && NonesOk(f, ins, kw, f.NumArgs())
    ensures args == WithStub(f, ins, kw, f.NumArgs()) && convert == Flags(f, f.NumArgs()) && left == Leftover(f, |ins|, kw)
  {
  }

  /** Step 4a: the leftover positional arguments take the place of the stub, or the end. */
  method PackArgs(f: Function, ins: seq<Object>, ghost kw: Keywords, args0: seq<Object>) returns (args: seq<Object>)
    requires f.Ok() && f.hasArgs && Filled(f, ins, kw, f.NumArgs()) && args0 == WithStub(f, ins, kw, f.NumArgs())
    ensures args == Slots(f, ins, kw, 0, f.nargsPos) + [Tuple(ins[Copied(f, |ins|)..])] + Slots(f, ins, kw, f.nargsPos, f.NumArgs())
  {
    hide Slot;
    var toCopy := if f.nargsPos <= |ins| then f.nargsPos else |ins|;
    var extra := if toCopy == 0 then ins else if toCopy >= |ins| then [] else ins[toCopy..];
    assert extra == ins[Copied(f, |ins|)..];
    if |args0| <= f.nargsPos {
      args := args0 + [Tuple(extra)];
    } else {
      args := args0[f.nargsPos := Tuple(extra)];
    }
  }

  lemma SlotsSplit(f: Function, ins: seq<Object>, kw: Keywords)
    requires f.Ok() && Filled(f, ins, kw, f.NumArgs())
    ensures Slots(f, ins, kw, 0, f.nargsPos) + Slots(f, ins, kw, f.nargsPos, f.NumArgs()) == Slots(f, ins, kw, 0, f.NumArgs())
  {
    hide Slot;
  }

  /** Steps 1 to 5 for one overload: no call when it is skipped, and none when the records are
      read past their end. */
  method Bind(f: Function, ins: seq<Object>, kwargsIn: Option<Keywords>) returns (past: bool, call: Option<Call>)
    requires f.Registered()
    ensures past <==> PastRecords(f, |ins|)
    ensures call.Some? <==> Accepts(f, ins, Given(kwargsIn))
    ensures call.Some? ==> call.value == Binding.Binding(f, ins, Given(kwargsIn))
  {
    ghost var kw := Given(kwargsIn);
    past, call := false, None;
    if Accepts(f, ins, kw) { AcceptedOk(f, ins, kw); }
    if !f.hasArgs && |ins| > f.nargsPos { return; }
    if |ins| < f.nargsPos && |f.args| < f.nargsPos { return; }
    var ok, args, convert := BindPositional(f, ins, kwargsIn);
    if !ok { return; }
    if |args| < f.NumArgs() && |args| >= |f.args| {
      past := true;
      return;
    }
    var kwargs;
    ok, args, convert, kwargs := BindKeywords(f, ins, kwargsIn, args, convert);
    if !ok { return; }
    hide Slot, NamesBetween, Untaken, Filled, NonesOk, AllGivenOk, Slots;
    if kwargs.Some? && kwargs.value != map[] && !f.hasKwargs { return; }
    assert Accepts(f, ins, kw);
    SlotsSplit(f, ins, kw);
    if f.hasArgs {
      args := PackArgs(f, ins, kw, args);
      convert := convert + [false];
    }
    if f.hasKwargs {
      args := args + [Dict(if kwargs.Some? then kwargs.value else map[])];
      convert := convert + [false];
    }
    call := Some(Call(args, convert));
  }

  // ---- The two passes ----

  /** One call of the implementation of overload `k`. */
  datatype Attempt = Attempt(k: nat, call: Call)

  /** What an implementation answers: nothing, a value, or an error already set. */
  datatype Answer = TryNext | Returned(result: Option<Object>)

  /** The answer to the last of some calls; it may depend on those before it. */
  type Impls = seq<Attempt> -> Answer

  /** Some positional argument, other than the receiver of a method, may be converted. */
  ghost predicate MayConvert(f: Function) {
    exists i: nat {:trigger Flag(f, i)} :: (if f.isMethod then 1 else 0) <= i < f.nargsPos && Flag(f, i)
  }

  method HasConvertible(f: Function, flags: seq<bool>) returns (yes: bool)
    requires |flags| >= f.nargsPos && forall i: nat {:trigger Flag(f, i)} | i < f.nargsPos :: flags[i] == Flag(f, i)
    ensures yes <==> MayConvert(f)
  {
    var i := if f.isMethod then 1 else 0;
    while i < f.nargsPos
      invariant (if f.isMethod then 1 else 0) <= i
      invariant forall j: nat {:trigger Flag(f, j)} | (if f.isMethod then 1 else 0) <= j < i && j < f.nargsPos :: !Flag(f, j)
    {
      if flags[i] {
        assert Flag(f, i);
        return true;
      }
      i := i + 1;
    }
    yes := false;
  }

  ghost predicate AllRegistered(overloads: seq<Function>) {
    forall k | 0 <= k < |overloads| :: overloads[k].Registered()
  }

  /** The calls of the first pass: every overload that binds, without conversion if there are
      several overloads. */
  ghost function First(overloads: seq<Function>, ins: seq<Object>, kw: Keywords, n: nat): seq<Attempt>
    requires AllRegistered(overloads) && n <= |overloads|
  {
    if n == 0 then []
    else if !Accepts(overloads[n - 1], ins, kw) then First(overloads, ins, kw, n - 1)
    else
      var call := Binding.Binding(overloads[n - 1], ins, kw);
      First(overloads, ins, kw, n - 1)
      + [Attempt(n - 1, if |overloads| > 1 then call.(argsConvert := seq(overloads[n - 1].nargs, _ => false)) else call)]
  }

  /** Those of the second: every overload that binds and has a convertible positional argument,
      with its conversions, if there are several overloads. */
  ghost function Second(overloads: seq<Function>, ins: seq<Object>, kw: Keywords, n: nat): seq<Attempt>
    requires AllRegistered(overloads) && n <= |overloads|
  {
    if n == 0 || |overloads| <= 1 then []
    else if !Accepts(overloads[n - 1], ins, kw) || !MayConvert(overloads[n - 1]) then Second(overloads, ins, kw, n - 1)
    else Second(overloads, ins, kw, n - 1) + [Attempt(n - 1, Binding.Binding(overloads[n - 1], ins, kw))]
  }

  /** The answer to call `i`, after those before it. */
  function AnswerAt(impls: Impls, calls: seq<Attempt>, i: nat): Answer
    requires i < |calls|
  {
    impls(calls[..i + 1])
  }

  /** The first `n` of the calls are answered with nothing. */
  ghost predicate NoneAnswers(impls: Impls, calls: seq<Attempt>, n: nat)
    requires n <= |calls|
  {
    forall i | 0 <= i < n :: AnswerAt(impls, calls, i).TryNext?
  }

  ghost predicate IsFirstAnswer(impls: Impls, calls: seq<Attempt>, result: Answer) {
    if result.TryNext? then NoneAnswers(impls, calls, |calls|)
    else exists i :: 0 <= i < |calls| && AnswerAt(impls, calls, i) == result && NoneAnswers(impls, calls, i)
  }

  lemma SameAnswers(impls: Impls, calls: seq<Attempt>, more: seq<Attempt>)
    requires calls <= more
    ensures forall i | 0 <= i < |calls| :: AnswerAt(impls, more, i) == AnswerAt(impls, calls, i)
  {
    forall i | 0 <= i < |calls| ensures AnswerAt(impls, more, i) == AnswerAt(impls, calls, i) {
      assert more[..i + 1] == calls[..i + 1];
    }
  }

  lemma OneMoreCall(impls: Impls, calls: seq<Attempt>, a: Attempt)
    requires NoneAnswers(impls, calls, |calls|)
    ensures IsFirstAnswer(impls, calls + [a], impls(calls + [a]))
    ensures impls(calls + [a]).TryNext? ==> NoneAnswers(impls, calls + [a], |calls| + 1)
  {
    var more := calls + [a];
    SameAnswers(impls, calls, more);
    assert more[..|calls| + 1] == more;
    assert AnswerAt(impls, more, |calls|) == impls(more);
  }

  /** An answer stays the first when calls after it are planned. */
  lemma PlannedMore(impls: Impls, calls: seq<Attempt>, more: seq<Attempt>, result: Answer)
    requires calls <= more && result.Returned? && IsFirstAnswer(impls, calls, result)
    ensures IsFirstAnswer(impls, more, result)
  {
    SameAnswers(impls, calls, more);
    var i :| 0 <= i < |calls| && AnswerAt(impls, calls, i) == result && NoneAnswers(impls, calls, i);
    assert AnswerAt(impls, more, i) == result && NoneAnswers(impls, more, i);
  }

  lemma {:induction false} PlanGrows(overloads: seq<Function>, ins: seq<Object>, kw: Keywords, m: nat, n: nat)
    requires AllRegistered(overloads) && m <= n <= |overloads|
    ensures First(overloads, ins, kw, m) <= First(overloads, ins, kw, n)
    decreases n
  {
    if m < n { PlanGrows(overloads, ins, kw, m, n - 1); }
  }

  lemma PlanStep(overloads: seq<Function>, ins: seq<Object>, kw: Keywords, k: nat)
    requires AllRegistered(overloads) && k < |overloads|
    ensures overloads[k].Registered()
    ensures if !Accepts(overloads[k], ins, kw) then
              && First(overloads, ins, kw, k + 1) == First(overloads, ins, kw, k)
              && Second(overloads, ins, kw, k + 1) == Second(overloads, ins, kw, k)
            else
              var f, call := overloads[k], Binding.Binding(overloads[k], ins, kw);
              var again := |overloads| > 1 && MayConvert(f);
              && |call.argsConvert| == f.nargs && f.nargsPos <= f.NumArgs() <= f.nargs
              && First(overloads, ins, kw, k + 1) == First(overloads, ins, kw, k)
                 + [Attempt(k, if |overloads| > 1 then call.(argsConvert := seq(f.nargs, _ => false)) else call)]
              && Second(overloads, ins, kw, k + 1) == if again then Second(overloads, ins, kw, k) + [Attempt(k, call)]
                                                      else Second(overloads, ins, kw, k)
  {
    if Accepts(overloads[k], ins, kw) { BothHaveNargs(overloads[k], ins, kw); }
    hide Accepts, MayConvert, Binding.Binding;
  }

  /** The overload at which the first pass reads past the records, or their number. */
  ghost function FirstPast(overloads: seq<Function>, n: nat): (k: nat)
    ensures k <= |overloads| && (k < |overloads| ==> PastRecords(overloads[k], n))
    ensures forall j | 0 <= j < k :: !PastRecords(overloads[j], n)
  {
    if overloads == [] || PastRecords(overloads[0], n) then 0 else 1 + FirstPast(overloads[1..], n)
  }

  /** All the calls there are to make. */
  ghost function Plan(overloads: seq<Function>, ins: seq<Object>, kw: Keywords): seq<Attempt>
    requires AllRegistered(overloads)
  {
    First(overloads, ins, kw, FirstPast(overloads, |ins|))
    + if FirstPast(overloads, |ins|) < |overloads| then [] else Second(overloads, ins, kw, |overloads|)
  }

  /** Every overload once; the calls to try again are kept if there are several. */
  method FirstPass(impls: Impls, overloads: seq<Function>, ins: seq<Object>, kwargsIn: Option<Keywords>)
    returns (past: bool, result: Answer, made: seq<Attempt>, secondPass: seq<Attempt>)
    requires AllRegistered(overloads)
    ensures var first := First(overloads, ins, Given(kwargsIn), FirstPast(overloads, |ins|));
            && IsFirstAnswer(impls, first, result)
            && (past <==> result.TryNext? && FirstPast(overloads, |ins|) < |overloads|)
            && (result.TryNext? ==> made == first)
    ensures result.TryNext? && !past ==> secondPass == Second(overloads, ins, Given(kwargsIn), |overloads|)
  {
    ghost var kw, end := Given(kwargsIn), FirstPast(overloads, |ins|);
    var overloaded := |overloads| > 1;
    made, secondPass, result := [], [], TryNext;
    var k := 0;
    while k < |overloads|
      invariant k <= end && result.TryNext?
      invariant made == First(overloads, ins, kw, k) && NoneAnswers(impls, made, |made|)
      invariant secondPass == Second(overloads, ins, kw, k)
    {
      var call;
      past, call := Bind(overloads[k], ins, kwargsIn);
      if past { return; }
      PlanStep(overloads, ins, kw, k);
      if call.Some? {
        FlagsOf(overloads[k], ins, kw);
        hide *;
        var first := if overloaded then call.value.(argsConvert := seq(overloads[k].nargs, _ => false)) else call.value;
        OneMoreCall(impls, made, Attempt(k, first));
        made := made + [Attempt(k, first)];
        result := impls(made);
        if result.Returned? {
          PlanGrows(overloads, ins, kw, k + 1, end);
          PlannedMore(impls, made, First(overloads, ins, kw, end), result);
          return;
        }
        if overloaded {
          var again := HasConvertible(overloads[k], call.value.argsConvert);
          if again { secondPass := secondPass + [Attempt(k, call.value)]; }
        }
      }
      k := k + 1;
    }
    past := false;
  }

  /** The calls kept, after those already made. */
  method SecondPass(impls: Impls, made0: seq<Attempt>, calls: seq<Attempt>) returns (result: Answer)
    requires NoneAnswers(impls, made0, |made0|)
    ensures IsFirstAnswer(impls, made0 + calls, result)
  {
    var made := made0;
    result := TryNext;
    var c := 0;
    while c < |calls|
      invariant c <= |calls| && result.TryNext? && made == made0 + calls[..c]
      invariant NoneAnswers(impls, made, |made|)
    {
      OneMoreCall(impls, made, calls[c]);
      made := made + [calls[c]];
      assert made == made0 + calls[..c + 1];
      result := impls(made);
      if result.Returned? {
        PlannedMore(impls, made, made0 + calls, result);
        return;
      }
      c := c + 1;
    }
    assert made == made0 + calls;
  }

  /** The result is the first answer to the calls of the plan, unless there is none before the
      records are read past their end. */
  method Dispatch(impls: Impls, overloads: seq<Function>, ins: seq<Object>, kwargsIn: Option<Keywords>)
    returns (past: bool, result: Answer)
    requires AllRegistered(overloads)
    ensures IsFirstAnswer(impls, Plan(overloads, ins, Given(kwargsIn)), result)
    ensures past <==> result.TryNext? && exists k :: 0 <= k < |overloads| && PastRecords(overloads[k], |ins|)
  {
    ghost var kw, end := Given(kwargsIn), FirstPast(overloads, |ins|);
    ghost var first := First(overloads, ins, kw, end);
    var made, secondPass;
    past, result, made, secondPass := FirstPass(impls, overloads, ins, kwargsIn);
    if result.Returned? {
      PlannedMore(impls, first, Plan(overloads, ins, kw), result);
    } else if past {
      assert first + [] == first;
    } else if |overloads| > 1 && secondPass != [] {
      result := SecondPass(impls, made, secondPass);
    } else {
      assert first + [] == first;
    }
  }
}
