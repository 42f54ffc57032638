/** Which calls an overload accepts, and what it is called with, said without the dispatcher's
    steps: by the places of the call, and by the arguments alone. */
module Acceptance {
  import opened Options
  import opened Binding
  import opened Dispatcher

  // ---- By places ----

  ghost predicate HasPlace(f: Function, n: nat, kw: Keywords, s: Source) {
    exists p :: IsPlace(f, n, kw, p) && SourceOf(f, n, kw, p) == s
  }

  /** The object a slot gets from its source. */
  function Gets(f: Function, ins: seq<Object>, kw: Keywords, i: nat): Option<Object> {
    Supplied(f, ins, kw, SourceOf(f, |ins|, kw, InSlot(i)))
  }

  /** The slot gets an object, and it is not an unwelcome `None`. Defaults of positional-only
      arguments are not looked at. */
  predicate WellServed(f: Function, ins: seq<Object>, kw: Keywords, i: nat) {
    && Gets(f, ins, kw, i).Some?
    && (Gets(f, ins, kw, i) == Some(PyNone) && i < |f.args| && !f.args[i].none ==>
          i < f.nargsPosOnly && SourceOf(f, |ins|, kw, InSlot(i)) == Default(i))
  }

  /** Everything supplied has a place, every slot is served, and no keyword names an argument
      that is given by position. */
  ghost predicate Placed(f: Function, ins: seq<Object>, kw: Keywords) {
    && (forall k: nat | k < |ins| :: HasPlace(f, |ins|, kw, Positional(k)))
    && (forall key | key in kw :: HasPlace(f, |ins|, kw, Keyword(key)))
    && (forall i: nat | i < f.NumArgs() :: WellServed(f, ins, kw, i))
    && (forall i: nat | i < f.nargsPos && i < |ins| && i < |f.args| && f.args[i].name.Some? :: f.args[i].name.value !in kw)
  }

  lemma PositionalPlaced(f: Function, ins: seq<Object>, kw: Keywords)
    requires f.Registered()
    ensures (forall k: nat | k < |ins| :: HasPlace(f, |ins|, kw, Positional(k))) <==> f.hasArgs || |ins| <= f.nargsPos
  {
    var n := |ins|;
    if f.hasArgs || n <= f.nargsPos {
      forall k: nat | k < n ensures HasPlace(f, n, kw, Positional(k)) {
        var p := if k < Copied(f, n) then InSlot(k) else InArgs(k - Copied(f, n));
        assert IsPlace(f, n, kw, p) && SourceOf(f, n, kw, p) == Positional(k);
      }
    } else {
      assert !HasPlace(f, n, kw, Positional(n - 1));
    }
  }

  lemma KeywordsPlaced(f: Function, ins: seq<Object>, kw: Keywords)
    requires f.Ok()
    ensures (forall key | key in kw :: HasPlace(f, |ins|, kw, Keyword(key))) <==> f.hasKwargs || Leftover(f, |ins|, kw) == map[]
  {
    var n := |ins|;
    forall key | key in kw
      ensures HasPlace(f, n, kw, Keyword(key)) <==> f.hasKwargs || key !in Leftover(f, n, kw)
    {
      KeywordPlaced(f, n, kw, key);
    }
    hide HasPlace;
    assert Leftover(f, n, kw).Keys <= kw.Keys;
    if Leftover(f, n, kw) != map[] {
      var key :| key in Leftover(f, n, kw);
    }
  }

  lemma KeywordPlaced(f: Function, n: nat, kw: Keywords, key: string)
    requires f.Ok() && key in kw
    ensures HasPlace(f, n, kw, Keyword(key)) <==> f.hasKwargs || key !in Leftover(f, n, kw)
  {
    if key !in Leftover(f, n, kw) {
      var i := TakerOf(f, n, kw, key, |f.args|);
      assert SourceOf(f, n, kw, InSlot(i)) == Keyword(key);
    } else if f.hasKwargs {
      assert IsPlace(f, n, kw, InKwargs(key)) && SourceOf(f, n, kw, InKwargs(key)) == Keyword(key);
    }
  }

  /** What the slots ask of the arguments: that they are filled, and which may be `None`. */
  lemma SlotsServed(f: Function, ins: seq<Object>, kw: Keywords)
    requires f.Registered()
    ensures (forall i: nat | i < f.NumArgs() :: WellServed(f, ins, kw, i))
       <==> && Filled(f, ins, kw, f.NumArgs()) && NonesOk(f, ins, kw, f.NumArgs())
            && forall i: nat | i < Copied(f, |ins|) && i < |f.args| :: f.args[i].none || !ins[i].PyNone?
  {
    forall i: nat | i < f.NumArgs()
      ensures WellServed(f, ins, kw, i) <==>
              && Slot(f, ins, kw, i).Some?
              && (Start(f, |ins|) <= i ==> NoneOk(f, ins, kw, i))
              && (i < Copied(f, |ins|) && i < |f.args| ==> f.args[i].none || !ins[i].PyNone?)
    {
    }
    hide WellServed, Slot, NoneOk;
  }

  lemma GivenSplit(f: Function, ins: seq<Object>, kw: Keywords)
    ensures AllGivenOk(f, ins, kw, Copied(f, |ins|))
       <==> && (forall i: nat | i < f.nargsPos && i < |ins| && i < |f.args| && f.args[i].name.Some? :: f.args[i].name.value !in kw)
            && forall i: nat | i < Copied(f, |ins|) && i < |f.args| :: f.args[i].none || !ins[i].PyNone?
  {
    if AllGivenOk(f, ins, kw, Copied(f, |ins|)) {
      forall i: nat | i < Copied(f, |ins|) && i < |f.args|
        ensures (f.args[i].name.Some? ==> f.args[i].name.value !in kw) && (f.args[i].none || !ins[i].PyNone?)
      {
        assert GivenOk(f, ins, kw, i);
      }
    }
  }

  /** A registered overload is bound if and only if everything has its place. */
  lemma AcceptsIffPlaced(f: Function, ins: seq<Object>, kw: Keywords)
    requires f.Registered()
    ensures Accepts(f, ins, kw) <==> Placed(f, ins, kw)
  {
    if f.nargsPos < f.NumArgs() && f.args == [] {
      assert Slot(f, ins, kw, f.nargsPos).None?;
      assert !WellServed(f, ins, kw, f.nargsPos);
    } else {
      PositionalPlaced(f, ins, kw);
      KeywordsPlaced(f, ins, kw);
      SlotsServed(f, ins, kw);
      CountFromSlots(f, ins, kw);
      GivenSplit(f, ins, kw);
      hide HasPlace, WellServed, AllGivenOk, Filled, NonesOk, Leftover, CountOk;
    }
  }

  lemma CountFromSlots(f: Function, ins: seq<Object>, kw: Keywords)
    requires f.Ok()
    ensures Filled(f, ins, kw, f.NumArgs()) && (f.hasArgs || |ins| <= f.nargsPos) ==> CountOk(f, |ins|)
    ensures CountOk(f, |ins|) ==> f.hasArgs || |ins| <= f.nargsPos
  {
    if !(f.nargsPos <= |ins| || f.nargsPos <= |f.args|) {
      assert Slot(f, ins, kw, |ins|).None?;
    }
  }

  // ---- By the arguments alone ----

  /** Argument `i` is given by position. */
  predicate IsGiven(f: Function, n: nat, i: nat) {
    i < n && i < f.nargsPos
  }

  /** Argument `i` may be named, is not given by position, and has this name. */
  predicate IsNamed(f: Function, n: nat, i: nat, name: string) {
    i < |f.args| && f.args[i].name == Some(name) && !IsGiven(f, n, i) && i >= f.nargsPosOnly
  }

  /** What argument `i` is called with: what is given by position, else by name to the first
      argument of that name, else its default. */
  ghost predicate IsCalledWith(f: Function, ins: seq<Object>, kw: Keywords, i: nat, o: Option<Object>) {
    if IsGiven(f, |ins|, i) then o == Some(ins[i])
    else if exists name :: name in kw && IsNamed(f, |ins|, i, name) && forall j: nat | j < i :: !IsNamed(f, |ins|, j, name) then
      i < |f.args| && f.args[i].name.Some? && f.args[i].name.value in kw && o == Some(kw[f.args[i].name.value])
    else o.Some? && i < |f.args| && o == f.args[i].value
  }

  /** Argument `i` of a call, behind the place of `*args` if it comes after it. */
  function ArgumentOf(f: Function, args: seq<Object>, i: nat): Option<Object> {
    var at := if f.hasArgs && i >= f.nargsPos then i + 1 else i;
    if at < |args| then Some(args[at]) else None
  }

  ghost predicate NamesNone(f: Function, n: nat, key: string) {
    forall i: nat | i < |f.args| :: !IsNamed(f, n, i, key)
  }

  lemma NamedBetween(f: Function, n: nat, i: nat, name: string)
    requires f.Ok() && i <= |f.args|
    ensures name in NamesBetween(f, Start(f, n), i) <==> exists j: nat :: j < i && IsNamed(f, n, j, name)
  {
    if name in NamesBetween(f, Start(f, n), i) {
      var j :| Start(f, n) <= j < i && f.args[j].name == Some(name);
      assert IsNamed(f, n, j, name);
    }
  }

  lemma SlotCalledWith(f: Function, ins: seq<Object>, kw: Keywords, i: nat)
    requires f.Ok() && i < f.NumArgs() && Slot(f, ins, kw, i).Some?
    ensures IsCalledWith(f, ins, kw, i, Slot(f, ins, kw, i))
  {
    var n := |ins|;
    if !IsGiven(f, n, i) && i < |f.args| && f.args[i].name.Some? {
      NamedBetween(f, n, i, f.args[i].name.value);
    }
  }

  lemma LeftoverNamesNone(f: Function, n: nat, kw: Keywords, key: string)
    requires f.Ok()
    ensures key in Leftover(f, n, kw) <==> key in kw && NamesNone(f, n, key)
  {
    if |f.args| == f.NumArgs() {
      NamedBetween(f, n, |f.args|, key);
    }
  }

  /** The call that is made: the arguments in order, around `*args` with what is given beyond
      them, and `**kwargs` with the keywords that name none of them. */
  lemma CallExact(f: Function, ins: seq<Object>, kw: Keywords)
    requires f.Registered() && Accepts(f, ins, kw)
    ensures var c := Binding.Binding(f, ins, kw).args;
            && |c| == f.nargs
            && (forall i: nat | i < f.NumArgs() :: IsCalledWith(f, ins, kw, i, ArgumentOf(f, c, i)))
            && (f.hasArgs ==> c[f.nargsPos] == Tuple(if |ins| <= f.nargsPos then [] else ins[f.nargsPos..]))
            && (f.hasKwargs ==>
                  && c[f.nargs - 1].Dict?
                  && var rest := c[f.nargs - 1].entries;
                     && (forall key :: key in rest <==> key in kw && NamesNone(f, |ins|, key))
                     && (forall key | key in rest :: rest[key] == kw[key]))
  {
    AcceptedOk(f, ins, kw);
    BothHaveNargs(f, ins, kw);
    var c := Binding.Binding(f, ins, kw).args;
    forall i: nat | i < f.NumArgs() ensures IsCalledWith(f, ins, kw, i, ArgumentOf(f, c, i)) {
      SlotInCall(f, ins, kw, i);
      SlotCalledWith(f, ins, kw, i);
    }
    if f.hasArgs {
      assert c[f.nargsPos] == Tuple(ins[Copied(f, |ins|)..]);
      assert |ins| <= f.nargsPos ==> ins[|ins|..] == [];
    }
    if f.hasKwargs {
      assert c[f.nargs - 1] == Dict(Leftover(f, |ins|, kw));
      forall key ensures key in Leftover(f, |ins|, kw) <==> key in kw && NamesNone(f, |ins|, key) {
        LeftoverNamesNone(f, |ins|, kw, key);
      }
    }
  }

  /** `f(a, b=1, c=2)` */
  const WITH_DEFAULTS := Function(
    [Argument(Some("a"), None, true, true), Argument(Some("b"), Some(Plain(1)), true, true), Argument(Some("c"), Some(Plain(2)), true, true)],
    3, 3, 0, false, false, false)

  /** `f(0)` is bound, to 0, 1 and 2. */
  lemma DefaultsFilledIn()
    ensures WITH_DEFAULTS.Registered() && Accepts(WITH_DEFAULTS, [Plain(0)], map[])
    ensures Binding.Binding(WITH_DEFAULTS, [Plain(0)], map[]).args == [Plain(0), Plain(1), Plain(2)]
  {
    var f, ins, kw: Keywords := WITH_DEFAULTS, [Plain(0)], map[];
    assert Slot(f, ins, kw, 0) == Some(Plain(0)) && Slot(f, ins, kw, 1) == Some(Plain(1)) && Slot(f, ins, kw, 2) == Some(Plain(2));
    assert Leftover(f, 1, kw) == map[];
  }

  // ---- The order of the calls ----

  /** Some argument given by position, other than the receiver of a method, may be converted: it
      has no record, or one that allows it. */
  ghost predicate CanConvert(f: Function) {
    exists i: nat :: i < f.nargsPos && !(i == 0 && f.isMethod) && Allows(f, i)
  }

  predicate Allows(f: Function, i: nat) {
    i < |f.args| ==> f.args[i].convert
  }

  /** Each of the overloads `ks` among the first `n` is called once, in order, and no other. */
  ghost predicate OnceInOrder(calls: seq<Attempt>, n: nat, ks: set<nat>) {
    && (forall k: nat | k < n :: k in ks <==> IsCalled(calls, k))
    && (forall i | 0 <= i < |calls| :: calls[i].k < n)
    && (forall i, j | 0 <= i < j < |calls| :: calls[i].k < calls[j].k)
  }

  ghost predicate IsCalled(calls: seq<Attempt>, k: nat) {
    exists i :: 0 <= i < |calls| && calls[i].k == k
  }

  lemma OneMoreInOrder(calls: seq<Attempt>, n: nat, ks: set<nat>, a: Attempt)
    requires OnceInOrder(calls, n, ks)
    ensures n !in ks ==> OnceInOrder(calls, n + 1, ks)
    ensures n in ks && a.k == n ==> OnceInOrder(calls + [a], n + 1, ks)
  {
    var more := calls + [a];
    if n in ks && a.k == n {
      forall k: nat | k < n + 1 ensures k in ks <==> IsCalled(more, k) {
        if k == n {
          assert more[|calls|].k == k;
        } else if k in ks {
          assert IsCalled(calls, k);
          var i :| 0 <= i < |calls| && calls[i].k == k;
          assert more[i].k == k;
        }
      }
    }
  }

  /** The overload is called as it is bound, with no conversion. */
  ghost predicate IsStrict(overloads: seq<Function>, ins: seq<Object>, kw: Keywords, a: Attempt) {
    && a.k < |overloads| && overloads[a.k].Registered() && Accepts(overloads[a.k], ins, kw)
    && a.call.args == Binding.Binding(overloads[a.k], ins, kw).args
    && |a.call.argsConvert| == overloads[a.k].nargs && forall j | 0 <= j < |a.call.argsConvert| :: !a.call.argsConvert[j]
  }

  /** With its own conversion flags. */
  ghost predicate IsOwn(overloads: seq<Function>, ins: seq<Object>, kw: Keywords, a: Attempt) {
    && a.k < |overloads| && overloads[a.k].Registered() && Accepts(overloads[a.k], ins, kw)
    && a.call == Binding.Binding(overloads[a.k], ins, kw)
  }

  ghost function AcceptedOf(overloads: seq<Function>, ins: seq<Object>, kw: Keywords): set<nat> {
    set k: nat | k < |overloads| && Accepts(overloads[k], ins, kw)
  }

  ghost function RetriedOf(overloads: seq<Function>, ins: seq<Object>, kw: Keywords): set<nat> {
    set k: nat | k < |overloads| && Accepts(overloads[k], ins, kw) && CanConvert(overloads[k])
  }

  lemma CanConvertExact(f: Function)
    ensures CanConvert(f) <==> MayConvert(f)
  {
    assert forall i: nat :: Allows(f, i) <==> Flag(f, i);
    if MayConvert(f) {
      var i: nat :| (if f.isMethod then 1 else 0) <= i < f.nargsPos && Flag(f, i);
      assert Allows(f, i);
    }
    if CanConvert(f) {
      var i: nat :| i < f.nargsPos && !(i == 0 && f.isMethod) && Allows(f, i);
      assert Flag(f, i);
    }
  }

  lemma FirstOneMore(overloads: seq<Function>, ins: seq<Object>, kw: Keywords, k: nat) returns (a: Attempt)
    requires AllRegistered(overloads) && k < |overloads|
    ensures a.k == k
    ensures if k !in AcceptedOf(overloads, ins, kw) then First(overloads, ins, kw, k + 1) == First(overloads, ins, kw, k)
            else
              && First(overloads, ins, kw, k + 1) == First(overloads, ins, kw, k) + [a]
              && IsFirst(overloads, ins, kw, a)
  {
    PlanStep(overloads, ins, kw, k);
    hide Accepts, Binding.Binding;
    a := Attempt(k, Call([], []));
    if k in AcceptedOf(overloads, ins, kw) {
      var call := Binding.Binding(overloads[k], ins, kw);
      a := Attempt(k, if |overloads| > 1 then call.(argsConvert := seq(overloads[k].nargs, _ => false)) else call);
    }
  }

  lemma SecondOneMore(overloads: seq<Function>, ins: seq<Object>, kw: Keywords, k: nat) returns (a: Attempt)
    requires AllRegistered(overloads) && k < |overloads| && |overloads| > 1
    ensures a.k == k
    ensures if k !in RetriedOf(overloads, ins, kw) then Second(overloads, ins, kw, k + 1) == Second(overloads, ins, kw, k)
            else Second(overloads, ins, kw, k + 1) == Second(overloads, ins, kw, k) + [a] && IsOwn(overloads, ins, kw, a)
  {
    PlanStep(overloads, ins, kw, k);
    CanConvertExact(overloads[k]);
    hide Accepts, Binding.Binding, MayConvert, CanConvert;
    a := Attempt(k, Call([], []));
    if k in RetriedOf(overloads, ins, kw) {
      a := Attempt(k, Binding.Binding(overloads[k], ins, kw));
    }
  }

  /** Whether a call of the first pass is as it should be. */
  ghost predicate IsFirst(overloads: seq<Function>, ins: seq<Object>, kw: Keywords, a: Attempt) {
    if |overloads| > 1 then IsStrict(overloads, ins, kw, a) else IsOwn(overloads, ins, kw, a)
  }

  lemma NothingPlanned(overloads: seq<Function>, ins: seq<Object>, kw: Keywords, ks: set<nat>)
    requires AllRegistered(overloads)
    ensures First(overloads, ins, kw, 0) == Second(overloads, ins, kw, 0) == [] && OnceInOrder([], 0, ks)
  {
  }

  lemma {:induction false} FirstExact(overloads: seq<Function>, ins: seq<Object>, kw: Keywords, n: nat)
    requires AllRegistered(overloads) && n <= |overloads|
    ensures OnceInOrder(First(overloads, ins, kw, n), n, AcceptedOf(overloads, ins, kw))
    ensures forall a | a in First(overloads, ins, kw, n) :: IsFirst(overloads, ins, kw, a)
  {
    hide *;
    if n == 0 {
      NothingPlanned(overloads, ins, kw, AcceptedOf(overloads, ins, kw));
    } else {
      FirstExact(overloads, ins, kw, n - 1);
      var a := FirstOneMore(overloads, ins, kw, n - 1);
      OneMoreInOrder(First(overloads, ins, kw, n - 1), n - 1, AcceptedOf(overloads, ins, kw), a);
    }
  }

  lemma {:induction false} SecondExact(overloads: seq<Function>, ins: seq<Object>, kw: Keywords, n: nat)
    requires AllRegistered(overloads) && n <= |overloads| && |overloads| > 1
    ensures OnceInOrder(Second(overloads, ins, kw, n), n, RetriedOf(overloads, ins, kw))
    ensures forall a | a in Second(overloads, ins, kw, n) :: IsOwn(overloads, ins, kw, a)
  {
    hide *;
    if n == 0 {
      NothingPlanned(overloads, ins, kw, RetriedOf(overloads, ins, kw));
    } else {
      SecondExact(overloads, ins, kw, n - 1);
      var a := SecondOneMore(overloads, ins, kw, n - 1);
      OneMoreInOrder(Second(overloads, ins, kw, n - 1), n - 1, RetriedOf(overloads, ins, kw), a);
    }
  }

  /** Unless the records are read past their end, the calls planned are those of a first pass, in
      which each overload that is accepted is called once, in order, with its own conversions if
      it is the only overload and with none otherwise; and then, if there are several, those of
      a second, in which each that can convert is called again, in order, with its conversions. */
  lemma PlanExact(overloads: seq<Function>, ins: seq<Object>, kw: Keywords) returns (first: seq<Attempt>, second: seq<Attempt>)
    requires AllRegistered(overloads) && forall k | 0 <= k < |overloads| :: !PastRecords(overloads[k], |ins|)
    ensures Plan(overloads, ins, kw) == first + second
    ensures OnceInOrder(first, |overloads|, AcceptedOf(overloads, ins, kw))
    ensures forall a | a in first :: IsFirst(overloads, ins, kw, a)
    ensures if |overloads| > 1 then OnceInOrder(second, |overloads|, RetriedOf(overloads, ins, kw)) else second == []
    ensures forall a | a in second :: IsOwn(overloads, ins, kw, a)
  {
    first, second := First(overloads, ins, kw, |overloads|), Second(overloads, ins, kw, |overloads|);
    FirstExact(overloads, ins, kw, |overloads|);
    if |overloads| > 1 { SecondExact(overloads, ins, kw, |overloads|); }
    hide First, Accepts, OnceInOrder, IsFirst, IsOwn;
  }
}
