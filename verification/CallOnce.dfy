/** `call_once_and_store_result` by any number of threads, interleaved in any way: a state
    machine over the interpreter lock, the once flag of section [thread.once.callonce] of
    ISO/IEC 14882, and the stored object. */
module CallOnce {
  import opened Options

  type Thread = nat

  /** Where a thread is. Those marked with a lock hold the GIL. */
  datatype Pc =
    | Away                 // outside the call, without the GIL
    | Ready                // GIL: about to read is_initialized_
    | Waiting              // GIL released, at call_once
    | InOnce               // chosen by call_once, about to acquire the GIL
    | InFn                 // GIL: inside fn
    | FnReleased           // fn has released the GIL for a while
    | Constructed          // GIL: the object has been constructed
    | Flagged              // GIL: is_initialized_ has been set
    | Leaving              // GIL released, returning from call_once
    | Throwing             // GIL: fn or the constructor threw
    | Unwinding            // GIL released, the exception leaves call_once
    | ThrownOut            // out of call_once by exception, about to take the GIL back
    | Failed               // GIL: the exception is with the caller
    | AfterOnce            // out of call_once normally, about to take the GIL back
    | Returned             // GIL: the call has returned

  predicate HoldsGil(p: Pc) {
    p.Ready? || p.InFn? || p.Constructed? || p.Flagged? || p.Throwing? || p.Failed? || p.Returned?
  }

  /** Inside the function passed to call_once, or on the way out of it. */
  predicate RunsOnce(p: Pc) {
    p.InOnce? || p.InFn? || p.FnReleased? || p.Constructed? || p.Flagged? || p.Leaving? || p.Throwing? || p.Unwinding?
  }

  datatype OnceFlag = Idle | Running(thread: Thread) | Done

  /** `built` counts the successful constructions. */
  datatype State<V> = State(pc: map<Thread, Pc>, gil: Option<Thread>, once: OnceFlag,
                            initialized: bool, stored: Option<V>, built: nat)

  function Go<V>(s: State<V>, t: Thread, p: Pc): State<V> {
    s.(pc := s.pc[t := p])
  }

  function TakeGil<V>(s: State<V>, t: Thread, p: Pc): State<V> {
    Go(s, t, p).(gil := Some(t))
  }

  function DropGil<V>(s: State<V>, t: Thread, p: Pc): State<V> {
    Go(s, t, p).(gil := None)
  }

  ghost predicate Step<V(!new)>(s: State<V>, t: Thread, s': State<V>) {
    && t in s.pc
    && match s.pc[t]
       case Away => s.gil.None? && s' == TakeGil(s, t, Ready)
       case Ready => s' == DropGil(s, t, Away) || s' == if s.initialized then Go(s, t, Returned) else DropGil(s, t, Waiting)
       case Waiting =>
         || (s.once.Idle? && s' == Go(s, t, InOnce).(once := Running(t)))
         || (s.once.Done? && s' == Go(s, t, AfterOnce))
       case InOnce => s.gil.None? && s' == TakeGil(s, t, InFn)
       case InFn =>
         || s' == DropGil(s, t, FnReleased)
         || s' == Go(s, t, Throwing)
         || exists v :: s' == Go(s, t, Constructed).(stored := Some(v), built := s.built + 1)
       case FnReleased => s.gil.None? && s' == TakeGil(s, t, InFn)
       case Constructed => s' == Go(s, t, Flagged).(initialized := true)
       case Flagged => s' == DropGil(s, t, Leaving)
       case Leaving => s' == Go(s, t, AfterOnce).(once := Done)
       case Throwing => s' == DropGil(s, t, Unwinding)
       case Unwinding => s' == Go(s, t, ThrownOut).(once := Idle)
       case ThrownOut => s.gil.None? && s' == TakeGil(s, t, Failed)
       case AfterOnce => s.gil.None? && s' == TakeGil(s, t, Returned)
       case Failed => s' == DropGil(s, t, Away) || s' == Go(s, t, Ready)
       case Returned => s' == DropGil(s, t, Away) || s' == Go(s, t, Ready)
  }

  ghost predicate Initial<V>(s: State<V>) {
    && (forall t | t in s.pc :: s.pc[t].Away?)
    && s.gil.None? && s.once.Idle? && !s.initialized && s.stored.None? && s.built == 0
  }

  ghost predicate Follows<V(!new)>(s: State<V>, s': State<V>) {
    exists t :: Step(s, t, s')
  }

  /** A run of `n` steps, any thread moving at each. */
  ghost predicate Leads<V(!new)>(s: State<V>, end: State<V>, n: nat)
    decreases n
  {
    if n == 0 then s == end else exists s' :: Follows(s, s') && Leads(s', end, n - 1)
  }

  ghost predicate Reachable<V(!new)>(s: State<V>) {
    exists start: State<V>, n: nat :: Initial(start) && Leads(start, s, n)
  }

  // ---- The invariant ----

  /** What a position says about the object. */
  predicate Knows<V>(s: State<V>, p: Pc) {
    match p
    case Away | Ready | Waiting | ThrownOut | Failed => true
    case InOnce | InFn | FnReleased | Throwing | Unwinding => !s.initialized && s.stored.None?
    case Constructed => !s.initialized && s.stored.Some?
    case Flagged | Leaving | AfterOnce | Returned => s.initialized
  }

  /** Who holds the two locks is where a holder can be. */
  predicate Locked<V>(s: State<V>, t: Thread)
    requires t in s.pc
  {
    (HoldsGil(s.pc[t]) <==> s.gil == Some(t)) && (RunsOnce(s.pc[t]) <==> s.once == Running(t))
  }

  predicate Consistent<V>(s: State<V>) {
    && (s.gil.Some? ==> s.gil.value in s.pc) && (s.once.Running? ==> s.once.thread in s.pc)
    && (s.once.Idle? ==> !s.initialized && s.stored.None?) && (s.once.Done? ==> s.initialized)
    && (s.initialized ==> s.stored.Some?)
    && s.built == if s.stored.Some? then 1 else 0
  }

  ghost predicate Inv<V>(s: State<V>) {
    Consistent(s) && forall t | t in s.pc :: Locked(s, t) && Knows(s, s.pc[t])
  }

  lemma StepLocks<V(!new)>(s: State<V>, t: Thread, s': State<V>)
    requires t in s.pc && Locked(s, t) && Step(s, t, s')
    ensures t in s'.pc && s'.pc == s.pc[t := s'.pc[t]] && Locked(s', t)
  {
  }

  lemma StepAlone<V(!new)>(s: State<V>, t: Thread, s': State<V>)
    requires t in s.pc && Locked(s, t) && Knows(s, s.pc[t]) && Consistent(s) && Step(s, t, s')
    ensures t in s'.pc && s'.pc == s.pc[t := s'.pc[t]] && Locked(s', t) && Knows(s', s'.pc[t]) && Consistent(s')
    ensures s.initialized ==> s'.initialized && s'.stored == s.stored
  {
    StepLocks(s, t, s');
  }

  /** What a step of one thread leaves to another. */
  lemma StepBeside<V(!new)>(s: State<V>, t: Thread, s': State<V>, w: Thread)
    requires t in s.pc && Locked(s, t) && Knows(s, s.pc[t]) && Consistent(s) && Step(s, t, s')
    requires w != t && w in s.pc && Locked(s, w) && Knows(s, s.pc[w])
    ensures w in s'.pc && Locked(s', w) && Knows(s', s'.pc[w])
  {
  }

  lemma StepKeepsInv<V(!new)>(s: State<V>, t: Thread, s': State<V>)
    requires Inv(s) && Step(s, t, s')
    ensures Inv(s') && s'.pc.Keys == s.pc.Keys
    ensures s.initialized ==> s'.initialized && s'.stored == s.stored
  {
    assert t in s.pc;
    hide Step, Locked, Knows, Consistent;
    StepAlone(s, t, s');
    forall w | w in s'.pc ensures Locked(s', w) && Knows(s', s'.pc[w]) {
      if w != t { StepBeside(s, t, s', w); }
    }
  }

  /** A run keeps the invariant, and the object once a thread has seen it initialised. */
  lemma {:induction false} RunKeeps<V(!new)>(s: State<V>, end: State<V>, n: nat)
    requires Inv(s) && Leads(s, end, n)
    ensures Inv(end)
    ensures s.initialized ==> end.initialized && end.stored == s.stored
    decreases n
  {
    if n > 0 {
      var s' :| Follows(s, s') && Leads(s', end, n - 1);
      var t :| Step(s, t, s');
      StepKeepsInv(s, t, s');
      RunKeeps(s', end, n - 1);
    }
  }

  lemma ReachableInv<V(!new)>(s: State<V>)
    requires Reachable(s)
    ensures Inv(s)
  {
    var start: State<V>, n: nat :| Initial(start) && Leads(start, s, n);
    RunKeeps(start, s, n);
  }

  // ---- Safety ----

  /** On every run the object is constructed at most once, and a thread whose call has returned
      finds it. */
  lemma ConstructedOnce<V(!new)>(s: State<V>)
    requires Reachable(s)
    ensures s.built <= 1
    ensures forall t | t in s.pc && s.pc[t].Returned? :: s.initialized && s.stored.Some?
  {
    ReachableInv(s);
    assert forall t | t in s.pc :: Knows(s, s.pc[t]);
  }

  /** The object that a returned call has found is never replaced. */
  lemma StoredStays<V(!new)>(s: State<V>, t: Thread, end: State<V>, n: nat)
    requires Reachable(s) && t in s.pc && s.pc[t].Returned? && Leads(s, end, n)
    ensures end.stored.Some? && end.stored == s.stored
  {
    ReachableInv(s);
    assert Knows(s, s.pc[t]);
    RunKeeps(s, end, n);
  }

  // ---- No deadlock ----

  /** The thread that `t` is waiting for: whoever holds the GIL, else the thread inside the once
      flag that `t` waits at, else itself. */
  function Awaited<V>(s: State<V>, t: Thread): Thread
    requires t in s.pc
  {
    if s.gil.Some? then s.gil.value
    else if s.pc[t].Waiting? && s.once.Running? then s.once.thread
    else t
  }

  /** A step of a thread on its way to `Returned`, or out of the way. `v` is what `fn` returns. */
  function Forward<V>(s: State<V>, u: Thread, helps: bool, v: V): State<V>
    requires u in s.pc
  {
    match s.pc[u]
    case Away => TakeGil(s, u, Ready)
    case Ready => if helps then DropGil(s, u, Away) else if s.initialized then Go(s, u, Returned) else DropGil(s, u, Waiting)
    case Waiting => if s.once.Idle? then Go(s, u, InOnce).(once := Running(u)) else Go(s, u, AfterOnce)
    case InOnce => TakeGil(s, u, InFn)
    case InFn => Go(s, u, Constructed).(stored := Some(v), built := s.built + 1)
    case FnReleased => TakeGil(s, u, InFn)
    case Constructed => Go(s, u, Flagged).(initialized := true)
    case Flagged => DropGil(s, u, Leaving)
    case Leaving => Go(s, u, AfterOnce).(once := Done)
    case Throwing => DropGil(s, u, Unwinding)
    case Unwinding => Go(s, u, ThrownOut).(once := Idle)
    case ThrownOut => TakeGil(s, u, Failed)
    case AfterOnce => TakeGil(s, u, Returned)
    case Failed => if helps then DropGil(s, u, Away) else Go(s, u, Ready)
    case Returned => DropGil(s, u, Away)
  }

  /** Steps left to `Returned`. */
  function Rank(p: Pc): nat {
    match p
    case Returned => 0
    case AfterOnce => 1
    case Leaving => 2
    case Flagged => 3
    case Constructed => 4
    case InFn => 5
    case InOnce | FnReleased => 6
    case Waiting => 7
    case Ready => 8
    case Away | Failed => 9
    case ThrownOut => 10
    case Unwinding => 11
    case Throwing => 12
  }

  /** The thread's own steps, and those of the thread running inside the once flag. */
  function Distance<V>(s: State<V>, t: Thread): nat
    requires t in s.pc
  {
    Rank(s.pc[t]) + if s.once.Running? && s.once.thread != t && s.once.thread in s.pc then Rank(s.pc[s.once.thread]) else 0
  }

  /** Whether the GIL is with a thread that is neither. */
  function InTheWay<V>(s: State<V>, t: Thread): nat {
    if s.gil.Some? && s.gil != Some(t) && s.once != Running(s.gil.value) then 1 else 0
  }

  predicate Closer<V>(s: State<V>, s': State<V>, t: Thread)
    requires t in s.pc
  {
    && t in s'.pc && Distance(s', t) <= Distance(s, t)
    && (Distance(s', t) == Distance(s, t) ==> InTheWay(s', t) < InTheWay(s, t))
  }

  lemma AwaitedCanMove<V(!new)>(s: State<V>, t: Thread, v: V)
    requires Inv(s) && t in s.pc && !s.pc[t].Returned?
    ensures Awaited(s, t) in s.pc
    ensures var u := Awaited(s, t); Step(s, u, Forward(s, u, u != t, v))
  {
  }

  lemma OwnMoveCloser<V(!new)>(s: State<V>, t: Thread, v: V)
    requires Inv(s) && t in s.pc && !s.pc[t].Returned? && Awaited(s, t) == t
    ensures Closer(s, Forward(s, t, false, v), t)
  {
  }

  lemma OtherMoveCloser<V(!new)>(s: State<V>, t: Thread, v: V)
    requires Inv(s) && t in s.pc && !s.pc[t].Returned? && Awaited(s, t) != t
    ensures Awaited(s, t) in s.pc && Closer(s, Forward(s, Awaited(s, t), true, v), t)
  {
    assert Locked(s, Awaited(s, t)) && Locked(s, t);
  }

  /** Whoever a call waits for can move, and its move brings the call closer to its return. */
  lemma AwaitedMoves<V(!new)>(s: State<V>, t: Thread, v: V)
    requires Inv(s) && t in s.pc && !s.pc[t].Returned?
    ensures Awaited(s, t) in s.pc
    ensures var u := Awaited(s, t); Step(s, u, Forward(s, u, u != t, v)) && Closer(s, Forward(s, u, u != t, v), t)
  {
    AwaitedCanMove(s, t, v);
    if Awaited(s, t) == t { OwnMoveCloser(s, t, v); } else { OtherMoveCloser(s, t, v); }
    hide Step, Knows, Locked, Closer, Forward;
  }

  /** A thread at the once flag never holds the GIL, so neither lock is waited for while the
      other one is held by the waiter. */
  lemma NoWaitWithGil<V(!new)>(s: State<V>, t: Thread)
    requires Reachable(s) && t in s.pc && s.pc[t].Waiting?
    ensures s.gil != Some(t)
  {
    ReachableInv(s);
  }

  /** No reachable state is a deadlock: some thread that a call waits for can move. */
  lemma NoDeadlock<V(!new)>(s: State<V>, t: Thread, v: V)
    requires Reachable(s) && t in s.pc && !s.pc[t].Returned?
    ensures exists s' :: Step(s, Awaited(s, t), s')
  {
    ReachableInv(s);
    AwaitedMoves(s, t, v);
  }

  lemma {:induction false} CanReturnFrom<V(!new)>(s: State<V>, t: Thread, v: V) returns (end: State<V>, n: nat)
    requires Inv(s) && t in s.pc
    ensures Leads(s, end, n) && t in end.pc && end.pc[t].Returned?
    decreases Distance(s, t), InTheWay(s, t)
  {
    hide Step, Locked, Knows, Consistent, Forward, Distance, InTheWay, Awaited;
    if s.pc[t].Returned? {
      end, n := s, 0;
    } else {
      AwaitedMoves(s, t, v);
      var u := Awaited(s, t);
      var s' := Forward(s, u, u != t, v);
      StepKeepsInv(s, u, s');
      var m;
      end, m := CanReturnFrom(s', t, v);
      n := m + 1;
      assert Follows(s, s');
    }
  }

  /** Nor a trap: from every reachable state every thread's call can still return, whatever the
      others have done before, including throwing. */
  lemma CanReturn<V(!new)>(s: State<V>, t: Thread, v: V)
    requires Reachable(s) && t in s.pc
    ensures exists end: State<V>, n: nat :: Leads(s, end, n) && t in end.pc && end.pc[t].Returned?
  {
    ReachableInv(s);
    var end, n := CanReturnFrom(s, t, v);
  }
}
