/** That every call of `call_once_and_store_result` ends, in a run in which every thread that can
    move again and again moves, the GIL is given up again and again, and `fn` ends. */
module CallOnceFair {
  import opened Options
  import opened CallOnce

  /** An infinite run: its states, and who moves in each of them. */
  datatype Run<V> = Run(at: nat -> State<V>, mover: nat -> Thread)

  ghost predicate IsRun<V(!new)>(r: Run<V>) {
    Initial(r.at(0)) && forall i: nat {:trigger r.mover(i)} :: Step(r.at(i), r.mover(i), r.at(i + 1))
  }

  // ---- Fairness ----

  ghost predicate CanMove<V(!new)>(s: State<V>, t: Thread) {
    exists s' :: Step(s, t, s')
  }

  ghost predicate CanMoveAfter<V(!new)>(r: Run<V>, t: Thread, i: nat) {
    exists k: nat :: i <= k && CanMove(r.at(k), t)
  }

  ghost predicate CanMoveAgainAndAgain<V(!new)>(r: Run<V>, t: Thread, i: nat) {
    forall j: nat | i <= j :: CanMoveAfter(r, t, j)
  }

  ghost predicate MovesAfter<V>(r: Run<V>, t: Thread, i: nat) {
    exists k: nat :: i <= k && r.mover(k) == t
  }

  ghost predicate FreeAfter<V>(r: Run<V>, i: nat) {
    exists k: nat :: i <= k && r.at(k).gil.None?
  }

  predicate AtFn<V>(s: State<V>, t: Thread) {
    t in s.pc && (s.pc[t].InFn? || s.pc[t].FnReleased?)
  }

  ghost predicate FnEndsAfter<V>(r: Run<V>, t: Thread, i: nat) {
    exists k: nat :: i <= k && !AtFn(r.at(k), t)
  }

  ghost predicate Fair<V(!new)>(r: Run<V>) {
    && (forall t, i: nat :: CanMoveAgainAndAgain(r, t, i) ==> MovesAfter(r, t, i))
    && (forall i: nat :: FreeAfter(r, i))
    && (forall t, i: nat :: FnEndsAfter(r, t, i))
  }

  // ---- One thread ----

  lemma {:induction false} RunInv<V(!new)>(r: Run<V>, i: nat)
    requires IsRun(r)
    ensures Inv(r.at(i)) && r.at(i).pc.Keys == r.at(0).pc.Keys
  {
    if i > 0 {
      RunInv(r, i - 1);
      assert Step(r.at(i - 1), r.mover(i - 1), r.at(i));
      StepKeepsInv(r.at(i - 1), r.mover(i - 1), r.at(i));
    }
  }

  lemma StepOnlyMoves<V(!new)>(s: State<V>, u: Thread, s': State<V>, t: Thread)
    requires Step(s, u, s') && t in s.pc && t != u
    ensures t in s'.pc && s'.pc[t] == s.pc[t]
  {
  }

  /** The next move of a thread that moves at `k`, and the state it moves from. */
  lemma {:induction false} NextMove<V(!new)>(r: Run<V>, t: Thread, i: nat, k: nat) returns (m: nat)
    requires IsRun(r) && i <= k && r.mover(k) == t && t in r.at(i).pc
    ensures i <= m <= k && r.mover(m) == t && t in r.at(m).pc && r.at(m).pc[t] == r.at(i).pc[t]
    decreases k - i
  {
    if r.mover(i) == t {
      m := i;
    } else {
      StepOnlyMoves(r.at(i), r.mover(i), r.at(i + 1), t);
      m := NextMove(r, t, i + 1, k);
    }
  }

  lemma {:induction false} StaysUnmoved<V(!new)>(r: Run<V>, t: Thread, i: nat, k: nat)
    requires IsRun(r) && i <= k && t in r.at(i).pc && !MovesAfter(r, t, i)
    ensures t in r.at(k).pc && r.at(k).pc[t] == r.at(i).pc[t]
    decreases k
  {
    if i < k {
      StaysUnmoved(r, t, i, k - 1);
      assert r.mover(k - 1) != t;
      StepOnlyMoves(r.at(k - 1), r.mover(k - 1), r.at(k), t);
    }
  }

  /** A thread can move when the GIL is free, and whenever it holds it or needs no lock. */
  lemma Unblocked<V(!new)>(s: State<V>, t: Thread, v: V)
    requires t in s.pc && (if s.pc[t].Waiting? then !s.once.Running? else s.gil.None? || HoldsGil(s.pc[t]))
    ensures CanMove(s, t)
  {
    assert Step(s, t, Forward(s, t, false, v));
  }

  /** Unless it waits at the once flag, a thread moves on. */
  lemma MovesOn<V(!new)>(r: Run<V>, t: Thread, i: nat, v: V) returns (m: nat)
    requires IsRun(r) && Fair(r) && t in r.at(i).pc
    requires r.at(i).pc[t].Waiting? ==> forall j: nat | i <= j :: FlagFreeAfter(r, j)
    ensures i <= m && r.mover(m) == t && t in r.at(m).pc && r.at(m).pc[t] == r.at(i).pc[t]
  {
    if !MovesAfter(r, t, i) {
      forall j: nat | i <= j ensures CanMoveAfter(r, t, j) {
        var k: nat;
        if r.at(i).pc[t].Waiting? {
          assert FlagFreeAfter(r, j);
          k :| j <= k && !r.at(k).once.Running?;
        } else {
          assert FreeAfter(r, j);
          k :| j <= k && r.at(k).gil.None?;
        }
        StaysUnmoved(r, t, i, k);
        Unblocked(r.at(k), t, v);
      }
      assert CanMoveAgainAndAgain(r, t, i);
    }
    var k: nat :| i <= k && r.mover(k) == t;
    m := NextMove(r, t, i, k);
  }

  // ---- The end of a call ----

  predicate Ended(p: Pc) {
    p.Returned? || p.Failed?
  }

  predicate InCall(p: Pc) {
    !p.Away? && !p.Ready? && !Ended(p)
  }

  /** How far a call is from its end, whether it returns or throws. */
  function ToEnd(p: Pc): nat {
    match p
    case Away | Ready | Returned | Failed => 0
    case AfterOnce | ThrownOut => 1
    case Leaving | Unwinding => 2
    case Flagged => 3
    case Constructed | Throwing => 4
    case InFn | FnReleased => 5
    case InOnce => 6
    case Waiting => 7
  }

  lemma StepToEnd<V(!new)>(s: State<V>, t: Thread, s': State<V>)
    requires Step(s, t, s') && InCall(s.pc[t])
    ensures t in s'.pc && (InCall(s'.pc[t]) || Ended(s'.pc[t]))
    ensures ToEnd(s'.pc[t]) < ToEnd(s.pc[t]) || (AtFn(s, t) && AtFn(s', t))
  {
  }

  /** Where `fn` ends. */
  lemma {:induction false} FnEnd<V(!new)>(r: Run<V>, t: Thread, i: nat, k: nat) returns (m: nat)
    requires IsRun(r) && i <= k && AtFn(r.at(i), t) && !AtFn(r.at(k), t)
    ensures i < m <= k && t in r.at(m).pc && InCall(r.at(m).pc[t]) && ToEnd(r.at(m).pc[t]) < 5
    decreases k - i
  {
    if AtFn(r.at(i + 1), t) {
      m := FnEnd(r, t, i + 1, k);
    } else {
      m := i + 1;
      if r.mover(i) == t {
        FnStep(r.at(i), t, r.at(i + 1));
      } else {
        StepOnlyMoves(r.at(i), r.mover(i), r.at(i + 1), t);
      }
    }
  }

  lemma FnStep<V(!new)>(s: State<V>, t: Thread, s': State<V>)
    requires Step(s, t, s') && AtFn(s, t) && !AtFn(s', t)
    ensures t in s'.pc && InCall(s'.pc[t]) && ToEnd(s'.pc[t]) < 5
  {
  }

  /** A call that is past the once flag, or inside it, ends. */
  lemma {:induction false} EndsInside<V(!new)>(r: Run<V>, t: Thread, i: nat, v: V) returns (k: nat)
    requires IsRun(r) && Fair(r) && t in r.at(i).pc && InCall(r.at(i).pc[t]) && !r.at(i).pc[t].Waiting?
    ensures i <= k && t in r.at(k).pc && Ended(r.at(k).pc[t])
    decreases ToEnd(r.at(i).pc[t])
  {
    var next: nat;
    if AtFn(r.at(i), t) {
      assert FnEndsAfter(r, t, i);
      var out: nat :| i <= out && !AtFn(r.at(out), t);
      next := FnEnd(r, t, i, out);
    } else {
      var m := MovesOn(r, t, i, v);
      StepToEnd(r.at(m), t, r.at(m + 1));
      next := m + 1;
    }
    if Ended(r.at(next).pc[t]) {
      k := next;
    } else {
      k := EndsInside(r, t, next, v);
    }
  }

  // ---- The once flag ----

  ghost predicate FlagFreeAfter<V>(r: Run<V>, i: nat) {
    exists k: nat :: i <= k && !r.at(k).once.Running?
  }

  lemma StepOffFlag<V(!new)>(s: State<V>, t: Thread, s': State<V>, u: Thread)
    requires Step(s, t, s') && s.once == Running(u) && s'.once != Running(u) && Locked(s, t)
    ensures !s'.once.Running?
  {
  }

  /** The flag passes from one thread to another only through being free. */
  lemma {:induction false} FlagPasses<V(!new)>(r: Run<V>, u: Thread, i: nat, k: nat)
    requires IsRun(r) && i <= k && r.at(i).once == Running(u) && r.at(k).once != Running(u)
    ensures FlagFreeAfter(r, i)
    decreases k - i
  {
    RunInv(r, i);
    var t := r.mover(i);
    assert Step(r.at(i), t, r.at(i + 1));
    if r.at(i + 1).once == Running(u) {
      FlagPasses(r, u, i + 1, k);
    } else {
      StepOffFlag(r.at(i), t, r.at(i + 1), u);
    }
  }

  lemma FlagFrees<V(!new)>(r: Run<V>, i: nat, v: V)
    requires IsRun(r) && Fair(r)
    ensures FlagFreeAfter(r, i)
  {
    if r.at(i).once.Running? {
      var u := r.at(i).once.thread;
      RunInv(r, i);
      assert Locked(r.at(i), u);
      var k := EndsInside(r, u, i, v);
      RunInv(r, k);
      assert Locked(r.at(k), u);
      FlagPasses(r, u, i, k);
    }
  }

  /** Every call that has released the GIL ends, by returning or with an exception. */
  lemma CallEnds<V(!new)>(r: Run<V>, t: Thread, i: nat, v: V) returns (k: nat)
    requires IsRun(r) && Fair(r) && t in r.at(i).pc && InCall(r.at(i).pc[t])
    ensures i <= k && t in r.at(k).pc && Ended(r.at(k).pc[t])
  {
    if r.at(i).pc[t].Waiting? {
      forall j: nat | i <= j ensures FlagFreeAfter(r, j) { FlagFrees(r, j, v); }
      var m := MovesOn(r, t, i, v);
      StepToEnd(r.at(m), t, r.at(m + 1));
      k := EndsInside(r, t, m + 1, v);
    } else {
      k := EndsInside(r, t, i, v);
    }
  }

  // ---- There are such runs ----

  /** One thread that calls again and again. */
  function Alone<V>(v: V, i: nat): State<V>
    ensures Alone(v, i).pc.Keys == {0}
  {
    if i == 0 then State(map[0 := Away], None, Idle, false, None, 0) else Forward(Alone(v, i - 1), 0, false, v)
  }

  lemma {:induction false} AloneInv<V(!new)>(v: V, i: nat)
    ensures Inv(Alone(v, i)) && Step(Alone(v, i), 0, Alone(v, i + 1))
  {
    var s := Alone(v, i);
    if i > 0 {
      AloneInv(v, i - 1);
      StepKeepsInv(Alone(v, i - 1), 0, s);
    }
    assert Locked(s, 0) && Knows(s, s.pc[0]);
    AloneMoves(s, v);
  }

  lemma AloneMoves<V(!new)>(s: State<V>, v: V)
    requires Inv(s) && s.pc.Keys == {0} && Locked(s, 0)
    ensures Step(s, 0, Forward(s, 0, false, v))
    ensures s.gil.None? || Rank(Forward(s, 0, false, v).pc[0]) < Rank(s.pc[0]) || Forward(s, 0, false, v).gil.None?
  {
  }

  lemma {:induction false} AloneFrees<V(!new)>(v: V, i: nat) returns (k: nat)
    ensures i <= k && Alone(v, k).gil.None?
    decreases Rank(Alone(v, i).pc[0])
  {
    AloneInv(v, i);
    if Alone(v, i).gil.None? {
      k := i;
    } else {
      AloneMoves(Alone(v, i), v) by { assert Locked(Alone(v, i), 0); }
      if Alone(v, i + 1).gil.None? { k := i + 1; } else { k := AloneFrees(v, i + 1); }
    }
  }

  function AloneRun<V>(v: V): Run<V> {
    Run(i => Alone(v, i), _ => 0)
  }

  lemma AloneRuns<V(!new)>(v: V)
    ensures IsRun(AloneRun(v)) && AloneRun(v).at(2).pc == map[0 := Waiting]
  {
    var r := AloneRun(v);
    forall i: nat ensures Step(r.at(i), r.mover(i), r.at(i + 1)) { AloneInv(v, i); }
    assert Alone(v, 1) == Forward(Alone(v, 0), 0, false, v) && Alone(v, 2) == Forward(Alone(v, 1), 0, false, v);
    hide Step;
  }

  lemma AloneFnEnds<V(!new)>(v: V, t: Thread, i: nat)
    ensures FnEndsAfter(AloneRun(v), t, i)
  {
    var r := AloneRun(v);
    assert r.at(i + 1) == Forward(r.at(i), 0, false, v);
    assert !AtFn(r.at(i), t) || !AtFn(r.at(i + 1), t);
  }

  /** Such a run exists, with a call in it. */
  lemma FairRunExists<V(!new)>(v: V)
    ensures IsRun(AloneRun(v)) && Fair(AloneRun(v)) && AloneRun(v).at(2).pc == map[0 := Waiting]
  {
    var r := AloneRun(v);
    AloneRuns(v);
    forall i: nat ensures FreeAfter(r, i) {
      var k := AloneFrees(v, i);
      assert r.at(k).gil.None?;
    }
    forall t, i: nat ensures FnEndsAfter(r, t, i) { AloneFnEnds(v, t, i); }
    forall t, i: nat | CanMoveAgainAndAgain(r, t, i) ensures MovesAfter(r, t, i) {
      assert CanMoveAfter(r, t, i);
      OnlyOneMoves(v, t);
      assert r.mover(i) == 0;
    }
    hide IsRun, FnEndsAfter, FreeAfter;
  }

  lemma OnlyOneMoves<V(!new)>(v: V, t: Thread)
    ensures forall k: nat :: CanMove(Alone(v, k), t) ==> t == 0
  {
    hide Alone;
  }
}
