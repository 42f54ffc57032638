/** The breadth-first walk over the call graph. A node is marked visited when it is taken
    from the queue, not when it is put there, so the queue may hold a node several times
    and an action may be applied to it several times. */
module GraphWalk {
  import opened MultiMap
  import opened Reach

  datatype Verdict = NEXT | SKIP | STOP

  /** An action: its answer for a node may depend on the nodes it was applied to before. */
  type Actor<!T> = (seq<T>, T) -> Verdict

  /** `STOP` leaves only the `switch`, so the walk goes on from every node but a skipped one. */
  ghost predicate Continues<T>(act: Actor<T>, trace: seq<T>, i: nat)
    requires i < |trace|
  {
    act(trace[..i], trace[i]) != SKIP
  }

  /** `x` is a successor of one of the first `n` nodes, one the walk went on from. */
  ghost predicate Discovered<T>(g: Graph<T>, act: Actor<T>, trace: seq<T>, n: nat, x: T)
    requires n <= |trace|
  {
    exists j :: 0 <= j < n && Continues(act, trace, j) && x in Get(g, trace[j])
  }

  /** `trace` lists the nodes an action was applied to: the start, then successors of nodes
      the walk went on from, and all of those. */
  ghost predicate Walked<T>(g: Graph<T>, start: T, act: Actor<T>, trace: seq<T>) {
    && |trace| > 0 && trace[0] == start
    && (forall i | 0 < i < |trace| :: Discovered(g, act, trace, i, trace[i]))
    && (forall i | 0 <= i < |trace| && Continues(act, trace, i) :: forall x | x in Get(g, trace[i]) :: x in trace)
  }

  /** When whether to go on depends on the node alone, the nodes acted on are exactly those
      reachable through nodes the walk goes on from. */
  lemma WalkedExactly<T(!new)>(g: Graph<T>, start: T, act: Actor<T>, open: T -> bool, trace: seq<T>, x: T)
    requires Walked(g, start, act, trace) && forall s, y :: act(s, y) != SKIP <==> open(y)
    ensures x in trace <==> ReachesVia(g, open, start, x)
  {
    if x in trace {
      var i :| 0 <= i < |trace| && trace[i] == x;
      TracedIsReached(g, start, act, open, trace, i);
    }
    if ReachesVia(g, open, start, x) {
      var p :| IsPath(g, p, start, x) && Open(open, p);
      forall y | y in Elements(trace) && open(y) ensures Get(g, y) <= Elements(trace) {
        var i :| 0 <= i < |trace| && trace[i] == y;
        assert Continues(act, trace, i);
      }
      ClosedContains(g, open, p, start, x, Elements(trace));
    }
  }

  lemma {:induction false} TracedIsReached<T(!new)>(g: Graph<T>, start: T, act: Actor<T>, open: T -> bool, trace: seq<T>, i: nat)
    requires Walked(g, start, act, trace) && forall s, y :: act(s, y) != SKIP <==> open(y)
    requires i < |trace|
    ensures ReachesVia(g, open, start, trace[i])
  {
    if i == 0 {
      ReachesSelf(g, open, start);
    } else {
      assert Discovered(g, act, trace, i, trace[i]);
      var j :| 0 <= j < i && Continues(act, trace, j) && trace[i] in Get(g, trace[j]);
      TracedIsReached(g, start, act, open, trace, j);
      ReachesStep(g, open, start, trace[j], trace[i]);
    }
  }

  /** When no answer is `SKIP`, whatever else the answers are, the nodes acted on are exactly
      the reachable ones. */
  lemma WalkedAll<T(!new)>(g: Graph<T>, start: T, act: Actor<T>, trace: seq<T>, x: T)
    requires Walked(g, start, act, trace) && forall s, y :: act(s, y) != SKIP
    ensures x in trace <==> Reaches(g, start, x)
  {
    WalkedExactly(g, start, act, _ => true, trace, x);
    if Reaches(g, start, x) {
      var p :| IsPath(g, p, start, x);
      assert Open((_: T) => true, p);
    }
  }

  // ---- Termination ----

  ghost function Nodes<T>(g: Graph<T>, start: T): set<T> {
    {start} + g.Keys + (set k, v | k in g && v in g[k] :: v)
  }

  /** The position of the first unvisited queue entry, or the length of the queue. */
  function FirstUnvisited<T(==)>(queue: seq<T>, visited: set<T>): nat {
    if queue == [] || queue[0] !in visited then 0 else 1 + FirstUnvisited(queue[1..], visited)
  }

  lemma {:induction false} FirstUnvisitedAppend<T>(queue: seq<T>, more: seq<T>, visited: set<T>)
    requires forall x | x in more :: x !in visited
    ensures FirstUnvisited(queue + more, visited) == FirstUnvisited(queue, visited)
  {
    if queue == [] {
      assert queue + more == more;
    } else {
      assert (queue + more)[1..] == queue[1..] + more;
      FirstUnvisitedAppend(queue[1..], more, visited);
    }
  }

  /** `TryPushToFQ` for each successor. */
  method PushUnvisited<T(==)>(successors: set<T>, visited: set<T>, queue: seq<T>) returns (queue': seq<T>)
    ensures queue <= queue' && Elements(queue'[|queue|..]) == successors - visited
  {
    queue' := queue;
    ghost var more: seq<T> := [];
    var todo := successors;
    while todo != {}
      invariant todo <= successors
      invariant queue' == queue + more
      invariant Elements(more) == successors - todo - visited
      decreases |todo|
    {
      var x :| x in todo;
      todo := todo - {x};
      if x !in visited {
        queue' := queue' + [x];
        assert Elements(more + [x]) == Elements(more) + {x};
        more := more + [x];
      }
    }
    assert queue'[|queue|..] == more;
  }

  // ---- The walk ----

  /** What holds before each round: the trace is closed up to the queue. */
  ghost predicate Walking<T>(g: Graph<T>, start: T, act: Actor<T>, trace: seq<T>, queue: seq<T>) {
    && (trace == [] ==> queue == [start])
    && (trace != [] ==> trace[0] == start)
    && (forall i | 0 < i < |trace| :: Discovered(g, act, trace, i, trace[i]))
    && (trace != [] ==> forall k | 0 <= k < |queue| :: Discovered(g, act, trace, |trace|, queue[k]))
    && (forall i | 0 <= i < |trace| && Continues(act, trace, i) :: forall x | x in Get(g, trace[i]) :: x in trace || x in queue)
  }

  lemma DiscoveredStays<T>(g: Graph<T>, act: Actor<T>, trace: seq<T>, cur: T, i: nat, x: T)
    requires i <= |trace| && Discovered(g, act, trace, i, x)
    ensures Discovered(g, act, trace + [cur], i, x)
  {
    var j :| 0 <= j < i && Continues(act, trace, j) && x in Get(g, trace[j]);
    assert (trace + [cur])[..j] == trace[..j];
    assert Continues(act, trace + [cur], j);
  }

  /** What is queued after a round was discovered. */
  lemma QueueDiscovered<T>(g: Graph<T>, start: T, act: Actor<T>, trace: seq<T>, queue: seq<T>, more: seq<T>, k: nat)
    requires Walking(g, start, act, trace, queue) && queue != [] && k < |queue[1..] + more|
    requires more == [] || (act(trace, queue[0]) != SKIP && Elements(more) <= Get(g, queue[0]))
    ensures Discovered(g, act, trace + [queue[0]], |trace| + 1, (queue[1..] + more)[k])
  {
    var cur, trace' := queue[0], trace + [queue[0]];
    assert trace'[..|trace|] == trace && trace'[|trace|] == cur;
    if k < |queue| - 1 {
      assert Discovered(g, act, trace, |trace|, queue[k + 1]);
      DiscoveredStays(g, act, trace, cur, |trace|, queue[k + 1]);
      var j :| 0 <= j < |trace| && Continues(act, trace', j) && queue[k + 1] in Get(g, trace'[j]);
    } else {
      assert (queue[1..] + more)[k] in Elements(more);
      assert Continues(act, trace', |trace|);
    }
  }

  /** The trace stays closed up to the queue. */
  lemma StillClosed<T>(g: Graph<T>, start: T, act: Actor<T>, trace: seq<T>, queue: seq<T>, more: seq<T>, i: nat, x: T)
    requires Walking(g, start, act, trace, queue) && queue != [] && i < |trace + [queue[0]]|
    requires act(trace, queue[0]) != SKIP ==> Elements(more) == Get(g, queue[0]) - Elements(trace + [queue[0]])
    requires Continues(act, trace + [queue[0]], i) && x in Get(g, (trace + [queue[0]])[i])
    ensures x in trace + [queue[0]] || x in queue[1..] + more
  {
    var trace' := trace + [queue[0]];
    if i < |trace| {
      assert trace'[..i] == trace[..i] && trace'[i] == trace[i];
      assert Continues(act, trace, i);
      assert x in trace || x in queue;
      assert x in queue ==> x == queue[0] || x in queue[1..];
    } else if x !in trace' {
      assert trace'[..i] == trace;
      assert x in Elements(more);
    }
  }

  lemma WalkingStep<T>(g: Graph<T>, start: T, act: Actor<T>, trace: seq<T>, queue: seq<T>, more: seq<T>)
    requires Walking(g, start, act, trace, queue) && queue != []
    requires if act(trace, queue[0]) == SKIP then more == []
             else Elements(more) == Get(g, queue[0]) - Elements(trace + [queue[0]])
    ensures Walking(g, start, act, trace + [queue[0]], queue[1..] + more)
  {
    var cur, trace', queue' := queue[0], trace + [queue[0]], queue[1..] + more;
    hide Continues, Discovered;
    forall i | 0 < i < |trace'| ensures Discovered(g, act, trace', i, trace'[i]) {
      if i < |trace| {
        DiscoveredStays(g, act, trace, cur, i, trace[i]);
      } else {
        assert Discovered(g, act, trace, |trace|, queue[0]);
        DiscoveredStays(g, act, trace, cur, |trace|, cur);
      }
    }
    forall k | 0 <= k < |queue'| ensures Discovered(g, act, trace', |trace'|, queue'[k]) {
      QueueDiscovered(g, start, act, trace, queue, more, k);
    }
    forall i, x | 0 <= i < |trace'| && Continues(act, trace', i) && x in Get(g, trace'[i]) ensures x in trace' || x in queue' {
      StillClosed(g, start, act, trace, queue, more, i, x);
    }
  }

  lemma WalkingStarts<T>(g: Graph<T>, start: T, act: Actor<T>)
    ensures Walking(g, start, act, [], [start])
  {
  }

  lemma WalkingEnds<T>(g: Graph<T>, start: T, act: Actor<T>, trace: seq<T>)
    requires Walking(g, start, act, trace, [])
    ensures Walked(g, start, act, trace)
  {
  }

  lemma QueueInNodes<T>(g: Graph<T>, start: T, act: Actor<T>, trace: seq<T>, queue: seq<T>)
    requires Walking(g, start, act, trace, queue)
    ensures forall x | x in queue :: x in Nodes(g, start)
  {
  }

  // ---- The order of the walk ----

  /** The first `n` of `all` have been acted on, the others are queued. The levels ascend, and
      those queued are at most one further than the last node acted on. */
  predicate Ascending(levels: seq<nat>, n: nat) {
    && (forall i, j | 0 <= i < j < |levels| :: levels[i] <= levels[j])
    && (forall i | 0 <= i < |levels| :: levels[i] <= if 0 < n <= |levels| then levels[n - 1] + 1 else 0)
  }

  /** Entry `i` was put there by a node of the level before it. */
  ghost predicate FromLevelBefore<T>(g: Graph<T>, act: Actor<T>, all: seq<T>, n: nat, levels: seq<nat>, i: nat)
    requires n <= |all| == |levels| && i < |all|
  {
    exists j :: 0 <= j < i && j < n && Continues(act, all, j) && all[i] in Get(g, all[j]) && levels[i] == levels[j] + 1
  }

  /** A successor of entry `j` is there, and not later than one level after it. */
  ghost predicate OneLevelOn<T>(all: seq<T>, levels: seq<nat>, j: nat, x: T)
    requires |all| == |levels| && j < |all|
  {
    exists i :: 0 <= i < |all| && all[i] == x && levels[i] <= levels[j] + 1
  }

  ghost predicate Leveled<T>(g: Graph<T>, start: T, act: Actor<T>, all: seq<T>, n: nat, levels: seq<nat>) {
    && n <= |all| == |levels| && |all| > 0 && all[0] == start && levels[0] == 0
    && Ascending(levels, n)
    && (forall i | 0 < i < |all| :: FromLevelBefore(g, act, all, n, levels, i))
    && (forall j | 0 <= j < n && Continues(act, all, j) :: forall x | x in Get(g, all[j]) :: OneLevelOn(all, levels, j, x))
  }

  ghost predicate InLevels<T>(g: Graph<T>, start: T, act: Actor<T>, trace: seq<T>) {
    exists levels :: Leveled(g, start, act, trace, |trace|, levels)
  }

  lemma LeveledStarts<T>(g: Graph<T>, start: T, act: Actor<T>)
    ensures Leveled(g, start, act, [] + [start], 0, [0])
  {
  }

  lemma Requeued<T>(trace: seq<T>, queue: seq<T>, more: seq<T>)
    requires queue != []
    ensures (trace + [queue[0]]) + (queue[1..] + more) == (trace + queue) + more
    ensures (trace + queue)[|trace|] == queue[0] && (trace + queue)[..|trace|] == trace
    ensures (trace + queue)[..|trace| + 1] == trace + [queue[0]]
  {
  }

  lemma SameBefore<T>(act: Actor<T>, all: seq<T>, more: seq<T>, j: nat)
    requires j < |all|
    ensures Continues(act, all + more, j) == Continues(act, all, j) && (all + more)[j] == all[j]
  {
    assert (all + more)[..j] == all[..j];
  }

  lemma LeveledStep<T>(g: Graph<T>, start: T, act: Actor<T>, all: seq<T>, n: nat, levels: seq<nat>, more: seq<T>)
    returns (levels': seq<nat>)
    requires Leveled(g, start, act, all, n, levels) && n < |all|
    requires if !Continues(act, all, n) then more == [] else Elements(more) == Get(g, all[n]) - Elements(all[..n + 1])
    ensures Leveled(g, start, act, all + more, n + 1, levels')
  {
    levels' := levels + seq(|more|, _ => levels[n] + 1);
    var all', n' := all + more, n + 1;
    forall i | 0 < i < |all'| ensures FromLevelBefore(g, act, all', n', levels', i) {
      if i < |all| {
        assert FromLevelBefore(g, act, all, n, levels, i);
        var j :| 0 <= j < i && j < n && Continues(act, all, j) && all[i] in Get(g, all[j]) && levels[i] == levels[j] + 1;
        SameBefore(act, all, more, j);
        assert levels'[i] == levels'[j] + 1;
      } else {
        assert all'[i] == more[i - |all|] && all'[i] in Elements(more);
        SameBefore(act, all, more, n);
        assert levels'[i] == levels'[n] + 1;
      }
    }
    forall j, x | 0 <= j < n + 1 && Continues(act, all', j) && x in Get(g, all'[j]) ensures OneLevelOn(all', levels', j, x) {
      SameBefore(act, all, more, j);
      if j < n {
        assert OneLevelOn(all, levels, j, x);
        var i :| 0 <= i < |all| && all[i] == x && levels[i] <= levels[j] + 1;
        assert all'[i] == x && levels'[i] <= levels'[j] + 1;
      } else if x in more {
        var k :| 0 <= k < |more| && more[k] == x;
        assert all'[|all| + k] == x && levels'[|all| + k] == levels'[j] + 1;
      } else {
        assert x !in Elements(more) && x in Get(g, all[n]);
        assert x in Elements(all[..n + 1]);
        var i :| 0 <= i < n + 1 && all[i] == x;
        assert all'[i] == x && levels'[i] <= levels'[j];
      }
    }
  }

  /** A node acted on at a level is reached by as many steps. */
  lemma {:induction false} LevelReached<T(!new)>(g: Graph<T>, start: T, act: Actor<T>, open: T -> bool, trace: seq<T>, levels: seq<nat>, i: nat)
    returns (p: seq<T>)
    requires Leveled(g, start, act, trace, |trace|, levels) && forall s, y :: act(s, y) != SKIP <==> open(y)
    requires i < |trace|
    ensures IsPath(g, p, start, trace[i]) && Open(open, p) && |p| == levels[i] + 1
  {
    if i == 0 {
      p := [start];
    } else {
      assert FromLevelBefore(g, act, trace, |trace|, levels, i);
      var j :| 0 <= j < i && Continues(act, trace, j) && trace[i] in Get(g, trace[j]) && levels[i] == levels[j] + 1;
      var q := LevelReached(g, start, act, open, trace, levels, j);
      p := q + [trace[i]];
    }
  }

  /** A node reached by some steps is acted on at no later level. */
  lemma {:induction false} PathLevel<T(!new)>(g: Graph<T>, start: T, act: Actor<T>, open: T -> bool, trace: seq<T>, levels: seq<nat>, p: seq<T>, x: T)
    returns (i: nat)
    requires Leveled(g, start, act, trace, |trace|, levels) && forall s, y :: act(s, y) != SKIP <==> open(y)
    requires IsPath(g, p, start, x) && Open(open, p)
    ensures i < |trace| && trace[i] == x && levels[i] <= |p| - 1
    decreases |p|
  {
    if |p| == 1 {
      i := 0;
    } else {
      var q := p[..|p| - 1];
      var y := q[|q| - 1];
      assert forall k | 0 <= k < |q| :: q[k] == p[k];
      var j := PathLevel(g, start, act, open, trace, levels, q, y);
      assert open(p[|p| - 2]) && Continues(act, trace, j);
      assert p[|p| - 2 + 1] in Get(g, p[|p| - 2]);
      assert OneLevelOn(trace, levels, j, x);
      i :| 0 <= i < |trace| && trace[i] == x && levels[i] <= levels[j] + 1;
    }
  }

  /** Breadth first: a node that can be reached in fewer steps than another is acted on before
      it is, and before it is again. */
  lemma BreadthFirst<T(!new)>(g: Graph<T>, start: T, act: Actor<T>, open: T -> bool, trace: seq<T>, i: nat, p: seq<T>, x: T) returns (j: nat)
    requires InLevels(g, start, act, trace) && forall s, y :: act(s, y) != SKIP <==> open(y)
    requires i < |trace| && IsPath(g, p, start, x) && Open(open, p)
    requires forall q | IsPath(g, q, start, trace[i]) && Open(open, q) :: |q| > |p|
    ensures j < i && trace[j] == x
  {
    var levels :| Leveled(g, start, act, trace, |trace|, levels);
    j := PathLevel(g, start, act, open, trace, levels, p, x);
    var q := LevelReached(g, start, act, open, trace, levels, i);
  }

  method VisitSubtreeBFS<T(==,!new)>(g: Graph<T>, start: T, act: Actor<T>) returns (trace: seq<T>)
    ensures Walked(g, start, act, trace) && InLevels(g, start, act, trace)
  {
    hide Walking, Walked, Nodes, Leveled;
    var visited: set<T> := {};
    var queue := [start];
    trace := [];
    WalkingStarts(g, start, act);
    ghost var levels := [0];
    LeveledStarts(g, start, act);
    while queue != []
      invariant visited == Elements(trace)
      invariant Walking(g, start, act, trace, queue)
      invariant Leveled(g, start, act, trace + queue, |trace|, levels)
      decreases Nodes(g, start) - visited, FirstUnvisited(queue, visited)
    {
      QueueInNodes(g, start, act, trace, queue);
      ghost var trace0, queue0, visited0 := trace, queue, visited;
      var cur := queue[0];
      queue := queue[1..];
      visited := visited + {cur};
      var ret := act(trace, cur);
      trace := trace + [cur];
      if ret != SKIP {
        queue := PushUnvisited(if cur in g then g[cur] else {}, visited, queue);
      }
      ghost var more := queue[|queue0| - 1..];
      assert queue == queue0[1..] + more;
      assert visited == Elements(trace);
      WalkingStep(g, start, act, trace0, queue0, more);
      Requeued(trace0, queue0, more);
      levels := LeveledStep(g, start, act, trace0 + queue0, |trace0|, levels, more);
      FirstUnvisitedAppend(queue0[1..], more, visited);
      if cur in visited0 {
        assert visited == visited0;
      } else {
        assert cur in Nodes(g, start) - visited0;
      }
    }
    WalkingEnds(g, start, act, trace);
    assert trace + queue == trace;
  }
}
