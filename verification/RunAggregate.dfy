/** What the subsystem analyzer answers on the call graph that a run of updates has left. */
module RunAggregate {
  import opened MultiMap
  import opened Reach
  import opened Analyzer
  import opened Program
  import opened CallGraphState
  import opened CallGraphRebuild
  import opened Aggregate

  /** Every run leaves the callers inverse to the callees, which is what the walks need. */
  lemma RunInverse(states: seq<State>, batches: seq<Batch>, n: nat)
    requires IsRun(states, batches) && n < |states|
    ensures Inverse(states[n].callees, states[n].callers, (f: Func) => f.Defined())
  {
    RunKeepsInv(states, batches, n);
    var s := states[n];
    forall f | Get(s.callees, f) != {} ensures f.Defined() {
      var p :| InFile(s.loaded, p, f);
    }
  }

  lemma ReachesMonotone<F(!new)>(g: Graph<F>, h: Graph<F>, a: F, b: F)
    requires (forall x {:trigger Get(g, x)} :: Get(g, x) <= Get(h, x)) && Reaches(g, a, b)
    ensures Reaches(h, a, b)
  {
    var p :| IsPath(g, p, a, b);
    assert IsPath(h, p, a, b);
  }

  /** The subsystems found on the maintained graph are among those of a rebuilt one, and are
      the same when no call was missed. */
  lemma SubsystemsAfterRun(states: seq<State>, batches: seq<Batch>, n: nat, r: State, table: Table<Func, Tag>, f: Func)
    requires IsRun(states, batches) && 0 < n < |states| && Built(states[n].loaded, r)
    ensures TagsAbove(states[n].callees, table, f) <= TagsAbove(r.callees, table, f)
    ensures Complete(states[n]) ==> TagsAbove(states[n].callees, table, f) == TagsAbove(r.callees, table, f)
  {
    var s := states[n];
    RunAgainstRebuild(states, batches, n, r);
    RunKeepsInv(states, batches, n);
    forall x | Reaches(s.callees, x, f) ensures Reaches(r.callees, x, f) {
      ReachesMonotone(s.callees, r.callees, x, f);
    }
    if Complete(s) {
      CompleteIffRebuilt(s, r);
      forall x | Reaches(r.callees, x, f) ensures Reaches(s.callees, x, f) {
        ReachesMonotone(r.callees, s.callees, x, f);
      }
    }
  }
}
