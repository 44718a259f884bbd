/** Passes, cycles and whole runs of the scheduler, with the structural invariant carried through. */
module SchedulerRun {
  import opened Collections
  import opened ExecNodes
  import opened DependenceGraph
  import opened Scheduler
  import opened SchedulerStructure

  // ----- what a visit leaves alone

  /** `r` differs from `s` only by children of a completed node that left the waiting phase. */
  ghost predicate Woken(g: Graph, s: State, r: State) {
    && Shape(g, s) && Shape(g, r)
    && r.start == s.start && r.complete == s.complete && r.inflight == s.inflight
    && r.executed == s.executed && r.cycle == s.cycle
    && r.busy == s.busy && r.loads == s.loads && r.stores == s.stores
    && s.executing <= r.executing
    && (forall k :: |s.executing| <= k < |r.executing| ==>
          r.executing[k] < |g.nodes| && Waiting(s, r.executing[k]) && !Waiting(r, r.executing[k]))
    && (forall v :: 0 <= v < |g.nodes| && !Waiting(s, v) ==>
          !Waiting(r, v) && r.entry[v] == s.entry[v])
  }

  lemma {:induction false} ChildrenWoken(g: Graph, cfg: Config, s: State, u: nat, es: seq<Edge>, after: nat)
    requires Shape(g, s) && u < |g.nodes|
    requires forall k :: 0 <= k < |es| ==> es[k].dst < |g.nodes|
    ensures Woken(g, s, UpdateChildren(g, cfg, s, u, es, after))
    decreases |es|
  {
    if es != [] {
      ChildWoken(g, cfg, s, u, es[0], after);
      var m := UpdateChild(g, cfg, s, u, es[0], after);
      ChildrenWoken(g, cfg, m, u, es[1..], after);
      WokenTrans(g, s, m, UpdateChildren(g, cfg, m, u, es[1..], after));
    } else {
      assert Woken(g, s, s);
    }
  }

  lemma ChildWoken(g: Graph, cfg: Config, s: State, u: nat, e: Edge, after: nat)
    requires Shape(g, s) && u < |g.nodes| && e.dst < |g.nodes|
    ensures Woken(g, s, UpdateChild(g, cfg, s, u, e, after))
  {
  }

  lemma WokenTrans(g: Graph, a: State, b: State, c: State)
    requires Woken(g, a, b) && Woken(g, b, c)
    ensures Woken(g, a, c)
  {
    forall k | |a.executing| <= k < |c.executing|
      ensures c.executing[k] < |g.nodes| && Waiting(a, c.executing[k]) && !Waiting(c, c.executing[k])
    {
      if k < |b.executing| {
        assert c.executing[k] == b.executing[k];
      }
    }
  }

  lemma FinishEffect(g: Graph, cfg: Config, s: State, i: nat)
    requires Shape(g, s) && i < |s.executing| && s.executing[i] < |g.nodes|
    ensures Woken(g, Retire(s, i), Finish(g, cfg, s, i))
  {
    var u := s.executing[i];
    ChildrenWoken(g, cfg, Retire(s, i), u, g.out[u], TimeAfter(g, cfg, s, u));
  }

  // ----- a pass, a cycle, a run

  lemma DoneFits(g: Graph, s: State)
    requires Structure(g, s, {})
    ensures s.executed <= |Total(g)| <= |g.nodes|
    ensures Done(s) <= Total(g)
    ensures s.executed == |Total(g)| <==> Done(s) == Total(g)
  {
    forall v | v in Done(s) ensures v in Total(g) { assert OnePhase(g, s, v); }
    SubsetSize(Done(s), Total(g));
    BoundedSetSize(Total(g), |g.nodes|);
  }

  lemma {:induction false} BoundedSetSize(a: set<nat>, n: nat)
    requires forall v :: v in a ==> v < n
    ensures |a| <= n
  {
    if n > 0 {
      BoundedSetSize(a - {n - 1}, n - 1);
    }
  }

  lemma VisitAdvances(g: Graph, cfg: Config, s: State, i: nat)
    requires Structure(g, s, {}) && i < |s.executing|
    ensures s.executing[i] < |g.nodes|
    ensures var r := Visit(g, cfg, s, i);
            && Structure(g, r.state, {})
            && (r.executed ==> s.executed < r.state.executed <= |g.nodes| && i <= |r.state.executing|)
            && (!r.executed ==> r.state.executed == s.executed <= |g.nodes| && |r.state.executing| == |s.executing|)
  {
    InQueueInGraph(g, s, i);
    VisitKeeps(g, cfg, s, i);
    FinishEffect(g, cfg, Dispatch(g, s, s.executing[i]), i);
    DoneFits(g, Visit(g, cfg, s, i).state);
  }

  function Pass(g: Graph, cfg: Config, s: State, i: nat): (r: State)
    requires Structure(g, s, {}) && i <= |s.executing|
    ensures Structure(g, r, {})
    decreases |g.nodes| - s.executed, |s.executing| - i
  {
    if i == |s.executing| then s
    else
      VisitAdvances(g, cfg, s, i);
      var r := Visit(g, cfg, s, i);
      Pass(g, cfg, r.state, if r.executed then i else i + 1)
  }

  /** Stores go to the front of the executing queue, everything else to the back. */
  function CopyReady(g: Graph, executing: seq<nat>, ready: seq<nat>): seq<nat>
    requires forall k :: 0 <= k < |ready| ==> ready[k] < |g.nodes|
    decreases |ready|
  {
    if ready == [] then executing
    else CopyReady(g, if g.nodes[ready[0]].op.Store? then [ready[0]] + executing else executing + [ready[0]],
                   ready[1..])
  }

  function Drain(g: Graph, s: State): State
    requires Structure(g, s, {})
  {
    s.(executing := CopyReady(g, s.executing, s.ready), ready := [])
  }

  predicate Finished(g: Graph, s: State) {
    s.executed == |Total(g)|
  }

  /** What follows the pass: the ready queue is copied over and, when the run goes on, ports are released. */
  function EndCycle(g: Graph, s: State): (r: State)
    requires Structure(g, s, {})
    ensures Structure(g, r, {})
  {
    var d := Drain(g, s);
    DrainKeeps(g, s);
    var t := d.(cycle := d.cycle + 1);
    SameQueues(g, d, t);
    if Finished(g, t) then t else SameQueues(g, t, t.(busy := map[])); t.(busy := map[])
  }

  lemma EndCycleEffect(g: Graph, s: State)
    requires Structure(g, s, {})
    ensures var r := EndCycle(g, s);
      && r.ready == [] && r.complete == s.complete && r.inflight == s.inflight && r.executed == s.executed
      && (!Finished(g, r) ==> r.busy == map[])
  {
  }

  /** One cycle. */
  function Step(g: Graph, cfg: Config, s: State): (r: State)
    requires Structure(g, s, {})
    ensures Structure(g, r, {})
  {
    EndCycle(g, Pass(g, cfg, s, 0))
  }

  lemma {:induction false} CopyReadyMembers(g: Graph, executing: seq<nat>, ready: seq<nat>)
    requires forall k :: 0 <= k < |ready| ==> ready[k] < |g.nodes|
    requires NoDuplicates(executing) && NoDuplicates(ready) && forall v :: v in executing ==> v !in ready
    ensures var r := CopyReady(g, executing, ready);
            NoDuplicates(r) && (forall v :: v in r <==> v in executing || v in ready)
    decreases |ready|
  {
    if ready != [] {
      var x := ready[0];
      assert ready == [x] + ready[1..];
      var e := if g.nodes[x].op.Store? then [x] + executing else executing + [x];
      forall j, k | 0 <= j < k < |e| ensures e[j] != e[k] {
        assert e[j] == x ==> e[k] in executing;
        assert e[k] == x ==> e[j] in executing;
      }
      CopyReadyMembers(g, e, ready[1..]);
    }
  }

  lemma DrainKeeps(g: Graph, s: State)
    requires Structure(g, s, {})
    ensures Structure(g, Drain(g, s), {})
  {
    CopyReadyMembers(g, s.executing, s.ready);
    var d := Drain(g, s);
    assert Done(d) == Done(s);
    forall v | 0 <= v < |g.nodes| ensures OnePhase(g, d, v) && Counted(g, d, {}, v) {
      assert OnePhase(g, s, v) && Counted(g, s, {}, v);
    }
  }
}
