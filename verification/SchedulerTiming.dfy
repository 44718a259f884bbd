/** Start and completion cycles: latencies are met exactly and no node starts before its parents
    have completed. */
module SchedulerTiming {
  import opened ExecNodes
  import opened DependenceGraph
  import opened Scheduler
  import opened SchedulerStructure
  import opened SchedulerRun

  /** Cycles between start and completion. */
  function Duration(n: Node): nat {
    if n.IsMulticycle() then MulticycleLatency(n) else 0
  }

  ghost predicate NodeTimes(g: Graph, s: State, v: nat)
    requires Shape(g, s) && v < |g.nodes|
  {
    && -1 <= s.start[v] <= s.cycle && -1 <= s.complete[v] <= s.cycle
    && (Completed(s, v) ==> s.start[v] >= 0 && s.complete[v] == s.start[v] + Duration(g.nodes[v]))
    && (v in s.inflight <==> s.start[v] >= 0 && !Completed(s, v))
    && (v in s.inflight ==> g.nodes[v].IsMulticycle() && v in s.executing)
  }

  /** The in-flight counter of the node at position `k`, positions below `i` having been visited
      in the current cycle. */
  ghost predicate Remaining(g: Graph, s: State, i: nat, k: nat)
    requires Shape(g, s) && k < |s.executing| && s.executing[k] < |g.nodes|
  {
    var v := s.executing[k];
    v in s.inflight ==>
      && s.start[v] + Duration(g.nodes[v]) == s.cycle + s.inflight[v] - (if k < i then 0 else 1)
      && (k >= i ==> s.start[v] < s.cycle)
  }

  ghost predicate EdgeOrder(g: Graph, s: State, u: nat, v: nat)
    requires Shape(g, s) && u < |g.nodes| && v < |g.nodes|
  {
    s.start[v] >= 0 ==> s.complete[u] >= 0 && s.complete[u] <= s.start[v]
  }

  ghost predicate Timing(g: Graph, s: State, i: nat) {
    && Shape(g, s)
    && (forall v :: 0 <= v < |g.nodes| ==> NodeTimes(g, s, v))
    && (forall k :: 0 <= k < |s.executing| ==> s.executing[k] < |g.nodes| && Remaining(g, s, i, k))
    && (forall u, v :: 0 <= u < |g.nodes| && 0 <= v < |g.nodes| && HasEdge(g, u, v) ==> EdgeOrder(g, s, u, v))
  }

  lemma ParentsDoneEarlier(g: Graph, s: State, i: nat, v: nat)
    requires Structure(g, s, {}) && Timing(g, s, i) && v in s.executing
    ensures v < |g.nodes|
    ensures forall u :: 0 <= u < |g.nodes| && HasEdge(g, u, v) ==> 0 <= s.complete[u] <= s.cycle
  {
    assert OnePhase(g, s, v) && Counted(g, s, {}, v);
    forall u | 0 <= u < |g.nodes| && HasEdge(g, u, v) ensures 0 <= s.complete[u] <= s.cycle {
      assert u in Parents(g, v) && u in Done(s);
      assert NodeTimes(g, s, u);
    }
  }

  lemma BlockedTiming(g: Graph, s: State, i: nat)
    requires Timing(g, s, i) && i < |s.executing| && !g.nodes[s.executing[i]].IsMulticycle()
    ensures Timing(g, s, i + 1)
  {
    assert NodeTimes(g, s, s.executing[i]);
    var j := i + 1;
    forall k | 0 <= k < |s.executing| ensures Remaining(g, s, j, k) { assert Remaining(g, s, i, k); }
  }

  lemma AdvanceTiming(g: Graph, s: State, i: nat)
    requires Structure(g, s, {}) && Timing(g, s, i) && i < |s.executing|
    requires StaysInFlight(s, g.nodes[s.executing[i]], s.executing[i])
    ensures Timing(g, Advance(g, s, s.executing[i]), i + 1)
  {
    var v := s.executing[i];
    var r := Advance(g, s, v);
    assert v in s.executing && OnePhase(g, s, v) && Remaining(g, s, i, i);
    ParentsDoneEarlier(g, s, i, v);
    forall w | 0 <= w < |g.nodes| ensures NodeTimes(g, r, w) { assert NodeTimes(g, s, w); }
    forall k | 0 <= k < |r.executing| ensures r.executing[k] < |g.nodes| && Remaining(g, r, i + 1, k) {
      assert Remaining(g, s, i, k);
      assert k != i ==> s.executing[k] != v;
    }
    forall u, w | 0 <= u < |g.nodes| && 0 <= w < |g.nodes| && HasEdge(g, u, w) ensures EdgeOrder(g, r, u, w) {
      assert EdgeOrder(g, s, u, w);
    }
  }

  lemma RetireTiming(g: Graph, s: State, i: nat)
    requires Structure(g, s, {}) && Timing(g, s, i) && i < |s.executing|
    requires !StaysInFlight(s, g.nodes[s.executing[i]], s.executing[i])
    ensures Timing(g, Retire(Dispatch(g, s, s.executing[i]), i), i)
  {
    var v := s.executing[i];
    var r := Retire(Dispatch(g, s, v), i);
    assert v in s.executing && OnePhase(g, s, v) && Remaining(g, s, i, i) && NodeTimes(g, s, v);
    ParentsDoneEarlier(g, s, i, v);
    RemoveAtMembers(s.executing, i);
    forall w | 0 <= w < |g.nodes| ensures NodeTimes(g, r, w) { assert NodeTimes(g, s, w); }
    forall k | 0 <= k < |r.executing| ensures r.executing[k] < |g.nodes| && Remaining(g, r, i, k) {
      var k' := if k < i then k else k + 1;
      assert r.executing[k] == s.executing[k'] && s.executing[k'] != v && Remaining(g, s, i, k');
    }
    forall u, w | 0 <= u < |g.nodes| && 0 <= w < |g.nodes| && HasEdge(g, u, w) ensures EdgeOrder(g, r, u, w) {
      assert EdgeOrder(g, s, u, w);
    }
  }

  lemma WokenTiming(g: Graph, a: State, b: State, i: nat, pending: set<nat>)
    requires Structure(g, a, pending) && Timing(g, a, i) && Woken(g, a, b) && i <= |a.executing|
    ensures Timing(g, b, i)
  {
    forall v | 0 <= v < |g.nodes| ensures NodeTimes(g, b, v) { assert NodeTimes(g, a, v); }
    forall k | 0 <= k < |b.executing| ensures b.executing[k] < |g.nodes| && Remaining(g, b, i, k) {
      if k < |a.executing| {
        assert b.executing[k] == a.executing[k] && Remaining(g, a, i, k);
      } else {
        assert NodeTimes(g, a, b.executing[k]) && OnePhase(g, a, b.executing[k]);
      }
    }
    forall u, w | 0 <= u < |g.nodes| && 0 <= w < |g.nodes| && HasEdge(g, u, w) ensures EdgeOrder(g, b, u, w) {
      assert EdgeOrder(g, a, u, w);
    }
  }

  lemma VisitTiming(g: Graph, cfg: Config, s: State, i: nat)
    requires Structure(g, s, {}) && Timing(g, s, i) && i < |s.executing|
    ensures var r := Visit(g, cfg, s, i); Timing(g, r.state, if r.executed then i else i + 1)
  {
    var v := s.executing[i];
    if Blocked(cfg, s, g.nodes[v]) {
      BlockedTiming(g, s, i);
    } else if StaysInFlight(s, g.nodes[v], v) {
      AdvanceTiming(g, s, i);
    } else {
      var d := Dispatch(g, s, v);
      RetireTiming(g, s, i);
      SameQueues(g, s, d);
      RetireKeeps(g, d, i, Retire(d, i));
      FinishEffect(g, cfg, d, i);
      WokenTiming(g, Retire(d, i), Finish(g, cfg, d, i), i, Targets(g.out[v]));
    }
  }

  lemma {:induction false} PassTiming(g: Graph, cfg: Config, s: State, i: nat)
    requires Structure(g, s, {}) && Timing(g, s, i) && i <= |s.executing|
    ensures var r := Pass(g, cfg, s, i); Timing(g, r, |r.executing|) && r.cycle == s.cycle
    decreases |g.nodes| - s.executed, |s.executing| - i
  {
    if i < |s.executing| {
      VisitAdvances(g, cfg, s, i);
      VisitTiming(g, cfg, s, i);
      VisitSameCycle(g, cfg, s, i);
      var r := Visit(g, cfg, s, i);
      PassTiming(g, cfg, r.state, if r.executed then i else i + 1);
    }
  }

  lemma VisitSameCycle(g: Graph, cfg: Config, s: State, i: nat)
    requires Shape(g, s) && i < |s.executing| && s.executing[i] < |g.nodes|
    ensures Visit(g, cfg, s, i).state.cycle == s.cycle
  {
    FinishEffect(g, cfg, Dispatch(g, s, s.executing[i]), i);
  }

  lemma EndCycleTiming(g: Graph, p: State)
    requires Structure(g, p, {}) && Timing(g, p, |p.executing|)
    ensures Timing(g, EndCycle(g, p), 0) && EndCycle(g, p).cycle == p.cycle + 1
  {
    var r := EndCycle(g, p);
    CopyReadyMembers(g, p.executing, p.ready);
    forall v | 0 <= v < |g.nodes| ensures NodeTimes(g, r, v) { assert NodeTimes(g, p, v); }
    forall k | 0 <= k < |r.executing| ensures r.executing[k] < |g.nodes| && Remaining(g, r, 0, k) {
      var v := r.executing[k];
      assert v in r.executing && OnePhase(g, p, v) && NodeTimes(g, p, v);
      if v in p.inflight {
        var j :| 0 <= j < |p.executing| && p.executing[j] == v;
        assert Remaining(g, p, |p.executing|, j);
      }
    }
    forall u, w | 0 <= u < |g.nodes| && 0 <= w < |g.nodes| && HasEdge(g, u, w) ensures EdgeOrder(g, r, u, w) {
      assert EdgeOrder(g, p, u, w);
    }
  }

  lemma StepTiming(g: Graph, cfg: Config, s: State)
    requires Structure(g, s, {}) && Timing(g, s, 0)
    ensures Timing(g, Step(g, cfg, s), 0) && Step(g, cfg, s).cycle == s.cycle + 1
  {
    PassTiming(g, cfg, s, 0);
    EndCycleTiming(g, Pass(g, cfg, s, 0));
  }
}
