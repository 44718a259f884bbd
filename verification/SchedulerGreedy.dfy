/** The first pass is as early as possible: a node that needs no scratchpad port starts in the very
    cycle in which its last parent completes, or in the next, as the edge between them decides. */
module SchedulerGreedy {
  import opened ExecNodes
  import opened DependenceGraph
  import opened Scheduler
  import opened SchedulerStructure
  import opened SchedulerRun
  import opened SchedulerTiming
  import opened SchedulerLiveness
  import opened SchedulerBegin

  /** `v` was queued on the completion of `u`, by the rule for the edge between them. */
  ghost predicate AdmittedBy(g: Graph, cfg: Config, s: State, u: nat, v: nat)
    requires Shape(g, s) && u < |g.nodes| && v < |g.nodes| && s.complete[u] >= 0
  {
    exists k :: 0 <= k < |g.out[u]| && g.out[u][k].dst == v &&
      s.entry[v] == Admit(g.nodes[u], g.nodes[v], g.out[u][k].parid, cfg, s.timeBefore[v], s.complete[u], u)
  }

  /** All parents of `v` have completed, none after cycle `c`. */
  ghost predicate ParentsBy(g: Graph, s: State, v: nat, c: int)
    requires Shape(g, s) && v < |g.nodes|
  {
    forall p :: p in Parents(g, v) ==> 0 <= s.complete[p] <= c
  }

  /** `v` is to start in cycle `c`: at once as a root, or when its last parent completed, or one later. */
  ghost predicate DueAt(g: Graph, cfg: Config, s: State, v: nat, c: int)
    requires Shape(g, s) && v < |g.nodes|
  {
    match s.entry[v]
    case NotQueued => false
    case Root => Parents(g, v) == {} && c == 0
    case _ =>
      var u := s.entry[v].parent;
      && u < |g.nodes| && s.complete[u] >= 0 && AdmittedBy(g, cfg, s, u, v)
      && ParentsBy(g, s, v, s.complete[u])
      && c == s.complete[u] + if s.entry[v].Deferred? then 1 else 0
  }

  /** `v` was to start by cycle `c`. */
  ghost predicate DueBy(g: Graph, cfg: Config, s: State, v: nat, c: int)
    requires Shape(g, s) && v < |g.nodes|
  {
    exists d :: d <= c && DueAt(g, cfg, s, v, d)
  }

  ghost predicate NodeGreedy(g: Graph, cfg: Config, s: State, i: nat, v: nat)
    requires Shape(g, s) && v < |g.nodes| && i <= |s.executing|
  {
    && s.complete[v] <= s.cycle
    && (s.start[v] >= 0 ==> DueBy(g, cfg, s, v, s.start[v]))
    && (s.start[v] >= 0 && !g.nodes[v].InSpad() ==> DueAt(g, cfg, s, v, s.start[v]))
    && (Waiting(s, v) || v in s.ready ==> s.start[v] < 0)
    && (v in s.ready ==> DueAt(g, cfg, s, v, s.cycle + 1))
    && (v in s.executing ==> DueBy(g, cfg, s, v, s.cycle))
    && (v in s.executing && s.start[v] < 0 && !g.nodes[v].InSpad() ==>
          v in s.executing[i..] && DueAt(g, cfg, s, v, s.cycle))
  }

  /** Positions below `i` have been visited in the current cycle. */
  ghost predicate Greedy(g: Graph, cfg: Config, s: State, i: nat) {
    && Shape(g, s) && i <= |s.executing|
    && (forall v: nat :: v < |g.nodes| ==> NodeGreedy(g, cfg, s, i, v))
  }

  /** What was due stays due. */
  lemma DueKept(g: Graph, cfg: Config, s: State, r: State, v: nat, c: int)
    requires Shape(g, s) && Shape(g, r) && v < |g.nodes| && DueAt(g, cfg, s, v, c)
    requires r.entry[v] == s.entry[v] && r.timeBefore[v] == s.timeBefore[v]
    requires forall u :: 0 <= u < |g.nodes| && s.complete[u] >= 0 ==> r.complete[u] == s.complete[u]
    ensures DueAt(g, cfg, r, v, c)
  {
    if !s.entry[v].Root? {
      var u := s.entry[v].parent;
      var k :| 0 <= k < |g.out[u]| && g.out[u][k].dst == v &&
        s.entry[v] == Admit(g.nodes[u], g.nodes[v], g.out[u][k].parid, cfg, s.timeBefore[v], s.complete[u], u);
      assert r.complete[u] == s.complete[u];
    }
  }

  // ----- visits

  lemma TailShift(q: seq<nat>, i: nat)
    requires i < |q|
    ensures q[i..] == [q[i]] + q[i + 1..]
  {
  }

  /** Passing a node that is blocked or in flight. */
  lemma SkipGreedy(g: Graph, cfg: Config, s: State, i: nat, r: State)
    requires Greedy(g, cfg, s, i) && i < |s.executing| && s.executing[i] < |g.nodes| && Shape(g, r)
    requires r == s.(start := r.start, inflight := r.inflight)
    requires var x := s.executing[i];
      r.start == s.start || (s.start[x] < 0 && !g.nodes[x].InSpad() && r.start == s.start[x := s.cycle])
    requires var x := s.executing[i]; g.nodes[x].InSpad() || r.start[x] >= 0
    requires s.executing[i] !in s.ready && !Waiting(s, s.executing[i])
    ensures Greedy(g, cfg, r, i + 1)
  {
    var x := s.executing[i];
    assert x in s.executing;
    TailShift(s.executing, i);
    var j := i + 1;
    forall v: nat | v < |g.nodes| ensures NodeGreedy(g, cfg, r, j, v) {
      assert NodeGreedy(g, cfg, s, i, v);
      forall c | DueAt(g, cfg, s, v, c) ensures DueAt(g, cfg, r, v, c) { DueKept(g, cfg, s, r, v, c); }
    }
  }

  lemma RetireGreedy(g: Graph, cfg: Config, s: State, i: nat)
    requires Structure(g, s, {}) && Timing(g, s, i) && Greedy(g, cfg, s, i) && i < |s.executing|
    requires s.executing[i] < |g.nodes|
    requires !StaysInFlight(s, g.nodes[s.executing[i]], s.executing[i])
    ensures Greedy(g, cfg, Retire(Dispatch(g, s, s.executing[i]), i), i)
  {
    var x := s.executing[i];
    var r := Retire(Dispatch(g, s, x), i);
    assert x in s.executing && OnePhase(g, s, x) && NodeTimes(g, s, x) && NodeGreedy(g, cfg, s, i, x);
    TailShift(s.executing, i);
    assert r.executing[i..] == s.executing[i + 1..];
    RemoveAtMembers(s.executing, i);
    forall v: nat | v < |g.nodes| ensures NodeGreedy(g, cfg, r, i, v) {
      assert NodeGreedy(g, cfg, s, i, v);
      forall c | DueAt(g, cfg, s, v, c) ensures DueAt(g, cfg, r, v, c) { DueKept(g, cfg, s, r, v, c); }
    }
  }

  // ----- waking children

  /** The node that the completion of `u` queues. */
  lemma QueuedGreedy(g: Graph, cfg: Config, s: State, u: nat, k: nat, after: nat, pending: set<nat>, i: nat)
    requires Structure(g, s, pending) && Greedy(g, cfg, s, i)
    requires u < |g.nodes| && s.complete[u] == s.cycle && k < |g.out[u]| && g.out[u][k].dst in pending
    requires g.out[u][k].dst < |g.nodes| && s.numParents[g.out[u][k].dst] == 1
    ensures var r := UpdateChild(g, cfg, s, u, g.out[u][k], after);
      i <= |r.executing| && NodeGreedy(g, cfg, r, i, g.out[u][k].dst)
  {
    var e := g.out[u][k];
    var v := e.dst;
    var r := UpdateChild(g, cfg, s, u, e, after);
    assert Counted(g, s, pending, v) && OnePhase(g, s, v) && NodeGreedy(g, cfg, s, i, v);
    assert ParentsBy(g, r, v, s.cycle) by {
      assert Parents(g, v) - Done(s) == {};
      forall p | p in Parents(g, v) ensures 0 <= s.complete[p] <= s.cycle {
        assert p !in Parents(g, v) - Done(s);
        assert NodeGreedy(g, cfg, s, i, p);
      }
    }
    assert r.entry[v] == Admit(g.nodes[u], g.nodes[v], e.parid, cfg, r.timeBefore[v], r.complete[u], u);
    assert AdmittedBy(g, cfg, r, u, v);
    AdmitChooses(g.nodes[u], g.nodes[v], e.parid, cfg, r.timeBefore[v], s.cycle, u);
    assert DueAt(g, cfg, r, v, s.cycle + if r.entry[v].Deferred? then 1 else 0);
    if !r.entry[v].Deferred? {
      assert r.executing == s.executing + [v];
      assert r.executing[i..][|s.executing| - i] == v;
    }
  }

  lemma AdmitChooses(u: Node, v: Node, parid: nat, cfg: Config, begin: nat, cycle: nat, uid: nat)
    ensures var how := Admit(u, v, parid, cfg, begin, cycle, uid);
      (how.Direct? || how.Packed? || how.Deferred?) && how.parent == uid
  {
  }

  lemma UpdateChildGreedy(g: Graph, cfg: Config, s: State, u: nat, k: nat, after: nat, pending: set<nat>, i: nat)
    requires Structure(g, s, pending) && Greedy(g, cfg, s, i)
    requires u < |g.nodes| && s.complete[u] == s.cycle && k < |g.out[u]| && g.out[u][k].dst in pending
    ensures Greedy(g, cfg, UpdateChild(g, cfg, s, u, g.out[u][k], after), i)
  {
    var e := g.out[u][k];
    var r := UpdateChild(g, cfg, s, u, e, after);
    assert Counted(g, s, pending, e.dst) && OnePhase(g, s, e.dst);
    assert s.executing <= r.executing;
    forall v: nat | v < |g.nodes| ensures NodeGreedy(g, cfg, r, i, v) {
      if v == e.dst && s.numParents[v] == 1 {
        QueuedGreedy(g, cfg, s, u, k, after, pending, i);
      } else {
        OtherGreedy(g, cfg, s, r, i, v, e.dst);
      }
    }
  }

  /** A node that the update does not queue. */
  lemma OtherGreedy(g: Graph, cfg: Config, s: State, r: State, i: nat, v: nat, x: nat)
    requires Shape(g, s) && Shape(g, r) && i <= |s.executing| && v < |g.nodes| && x < |g.nodes|
    requires NodeGreedy(g, cfg, s, i, v)
    requires s.executing <= r.executing && r.start == s.start && r.complete == s.complete && r.cycle == s.cycle
    requires r.entry[v] == s.entry[v] && (v != x ==> r.timeBefore[v] == s.timeBefore[v])
    requires v in r.executing <==> v in s.executing
    requires v in r.ready <==> v in s.ready
    requires Waiting(r, v) ==> Waiting(s, v)
    requires v == x ==> Waiting(s, v) && v !in s.executing && v !in s.ready
    ensures NodeGreedy(g, cfg, r, i, v)
  {
    if v != x {
      forall c | DueAt(g, cfg, s, v, c) ensures DueAt(g, cfg, r, v, c) { DueKept(g, cfg, s, r, v, c); }
      if v in s.executing[i..] {
        var j :| 0 <= j < |s.executing[i..]| && s.executing[i..][j] == v;
        assert r.executing[i..][j] == v;
      }
    }
  }

  lemma {:induction false} UpdateChildrenGreedy(g: Graph, cfg: Config, s: State, u: nat, k: nat, es: seq<Edge>,
                                                after: nat, i: nat)
    requires u < |g.nodes| == |s.complete| && k <= |g.out[u]| && es == g.out[u][k..]
    requires Structure(g, s, Targets(es)) && Greedy(g, cfg, s, i) && s.complete[u] == s.cycle
    ensures Greedy(g, cfg, UpdateChildren(g, cfg, s, u, es, after), i)
    decreases |es|
  {
    if es != [] {
      var m := UpdateChild(g, cfg, s, u, es[0], after);
      assert es[0] == g.out[u][k] && es[0] in es;
      UpdateChildGreedy(g, cfg, s, u, k, after, Targets(es), i);
      UpdateChildKeeps(g, cfg, s, u, es[0], after, Targets(es), m);
      TargetsTail(es);
      UpdateChildrenGreedy(g, cfg, m, u, k + 1, es[1..], after, i);
    }
  }

  lemma FinishGreedy(g: Graph, cfg: Config, s: State, i: nat)
    requires Structure(g, s, {}) && Timing(g, s, i) && Greedy(g, cfg, s, i) && i < |s.executing|
    requires s.executing[i] < |g.nodes|
    requires !StaysInFlight(s, g.nodes[s.executing[i]], s.executing[i])
    ensures Greedy(g, cfg, Finish(g, cfg, Dispatch(g, s, s.executing[i]), i), i)
  {
    var v := s.executing[i];
    var d := Dispatch(g, s, v);
    RetireGreedy(g, cfg, s, i);
    SameQueues(g, s, d);
    RetireKeeps(g, d, i, Retire(d, i));
    assert g.out[v][0..] == g.out[v];
    UpdateChildrenGreedy(g, cfg, Retire(d, i), v, 0, g.out[v], TimeAfter(g, cfg, d, v), i);
  }

  lemma VisitGreedy(g: Graph, cfg: Config, s: State, i: nat)
    requires Structure(g, s, {}) && Timing(g, s, i) && Greedy(g, cfg, s, i) && i < |s.executing|
    requires s.executing[i] < |g.nodes|
    ensures var r := Visit(g, cfg, s, i); Greedy(g, cfg, r.state, if r.executed then i else i + 1)
  {
    var v := s.executing[i];
    assert v in s.executing && OnePhase(g, s, v) && NodeTimes(g, s, v);
    if Blocked(cfg, s, g.nodes[v]) {
      SkipGreedy(g, cfg, s, i, s);
    } else if StaysInFlight(s, g.nodes[v], v) {
      SkipGreedy(g, cfg, s, i, Advance(g, s, v));
    } else {
      FinishGreedy(g, cfg, s, i);
    }
  }

  lemma {:induction false} PassGreedy(g: Graph, cfg: Config, s: State, i: nat)
    requires Structure(g, s, {}) && Timing(g, s, i) && Greedy(g, cfg, s, i) && i <= |s.executing|
    ensures var r := Pass(g, cfg, s, i); Greedy(g, cfg, r, |r.executing|)
    decreases |g.nodes| - s.executed, |s.executing| - i
  {
    if i < |s.executing| {
      VisitAdvances(g, cfg, s, i);
      VisitTiming(g, cfg, s, i);
      VisitGreedy(g, cfg, s, i);
      var r := Visit(g, cfg, s, i);
      PassGreedy(g, cfg, r.state, if r.executed then i else i + 1);
    }
  }

  lemma EndCycleGreedy(g: Graph, cfg: Config, p: State)
    requires Structure(g, p, {}) && Greedy(g, cfg, p, |p.executing|)
    ensures Greedy(g, cfg, EndCycle(g, p), 0)
  {
    var r := EndCycle(g, p);
    CopyReadyMembers(g, p.executing, p.ready);
    assert p.executing[|p.executing|..] == [] && r.executing[0..] == r.executing;
    forall v: nat | v < |g.nodes| ensures NodeGreedy(g, cfg, r, 0, v) {
      assert NodeGreedy(g, cfg, p, |p.executing|, v);
      forall c | DueAt(g, cfg, p, v, c) ensures DueAt(g, cfg, r, v, c) { DueKept(g, cfg, p, r, v, c); }
    }
  }

  // ----- whole runs

  lemma InitialGreedy(g: Graph, cfg: Config, busy: map<Slot, nat>, loads: map<Slot, nat>, stores: map<Slot, nat>)
    ensures Greedy(g, cfg, Prepare(g, busy, loads, stores), 0)
  {
    var s := Prepare(g, busy, loads, stores);
    RootsMembers(g, |g.nodes|);
    assert s.executing[0..] == s.executing;
    forall v: nat | v < |g.nodes| ensures NodeGreedy(g, cfg, s, 0, v) {
      if v in s.executing { assert DueAt(g, cfg, s, v, 0); }
    }
  }

  lemma {:induction false} RunGreedy(g: Graph, cfg: Config, s: State)
    requires Structure(g, s, {}) && Timing(g, s, 0) && Acyclic(g) && s.ready == [] && Greedy(g, cfg, s, 0)
    ensures Greedy(g, cfg, Run(g, cfg, s), 0)
    decreases Fuel(g, cfg, s)
  {
    StepBurnsFuel(g, cfg, s);
    StepTiming(g, cfg, s);
    PassGreedy(g, cfg, s, 0);
    EndCycleGreedy(g, cfg, Pass(g, cfg, s, 0));
    var t := Step(g, cfg, s);
    if !Finished(g, t) {
      RunGreedy(g, cfg, t);
    }
  }

  /** Edge `k` of `u` leads to `v`, and `u` is a parent of `v` that completed last. */
  ghost predicate LastParent(g: Graph, complete: seq<int>, u: nat, k: nat, v: nat)
    requires |complete| == |g.nodes|
  {
    && u < |g.nodes| && k < |g.out[u]| && g.out[u][k].dst == v && complete[u] >= 0
    && forall p :: p in Parents(g, v) ==> p < |complete| && 0 <= complete[p] <= complete[u]
  }

  /** How the rule for edge `k` of `u` admits `v`, from the cycles in which the ancestors of `v` completed. */
  ghost function Admission(g: Graph, cfg: Config, complete: seq<int>, u: nat, k: nat, v: nat): Entry
    requires Acyclic(g) && AllComplete(g, complete) && v < |g.nodes| && LastParent(g, complete, u, k, v)
  {
    var begin := EarliestBegin(g, cfg, complete, v);
    Admit(g.nodes[u], g.nodes[v], g.out[u][k].parid, cfg, begin, complete[u], u)
  }

  /** `v` starts where the rule for the last parent's edge puts it; a scratchpad access perhaps later. */
  ghost predicate StartsByEdge(g: Graph, cfg: Config, start: seq<int>, complete: seq<int>, u: nat, k: nat, v: nat)
    requires Acyclic(g) && AllComplete(g, complete) && |start| == |g.nodes| && v < |g.nodes|
  {
    && LastParent(g, complete, u, k, v)
    && var due := complete[u] + if Admission(g, cfg, complete, u, k, v).Deferred? then 1 else 0;
       due <= start[v] && (!g.nodes[v].InSpad() ==> start[v] == due)
  }

  /** In the schedule of every run, a connected node without scratchpad access starts at cycle 0 if it
      has no parent; otherwise it starts in the cycle of its last parent, or the one after exactly when
      the rule for their edge defers it. The rule reads nothing but completion cycles. A scratchpad access
      starts no earlier. */
  lemma StartsAsEarlyAsPossible(g: Graph, cfg: Config, busy: map<Slot, nat>, loads: map<Slot, nat>,
                                stores: map<Slot, nat>, v: nat)
    requires Acyclic(g) && v < |g.nodes| && Connected(g, v)
    ensures Initial(g, Prepare(g, busy, loads, stores))
    ensures var r := Run(g, cfg, Prepare(g, busy, loads, stores));
      && AllComplete(g, r.complete) && r.start[v] >= 0
      && (Parents(g, v) == {} && !g.nodes[v].InSpad() ==> r.start[v] == 0)
      && (Parents(g, v) != {} ==> exists u: nat, k: nat :: StartsByEdge(g, cfg, r.start, r.complete, u, k, v))
  {
    var s := Prepare(g, busy, loads, stores);
    PreparedState(g, busy, loads, stores);
    InitialGreedy(g, cfg, busy, loads, stores);
    RunGreedy(g, cfg, s);
    RunBound(g, cfg, s);
    RunCompletes(g, cfg, s);
    var r := Run(g, cfg, s);
    BeginsInRun(g, cfg, busy, loads, stores, v);
    DueMeans(g, cfg, r, v);
  }

  lemma BeginsInRun(g: Graph, cfg: Config, busy: map<Slot, nat>, loads: map<Slot, nat>, stores: map<Slot, nat>, v: nat)
    requires Acyclic(g) && v < |g.nodes|
    ensures Initial(g, Prepare(g, busy, loads, stores))
    ensures var r := Run(g, cfg, Prepare(g, busy, loads, stores));
      AllComplete(g, r.complete) && r.timeBefore[v] == EarliestBegin(g, cfg, r.complete, v)
  {
    var s := Prepare(g, busy, loads, stores);
    PreparedState(g, busy, loads, stores);
    RunBound(g, cfg, s);
    RunCompletes(g, cfg, s);
    NothingLatest(g, cfg, s);
    RunLatest(g, cfg, s);
    BeginDetermined(g, cfg, Run(g, cfg, s), v);
  }

  lemma NothingLatest(g: Graph, cfg: Config, s: State)
    requires Shape(g, s) && forall v :: 0 <= v < |g.nodes| ==> s.complete[v] < 0 && s.timeBefore[v] == 0
    ensures AllLatest(g, cfg, s, 0, {})
  {
  }

  lemma DueMeans(g: Graph, cfg: Config, r: State, v: nat)
    requires Timing(g, r, 0) && Greedy(g, cfg, r, 0) && v < |g.nodes| && r.complete[v] >= 0
    requires Acyclic(g) && AllComplete(g, r.complete) && r.timeBefore[v] == EarliestBegin(g, cfg, r.complete, v)
    ensures r.start[v] >= 0 && (Parents(g, v) == {} && !g.nodes[v].InSpad() ==> r.start[v] == 0)
    ensures Parents(g, v) != {} ==> exists u: nat, k: nat :: StartsByEdge(g, cfg, r.start, r.complete, u, k, v)
  {
    assert NodeTimes(g, r, v) && NodeGreedy(g, cfg, r, 0, v);
    var c :| c <= r.start[v] && DueAt(g, cfg, r, v, c);
    if !r.entry[v].Root? {
      var u := r.entry[v].parent;
      var k :| 0 <= k < |g.out[u]| && g.out[u][k].dst == v &&
        r.entry[v] == Admit(g.nodes[u], g.nodes[v], g.out[u][k].parid, cfg, r.timeBefore[v], r.complete[u], u);
      assert g.out[u][k] in g.out[u] && HasEdge(g, u, v) && u in Parents(g, v);
      assert LastParent(g, r.complete, u, k, v);
      assert Admission(g, cfg, r.complete, u, k, v) == r.entry[v];
      assert StartsByEdge(g, cfg, r.start, r.complete, u, k, v);
    }
  }
}
