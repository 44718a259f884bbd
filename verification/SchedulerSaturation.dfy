/** Ports are the only thing that keeps a scratchpad access back: in every cycle between the one in which it could
    have started and the one in which it does, its partition serves as many accesses as it has ports. */
module SchedulerSaturation {
  import opened ExecNodes
  import opened DependenceGraph
  import opened Scheduler
  import opened SchedulerStructure
  import opened SchedulerRun
  import opened SchedulerTiming
  import opened SchedulerLiveness
  import opened SchedulerPorts
  import opened SchedulerBegin
  import opened SchedulerGreedy
  import opened SchedulerEdges

  /** What an earlier invocation left in the ports counts in the first cycle. */
  function Carry(s0: State, slot: Slot, c: nat): nat {
    if c == 0 then Get(s0.busy, slot) else 0
  }

  ghost predicate Full(g: Graph, cfg: Config, s: State, s0: State, slot: Slot, c: nat)
    requires |s.complete| == |g.nodes|
  {
    cfg.ports != 0 && |Served(g, s, slot, c)| + Carry(s0, slot, c) >= cfg.ports
  }

  ghost predicate FullUntil(g: Graph, cfg: Config, s: State, s0: State, slot: Slot, d: int, until: int)
    requires |s.complete| == |g.nodes|
  {
    forall e: nat :: d <= e < until ==> Full(g, cfg, s, s0, slot, e)
  }

  /** `v` was due by cycle `until`, and its partition has been full from then on. */
  ghost predicate DelayedTo(g: Graph, cfg: Config, s: State, s0: State, v: nat, until: int)
    requires Shape(g, s) && v < |g.nodes| && g.nodes[v].InSpad()
  {
    exists d :: d <= until && DueAt(g, cfg, s, v, d) && FullUntil(g, cfg, s, s0, g.nodes[v].place.slot, d, until)
  }

  ghost predicate NodeSaturated(g: Graph, cfg: Config, s: State, s0: State, i: nat, v: nat)
    requires Shape(g, s) && v < |g.nodes| && i <= |s.executing|
  {
    g.nodes[v].InSpad() ==>
      && (v in s.executing ==> DelayedTo(g, cfg, s, s0, v, s.cycle))
      && (s.start[v] >= 0 ==> DelayedTo(g, cfg, s, s0, v, s.start[v]))
      && (v in s.executing[..i] ==> !CanService(cfg, s, g.nodes[v].place.slot))
  }

  ghost predicate Saturated(g: Graph, cfg: Config, s: State, s0: State, i: nat) {
    && Shape(g, s) && i <= |s.executing|
    && (forall v: nat :: v < |g.nodes| ==> NodeSaturated(g, cfg, s, s0, i, v))
  }

  /** The ports in use are those of this cycle's accesses and what was left over. */
  ghost predicate Exact(g: Graph, s: State, s0: State) {
    && |s.complete| == |g.nodes|
    && (forall slot :: Get(s.busy, slot) == |Served(g, s, slot, s.cycle)| + Carry(s0, slot, s.cycle))
  }

  // ----- what a visit changes

  /** Nodes complete in the current cycle only, and nothing moves the due cycle of a node that is not waiting. */
  ghost predicate Moves(g: Graph, s: State, r: State) {
    && Shape(g, s) && Shape(g, r) && r.cycle == s.cycle
    && (forall u :: 0 <= u < |g.nodes| && s.complete[u] >= 0 ==> r.complete[u] == s.complete[u])
    && (forall u :: 0 <= u < |g.nodes| && s.complete[u] < 0 ==> r.complete[u] < 0 || r.complete[u] == s.cycle)
    && (forall v :: 0 <= v < |g.nodes| && !Waiting(s, v) ==>
          r.entry[v] == s.entry[v] && r.timeBefore[v] == s.timeBefore[v])
  }

  lemma {:induction false} SameTimeElsewhere(g: Graph, cfg: Config, s: State, u: nat, es: seq<Edge>, after: nat, v: nat)
    requires Shape(g, s) && u < |g.nodes| && v < |g.nodes| && v !in Targets(es)
    requires forall k :: 0 <= k < |es| ==> es[k].dst < |g.nodes|
    ensures UpdateChildren(g, cfg, s, u, es, after).timeBefore[v] == s.timeBefore[v]
    decreases |es|
  {
    if es != [] {
      assert es[0] in es && v !in Targets(es[1..]) && v != es[0].dst;
      SameTimeElsewhere(g, cfg, UpdateChild(g, cfg, s, u, es[0], after), u, es[1..], after, v);
    }
  }

  lemma NotWaitingNotChild(g: Graph, s: State, x: nat, v: nat)
    requires Structure(g, s, {}) && x < |g.nodes| && v < |g.nodes| && s.complete[x] < 0 && !Waiting(s, v)
    ensures v !in Targets(g.out[x])
  {
    assert Counted(g, s, {}, v);
    assert v in Targets(g.out[x]) ==> x in Parents(g, v);
  }

  lemma VisitMoves(g: Graph, cfg: Config, s: State, i: nat)
    requires Structure(g, s, {}) && i < |s.executing| && s.executing[i] < |g.nodes|
    ensures Moves(g, s, Visit(g, cfg, s, i).state)
  {
    var x := s.executing[i];
    assert x in s.executing && OnePhase(g, s, x);
    var d := Dispatch(g, s, x);
    FinishEffect(g, cfg, d, i);
    forall v: nat | v < |g.nodes| && !Waiting(s, v)
      ensures Finish(g, cfg, d, i).timeBefore[v] == s.timeBefore[v]
    {
      NotWaitingNotChild(g, s, x, v);
      SameTimeElsewhere(g, cfg, Retire(d, i), x, g.out[x], TimeAfter(g, cfg, d, x), v);
    }
  }

  lemma ServedEarlier(g: Graph, s: State, r: State, slot: Slot, e: nat)
    requires Moves(g, s, r) && e < s.cycle
    ensures Served(g, r, slot, e) == Served(g, s, slot, e)
  {
  }

  lemma FullKept(g: Graph, cfg: Config, s: State, r: State, s0: State, slot: Slot, d: int, until: int)
    requires Moves(g, s, r) && until <= s.cycle && FullUntil(g, cfg, s, s0, slot, d, until)
    ensures FullUntil(g, cfg, r, s0, slot, d, until)
  {
    forall e: nat | d <= e < until ensures Full(g, cfg, r, s0, slot, e) {
      ServedEarlier(g, s, r, slot, e);
      assert Full(g, cfg, s, s0, slot, e);
    }
  }

  lemma DelayKept(g: Graph, cfg: Config, s: State, r: State, s0: State, v: nat, until: int)
    requires Moves(g, s, r) && v < |g.nodes| && g.nodes[v].InSpad() && !Waiting(s, v) && until <= s.cycle
    requires DelayedTo(g, cfg, s, s0, v, until)
    ensures DelayedTo(g, cfg, r, s0, v, until)
  {
    var slot := g.nodes[v].place.slot;
    var d :| d <= until && DueAt(g, cfg, s, v, d) && FullUntil(g, cfg, s, s0, slot, d, until);
    DueKept(g, cfg, s, r, v, d);
    FullKept(g, cfg, s, r, s0, slot, d, until);
  }

  /** A node that was waiting for a parent is due no earlier than now. */
  lemma WokenIsDueNow(g: Graph, cfg: Config, s: State, r: State, v: nat, d: int)
    requires Structure(g, s, {}) && Moves(g, s, r) && v < |g.nodes| && Waiting(s, v) && DueAt(g, cfg, r, v, d)
    ensures d >= s.cycle
  {
    assert Counted(g, s, {}, v);
    assert Parents(g, v) - Done(s) != {};
    var p :| p in Parents(g, v) - Done(s);
    assert p in Parents(g, v) && s.complete[p] < 0;
  }

  lemma WokenDelay(g: Graph, cfg: Config, s: State, r: State, s0: State, j: nat, v: nat)
    requires Structure(g, s, {}) && Moves(g, s, r) && v < |g.nodes| && Waiting(s, v)
    requires j <= |r.executing| && NodeGreedy(g, cfg, r, j, v) && v in r.executing && g.nodes[v].InSpad()
    ensures DelayedTo(g, cfg, r, s0, v, r.cycle)
  {
    var d :| d <= r.cycle && DueAt(g, cfg, r, v, d);
    WokenIsDueNow(g, cfg, s, r, v, d);
    assert FullUntil(g, cfg, r, s0, g.nodes[v].place.slot, d, r.cycle);
  }

  // ----- the queue under a visit

  /** `x` is the node visited, `j` the next position. */
  ghost predicate QueueMoves(g: Graph, cfg: Config, s: State, r: State, i: nat, j: nat, v: nat)
    requires Shape(g, s) && Shape(g, r) && v < |g.nodes| && i < |s.executing|
  {
    && j <= |r.executing|
    && (v in r.executing ==> v in s.executing || Waiting(s, v))
    && (v in r.executing[..j] ==> v in s.executing[..i] || v == s.executing[i])
    && (r.start[v] >= 0 ==> s.start[v] == r.start[v] || (v == s.executing[i] && r.start[v] == s.cycle))
    && (g.nodes[v].InSpad() && v == s.executing[i] && v in r.executing[..j] ==>
          !CanService(cfg, r, g.nodes[v].place.slot))
    && (g.nodes[v].InSpad() && !CanService(cfg, s, g.nodes[v].place.slot) ==>
          !CanService(cfg, r, g.nodes[v].place.slot))
  }

  lemma VisitQueueMoves(g: Graph, cfg: Config, s: State, i: nat, v: nat)
    requires Structure(g, s, {}) && i < |s.executing| && s.executing[i] < |g.nodes| && v < |g.nodes|
    ensures var r := Visit(g, cfg, s, i);
      QueueMoves(g, cfg, s, r.state, i, if r.executed then i else i + 1, v)
  {
    var x := s.executing[i];
    if Blocked(cfg, s, g.nodes[x]) || StaysInFlight(s, g.nodes[x], x) {
      assert s.executing[..i + 1] == s.executing[..i] + [x];
    } else {
      FinishQueueMoves(g, cfg, s, i, v);
    }
  }

  lemma FinishQueueMoves(g: Graph, cfg: Config, s: State, i: nat, v: nat)
    requires Structure(g, s, {}) && i < |s.executing| && s.executing[i] < |g.nodes| && v < |g.nodes|
    requires !Blocked(cfg, s, g.nodes[s.executing[i]])
    ensures QueueMoves(g, cfg, s, Finish(g, cfg, Dispatch(g, s, s.executing[i]), i), i, i, v)
  {
    var d := Dispatch(g, s, s.executing[i]);
    FinishEffect(g, cfg, d, i);
    var f := Finish(g, cfg, d, i);
    assert f.executing[..i] == Retire(d, i).executing[..i] == s.executing[..i];
    if v in f.executing { NewInQueue(g, d, f, i, v); }
    NotVisitedTwice(g, s, i);
  }

  lemma NotVisitedTwice(g: Graph, s: State, i: nat)
    requires Structure(g, s, {}) && i < |s.executing|
    ensures s.executing[i] !in s.executing[..i]
  {
  }

  lemma NewInQueue(g: Graph, d: State, f: State, i: nat, v: nat)
    requires Shape(g, d) && i < |d.executing| && d.executing[i] < |g.nodes| && v < |g.nodes|
    requires Woken(g, Retire(d, i), f) && v in f.executing
    ensures v in d.executing || Waiting(d, v)
  {
    var q := Retire(d, i).executing;
    var k :| 0 <= k < |f.executing| && f.executing[k] == v;
    if k < |q| { assert q[k] == v && v in d.executing; }
  }

  lemma NodeMoves(g: Graph, cfg: Config, s: State, r: State, s0: State, i: nat, j: nat, v: nat)
    requires Structure(g, s, {}) && Timing(g, s, i) && Moves(g, s, r) && v < |g.nodes| && i < |s.executing|
    requires QueueMoves(g, cfg, s, r, i, j, v) && NodeGreedy(g, cfg, r, j, v)
    requires NodeSaturated(g, cfg, s, s0, i, v)
    ensures NodeSaturated(g, cfg, r, s0, j, v)
  {
    if g.nodes[v].InSpad() {
      assert OnePhase(g, s, v) && NodeTimes(g, s, v);
      if v in r.executing {
        if Waiting(s, v) { WokenDelay(g, cfg, s, r, s0, j, v); } else { DelayKept(g, cfg, s, r, s0, v, s.cycle); }
      }
      if r.start[v] >= 0 {
        assert !Waiting(s, v);
        DelayKept(g, cfg, s, r, s0, v, r.start[v]);
      }
    }
  }

  lemma VisitSaturated(g: Graph, cfg: Config, s: State, s0: State, i: nat)
    requires Structure(g, s, {}) && Timing(g, s, i) && Greedy(g, cfg, s, i) && i < |s.executing|
    requires s.executing[i] < |g.nodes| && Saturated(g, cfg, s, s0, i)
    ensures var r := Visit(g, cfg, s, i); Saturated(g, cfg, r.state, s0, if r.executed then i else i + 1)
  {
    var r := Visit(g, cfg, s, i);
    var j := if r.executed then i else i + 1;
    VisitMoves(g, cfg, s, i);
    VisitGreedy(g, cfg, s, i);
    forall v: nat | v < |g.nodes| ensures NodeSaturated(g, cfg, r.state, s0, j, v) {
      VisitQueueMoves(g, cfg, s, i, v);
      assert NodeGreedy(g, cfg, r.state, j, v) && NodeSaturated(g, cfg, s, s0, i, v);
      NodeMoves(g, cfg, s, r.state, s0, i, j, v);
    }
  }

  lemma VisitExact(g: Graph, cfg: Config, s: State, s0: State, i: nat)
    requires Structure(g, s, {}) && i < |s.executing| && s.executing[i] < |g.nodes| && Exact(g, s, s0)
    ensures Exact(g, Visit(g, cfg, s, i).state, s0)
  {
    var x := s.executing[i];
    var r := Visit(g, cfg, s, i);
    FinishEffect(g, cfg, Dispatch(g, s, x), i);
    forall slot ensures Get(r.state.busy, slot) == |Served(g, r.state, slot, s.cycle)| + Carry(s0, slot, s.cycle) {
      if r.executed {
        RetireServed(g, s, i, slot, s.cycle);
        assert Served(g, r.state, slot, s.cycle) == Served(g, Retire(Dispatch(g, s, x), i), slot, s.cycle);
      } else {
        assert Served(g, r.state, slot, s.cycle) == Served(g, s, slot, s.cycle);
      }
    }
  }

  lemma {:induction false} PassSaturated(g: Graph, cfg: Config, s: State, s0: State, i: nat)
    requires Structure(g, s, {}) && Timing(g, s, i) && Greedy(g, cfg, s, i) && i <= |s.executing|
    requires Saturated(g, cfg, s, s0, i) && Exact(g, s, s0)
    ensures var r := Pass(g, cfg, s, i); Saturated(g, cfg, r, s0, |r.executing|) && Exact(g, r, s0)
    decreases |g.nodes| - s.executed, |s.executing| - i
  {
    if i < |s.executing| {
      VisitAdvances(g, cfg, s, i);
      VisitTiming(g, cfg, s, i);
      VisitGreedy(g, cfg, s, i);
      VisitSaturated(g, cfg, s, s0, i);
      VisitExact(g, cfg, s, s0, i);
      var r := Visit(g, cfg, s, i);
      PassSaturated(g, cfg, r.state, s0, if r.executed then i else i + 1);
    }
  }

  // ----- the end of a cycle

  lemma FullNow(g: Graph, cfg: Config, p: State, s0: State, slot: Slot)
    requires Exact(g, p, s0) && !CanService(cfg, p, slot)
    ensures Full(g, cfg, p, s0, slot, p.cycle)
  {
    assert Get(p.busy, slot) == |Served(g, p, slot, p.cycle)| + Carry(s0, slot, p.cycle);
  }

  /** The next cycle begins: nothing but the clock, the queues and the ports has changed. */
  ghost predicate Turns(g: Graph, p: State, r: State) {
    && Shape(g, p) && Shape(g, r) && r.cycle == p.cycle + 1
    && r.complete == p.complete && r.start == p.start && r.entry == p.entry && r.timeBefore == p.timeBefore
  }

  lemma DelayTurns(g: Graph, cfg: Config, p: State, r: State, s0: State, v: nat, d: int, until: int)
    requires Turns(g, p, r) && v < |g.nodes| && g.nodes[v].InSpad() && d <= until && DueAt(g, cfg, p, v, d)
    requires FullUntil(g, cfg, p, s0, g.nodes[v].place.slot, d, until)
    ensures DelayedTo(g, cfg, r, s0, v, until)
  {
    var slot := g.nodes[v].place.slot;
    DueKept(g, cfg, p, r, v, d);
    forall e: nat | d <= e < until ensures Full(g, cfg, r, s0, slot, e) {
      assert Full(g, cfg, p, s0, slot, e);
      assert Served(g, r, slot, e) == Served(g, p, slot, e);
    }
  }

  /** An access that all visits passed over has been waiting for a port in this cycle too. */
  lemma StillDelayed(g: Graph, cfg: Config, p: State, r: State, s0: State, v: nat)
    requires Turns(g, p, r) && Exact(g, p, s0) && v < |g.nodes| && g.nodes[v].InSpad()
    requires DelayedTo(g, cfg, p, s0, v, p.cycle) && !CanService(cfg, p, g.nodes[v].place.slot)
    ensures DelayedTo(g, cfg, r, s0, v, r.cycle)
  {
    var slot := g.nodes[v].place.slot;
    var d :| d <= p.cycle && DueAt(g, cfg, p, v, d) && FullUntil(g, cfg, p, s0, slot, d, p.cycle);
    FullNow(g, cfg, p, s0, slot);
    DelayTurns(g, cfg, p, r, s0, v, d, r.cycle);
  }

  lemma NodeTurns(g: Graph, cfg: Config, p: State, r: State, s0: State, v: nat)
    requires Turns(g, p, r) && Exact(g, p, s0) && v < |g.nodes|
    requires NodeSaturated(g, cfg, p, s0, |p.executing|, v) && NodeGreedy(g, cfg, p, |p.executing|, v)
    requires v in r.executing ==> v in p.executing || v in p.ready
    ensures NodeSaturated(g, cfg, r, s0, 0, v)
  {
    if g.nodes[v].InSpad() {
      assert p.executing[..|p.executing|] == p.executing && r.executing[..0] == [];
      if v in r.executing {
        if v in p.executing {
          StillDelayed(g, cfg, p, r, s0, v);
        } else {
          DelayTurns(g, cfg, p, r, s0, v, r.cycle, r.cycle);
        }
      }
      if p.start[v] >= 0 {
        var until := p.start[v];
        var d :| d <= until && DueAt(g, cfg, p, v, d) && FullUntil(g, cfg, p, s0, g.nodes[v].place.slot, d, until);
        DelayTurns(g, cfg, p, r, s0, v, d, until);
      }
    }
  }

  lemma EndCycleSaturated(g: Graph, cfg: Config, p: State, s0: State)
    requires Structure(g, p, {}) && Timing(g, p, |p.executing|) && Greedy(g, cfg, p, |p.executing|)
    requires Saturated(g, cfg, p, s0, |p.executing|) && Exact(g, p, s0)
    ensures var r := EndCycle(g, p); Saturated(g, cfg, r, s0, 0) && (!Finished(g, r) ==> Exact(g, r, s0))
  {
    var r := EndCycle(g, p);
    CopyReadyMembers(g, p.executing, p.ready);
    forall v: nat | v < |g.nodes| ensures NodeSaturated(g, cfg, r, s0, 0, v) {
      assert NodeSaturated(g, cfg, p, s0, |p.executing|, v) && NodeGreedy(g, cfg, p, |p.executing|, v);
      NodeTurns(g, cfg, p, r, s0, v);
    }
    TurnedExact(g, p, s0);
  }

  // ----- whole runs

  lemma {:induction false} RunSaturated(g: Graph, cfg: Config, s: State, s0: State)
    requires Structure(g, s, {}) && Timing(g, s, 0) && Acyclic(g) && s.ready == [] && Greedy(g, cfg, s, 0)
    requires Saturated(g, cfg, s, s0, 0) && Exact(g, s, s0)
    ensures Saturated(g, cfg, Run(g, cfg, s), s0, 0) && Greedy(g, cfg, Run(g, cfg, s), 0)
    decreases Fuel(g, cfg, s)
  {
    var t := StepSaturated(g, cfg, s, s0);
    StepBurnsFuel(g, cfg, s);
    if !Finished(g, t) {
      RunSaturated(g, cfg, t, s0);
    }
  }

  lemma StepSaturated(g: Graph, cfg: Config, s: State, s0: State) returns (t: State)
    requires Structure(g, s, {}) && Timing(g, s, 0) && Greedy(g, cfg, s, 0)
    requires Saturated(g, cfg, s, s0, 0) && Exact(g, s, s0)
    ensures t == Step(g, cfg, s) && Timing(g, t, 0) && Greedy(g, cfg, t, 0)
    ensures Saturated(g, cfg, t, s0, 0) && (!Finished(g, t) ==> Exact(g, t, s0))
  {
    var p := Pass(g, cfg, s, 0);
    StepTiming(g, cfg, s);
    PassTiming(g, cfg, s, 0);
    PassGreedy(g, cfg, s, 0);
    PassSaturated(g, cfg, s, s0, 0);
    EndCycleGreedy(g, cfg, p);
    EndCycleSaturated(g, cfg, p, s0);
    t := Step(g, cfg, s);
  }

  lemma PreparedSaturated(g: Graph, cfg: Config, s: State)
    requires Initial(g, s) && Greedy(g, cfg, s, 0)
    ensures Saturated(g, cfg, s, s, 0) && Exact(g, s, s)
  {
    assert s.executing[..0] == [];
    forall v: nat | v < |g.nodes| ensures NodeSaturated(g, cfg, s, s, 0, v) {
      assert NodeGreedy(g, cfg, s, 0, v) && NodeTimes(g, s, v);
      if g.nodes[v].InSpad() && v in s.executing {
        var d :| d <= s.cycle && DueAt(g, cfg, s, v, d);
        assert d >= 0;
        assert FullUntil(g, cfg, s, s, g.nodes[v].place.slot, d, s.cycle);
      }
    }
    forall slot ensures Served(g, s, slot, s.cycle) == {} {}
  }

  /** The cycle in which `v` could start: 0 without parents, otherwise as the edge of a parent that completes
      last decides. */
  ghost predicate Due(g: Graph, cfg: Config, complete: seq<int>, v: nat, d: int)
    requires Acyclic(g) && AllComplete(g, complete) && v < |g.nodes|
  {
    if Parents(g, v) == {} then d == 0
    else exists u: nat, k: nat :: DueByEdge(g, cfg, complete, u, k, v, d)
  }

  ghost predicate DueByEdge(g: Graph, cfg: Config, complete: seq<int>, u: nat, k: nat, v: nat, d: int)
    requires Acyclic(g) && AllComplete(g, complete) && v < |g.nodes|
  {
    && IsEdge(g, u, k, v) && complete[u] >= 0 && CompletesLast(g, complete, u, v)
    && d == complete[u] + if AtOnce(g, cfg, complete, u, k, v) then 0 else 1
  }

  lemma DueIsDue(g: Graph, cfg: Config, r: State, v: nat, d: int)
    requires Acyclic(g) && Shape(g, r) && AllComplete(g, r.complete) && v < |g.nodes| && cfg.cycleTime > 0
    requires r.timeBefore[v] == EarliestBegin(g, cfg, r.complete, v) && DueAt(g, cfg, r, v, d)
    ensures Due(g, cfg, r.complete, v, d) && d >= 0
  {
    if !r.entry[v].Root? {
      var u := r.entry[v].parent;
      var k: nat :| k < |g.out[u]| && g.out[u][k].dst == v &&
        r.entry[v] == Admit(g.nodes[u], g.nodes[v], g.out[u][k].parid, cfg, r.timeBefore[v], r.complete[u], u);
      assert IsEdge(g, u, k, v);
      EdgeIsParent(g, r.complete, u, k, v);
      assert CompletesLast(g, r.complete, u, v);
      var deferred := r.entry[v].Deferred?;
      EdgeDefers(g, cfg, r.complete, u, k, v, r.timeBefore[v], deferred);
      assert DueByEdge(g, cfg, r.complete, u, k, v, d);
    }
  }

  lemma EdgeDefers(g: Graph, cfg: Config, complete: seq<int>, u: nat, k: nat, v: nat, begin: nat, deferred: bool)
    requires Acyclic(g) && AllComplete(g, complete) && v < |g.nodes| && cfg.cycleTime > 0
    requires IsEdge(g, u, k, v) && complete[u] >= 0 && begin == EarliestBegin(g, cfg, complete, v)
    requires deferred == Admit(g.nodes[u], g.nodes[v], g.out[u][k].parid, cfg, begin, complete[u], u).Deferred?
    ensures deferred <==> !AtOnce(g, cfg, complete, u, k, v)
  {
    RuleIs(g.nodes[u], g.nodes[v], g.out[u][k].parid, cfg, begin, complete[u], u);
  }

  /** All ports of the partition are taken in each of these cycles. */
  ghost predicate PortsTaken(g: Graph, cfg: Config, busy: map<Slot, nat>, r: State, slot: Slot, d: int, until: int)
    requires |r.complete| == |g.nodes|
  {
    forall e: nat :: d <= e < until ==> AllTaken(g, cfg, busy, r, slot, e)
  }

  ghost predicate AllTaken(g: Graph, cfg: Config, busy: map<Slot, nat>, r: State, slot: Slot, e: nat)
    requires |r.complete| == |g.nodes|
  {
    cfg.ports != 0 && |Served(g, r, slot, e)| + (if e == 0 then Get(busy, slot) else 0) >= cfg.ports
  }

  ghost predicate HeldByPorts(g: Graph, cfg: Config, busy: map<Slot, nat>, r: State, v: nat, slot: Slot, d: int)
    requires Shape(g, r) && Acyclic(g) && AllComplete(g, r.complete) && v < |g.nodes|
  {
    Due(g, cfg, r.complete, v, d) && 0 <= d <= r.start[v] && PortsTaken(g, cfg, busy, r, slot, d, r.start[v])
  }

  lemma FullIsTaken(g: Graph, cfg: Config, busy: map<Slot, nat>, s: State, r: State, slot: Slot, d: int, until: int)
    requires |r.complete| == |g.nodes| && FullUntil(g, cfg, r, s, slot, d, until) && s.busy == busy
    ensures PortsTaken(g, cfg, busy, r, slot, d, until)
  {
    forall e: nat | d <= e < until ensures AllTaken(g, cfg, busy, r, slot, e) { assert Full(g, cfg, r, s, slot, e); }
  }

  /** In every run, an access starts when it is due unless every port of its partition is taken in that cycle and in
      each one up to its start; without a limit on ports, always. */
  lemma OnlyPortsDelay(g: Graph, cfg: Config, busy: map<Slot, nat>, loads: map<Slot, nat>, stores: map<Slot, nat>,
                       v: nat, slot: Slot)
    requires Acyclic(g) && cfg.cycleTime > 0 && v < |g.nodes| && Connected(g, v)
    requires g.nodes[v].op in {Load, Store} && g.nodes[v].place == InPartition(slot)
    ensures Initial(g, Prepare(g, busy, loads, stores))
    ensures var r := Run(g, cfg, Prepare(g, busy, loads, stores));
      AllComplete(g, r.complete) && exists d :: HeldByPorts(g, cfg, busy, r, v, slot, d)
  {
    var s := Prepare(g, busy, loads, stores);
    var r := AccessDelayed(g, cfg, busy, loads, stores, s, v);
    BeginsInRun(g, cfg, busy, loads, stores, v);
    var d := DelayIsPorts(g, cfg, busy, s, r, v, slot);
  }

  lemma DelayIsPorts(g: Graph, cfg: Config, busy: map<Slot, nat>, s: State, r: State, v: nat, slot: Slot)
    returns (d: int)
    requires Acyclic(g) && Shape(g, r) && AllComplete(g, r.complete) && v < |g.nodes| && cfg.cycleTime > 0
    requires g.nodes[v].InSpad() && g.nodes[v].place == InPartition(slot) && s.busy == busy
    requires DelayedTo(g, cfg, r, s, v, r.start[v]) && r.timeBefore[v] == EarliestBegin(g, cfg, r.complete, v)
    ensures HeldByPorts(g, cfg, busy, r, v, slot, d)
  {
    d :| d <= r.start[v] && DueAt(g, cfg, r, v, d) && FullUntil(g, cfg, r, s, slot, d, r.start[v]);
    DueIsDue(g, cfg, r, v, d);
    FullIsTaken(g, cfg, busy, s, r, slot, d, r.start[v]);
  }

  lemma AccessDelayed(g: Graph, cfg: Config, busy: map<Slot, nat>, loads: map<Slot, nat>, stores: map<Slot, nat>,
                      s: State, v: nat) returns (r: State)
    requires Acyclic(g) && v < |g.nodes| && Connected(g, v) && g.nodes[v].InSpad()
    requires s == Prepare(g, busy, loads, stores)
    ensures Initial(g, s) && r == Run(g, cfg, s) && Shape(g, r) && DelayedTo(g, cfg, r, s, v, r.start[v])
  {
    PreparedState(g, busy, loads, stores);
    InitialGreedy(g, cfg, busy, loads, stores);
    PreparedSaturated(g, cfg, s);
    RunSaturated(g, cfg, s, s);
    RunBound(g, cfg, s);
    RunCompletes(g, cfg, s);
    r := Run(g, cfg, s);
    assert NodeTimes(g, r, v) && NodeSaturated(g, cfg, r, s, 0, v);
  }

  // ----- what a run leaves in the ports

  ghost predicate Leaves(g: Graph, r: State, s0: State, slot: Slot) {
    && r.cycle > 0 && |r.complete| == |g.nodes|
    && Get(r.busy, slot) == |Served(g, r, slot, r.cycle - 1)| + Carry(s0, slot, r.cycle - 1)
  }

  lemma {:induction false} RunLeaves(g: Graph, cfg: Config, s: State, s0: State, slot: Slot)
    requires Structure(g, s, {}) && Timing(g, s, 0) && Acyclic(g) && s.ready == [] && Exact(g, s, s0)
    ensures Leaves(g, Run(g, cfg, s), s0, slot)
    decreases Fuel(g, cfg, s)
  {
    var t := StepLeaves(g, cfg, s, s0, slot);
    StepBurnsFuel(g, cfg, s);
    if !Finished(g, t) {
      RunLeaves(g, cfg, t, s0, slot);
    }
  }

  lemma StepLeaves(g: Graph, cfg: Config, s: State, s0: State, slot: Slot) returns (t: State)
    requires Structure(g, s, {}) && Timing(g, s, 0) && Exact(g, s, s0)
    ensures t == Step(g, cfg, s) && Timing(g, t, 0)
    ensures if Finished(g, t) then Leaves(g, t, s0, slot) else Exact(g, t, s0)
  {
    var p := Pass(g, cfg, s, 0);
    StepTiming(g, cfg, s);
    PassTiming(g, cfg, s, 0);
    PassExact(g, cfg, s, s0, 0);
    TurnedExact(g, p, s0);
    t := Step(g, cfg, s);
    assert Served(g, t, slot, p.cycle) == Served(g, p, slot, p.cycle);
  }

  lemma {:induction false} PassExact(g: Graph, cfg: Config, s: State, s0: State, i: nat)
    requires Structure(g, s, {}) && i <= |s.executing| && Exact(g, s, s0)
    ensures Exact(g, Pass(g, cfg, s, i), s0)
    decreases |g.nodes| - s.executed, |s.executing| - i
  {
    if i < |s.executing| {
      VisitAdvances(g, cfg, s, i);
      VisitExact(g, cfg, s, s0, i);
      var r := Visit(g, cfg, s, i);
      PassExact(g, cfg, r.state, s0, if r.executed then i else i + 1);
    }
  }

  lemma TurnedExact(g: Graph, p: State, s0: State)
    requires Structure(g, p, {}) && Timing(g, p, |p.executing|) && Exact(g, p, s0)
    ensures var r := EndCycle(g, p); !Finished(g, r) ==> Exact(g, r, s0)
  {
    var r := EndCycle(g, p);
    forall slot ensures Served(g, r, slot, r.cycle) == {} {
      forall v | 0 <= v < |g.nodes| ensures p.complete[v] <= p.cycle { assert NodeTimes(g, p, v); }
    }
  }

  /** The ports of the last cycle are not released: a run leaves as many in use as its last cycle served accesses,
      and, if it was the first too, those that were in use before. */
  lemma LeftoverPorts(g: Graph, cfg: Config, s: State, slot: Slot)
    requires Acyclic(g) && Initial(g, s)
    ensures LeavesLastCycle(g, Run(g, cfg, s), s.busy, slot)
  {
    InitialExact(g, s);
    RunLeaves(g, cfg, s, s, slot);
    LeavesMeans(g, Run(g, cfg, s), s, slot);
  }

  ghost predicate LeavesLastCycle(g: Graph, r: State, busy: map<Slot, nat>, slot: Slot) {
    && r.cycle > 0 && |r.complete| == |g.nodes|
    && Get(r.busy, slot) == |Served(g, r, slot, r.cycle - 1)| + if r.cycle == 1 then Get(busy, slot) else 0
  }

  lemma LeavesMeans(g: Graph, r: State, s0: State, slot: Slot)
    requires Leaves(g, r, s0, slot)
    ensures LeavesLastCycle(g, r, s0.busy, slot)
  {
  }

  lemma InitialExact(g: Graph, s: State)
    requires Initial(g, s)
    ensures Exact(g, s, s)
  {
    forall slot ensures Served(g, s, slot, s.cycle) == {} {}
  }
}
