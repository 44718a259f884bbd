/** Memory ports: no partition ever serves more accesses in a cycle than it has ports, and the
    load and store counters count exactly the completed scratchpad accesses. */
module SchedulerPorts {
  import opened ExecNodes
  import opened DependenceGraph
  import opened Scheduler
  import opened SchedulerStructure
  import opened SchedulerRun
  import opened SchedulerTiming
  import opened SchedulerLiveness

  function Get(m: map<Slot, nat>, slot: Slot): nat {
    if slot in m then m[slot] else 0
  }

  predicate Uses(n: Node, slot: Slot) {
    n.InSpad() && n.place.slot == slot
  }

  /** The accesses that partition `slot` completed in cycle `c`. */
  function Served(g: Graph, s: State, slot: Slot, c: nat): set<nat>
    requires |s.complete| == |g.nodes|
  {
    set v | 0 <= v < |g.nodes| && Uses(g.nodes[v], slot) && s.complete[v] == c
  }

  /** The completed loads (or stores) of partition `slot`. */
  function AccessesDone(g: Graph, s: State, slot: Slot, isLoad: bool): set<nat>
    requires |s.complete| == |g.nodes|
  {
    set v | 0 <= v < |g.nodes| && Uses(g.nodes[v], slot) && g.nodes[v].op.Load? == isLoad && s.complete[v] >= 0
  }

  function Counter(s: State, slot: Slot, isLoad: bool): nat {
    Get(if isLoad then s.loads else s.stores, slot)
  }

  ghost predicate Metered(g: Graph, cfg: Config, s: State, s0: State, slot: Slot)
    requires |s.complete| == |g.nodes|
  {
    && |Served(g, s, slot, s.cycle)| <= Get(s.busy, slot)
    && (cfg.ports != 0 ==> forall c: nat :: |Served(g, s, slot, c)| <= cfg.ports)
    && (forall isLoad :: Counter(s, slot, isLoad) == Counter(s0, slot, isLoad) + |AccessesDone(g, s, slot, isLoad)|)
  }

  /** `s0` is the prepared state the run began in. */
  ghost predicate AllMetered(g: Graph, cfg: Config, s: State, s0: State) {
    && |s.complete| == |g.nodes|
    && (forall slot :: Metered(g, cfg, s, s0, slot))
  }

  lemma SameMeters(g: Graph, cfg: Config, a: State, b: State, s0: State)
    requires AllMetered(g, cfg, a, s0)
    requires b.complete == a.complete && b.cycle == a.cycle
    requires b.busy == a.busy && b.loads == a.loads && b.stores == a.stores
    ensures AllMetered(g, cfg, b, s0)
  {
    forall slot ensures Metered(g, cfg, b, s0, slot) {
      assert Metered(g, cfg, a, s0, slot);
      forall c: nat ensures Served(g, b, slot, c) == Served(g, a, slot, c) {}
      forall isLoad ensures AccessesDone(g, b, slot, isLoad) == AccessesDone(g, a, slot, isLoad) {}
    }
  }

  lemma ServedAfter(g: Graph, s: State, r: State, v: nat, slot: Slot, c: nat)
    requires |s.complete| == |g.nodes| && v < |g.nodes| && s.complete[v] < 0 && r.complete == s.complete[v := s.cycle]
    ensures |Served(g, r, slot, c)| == |Served(g, s, slot, c)| + if Uses(g.nodes[v], slot) && c == s.cycle then 1 else 0
  {
    if Uses(g.nodes[v], slot) && c == s.cycle {
      assert Served(g, r, slot, c) == Served(g, s, slot, c) + {v};
    } else {
      assert Served(g, r, slot, c) == Served(g, s, slot, c);
    }
  }

  lemma RetireServed(g: Graph, s: State, i: nat, slot: Slot, c: nat)
    requires Structure(g, s, {}) && i < |s.executing| && s.executing[i] < |g.nodes|
    ensures var v := s.executing[i];
            var r := Retire(Dispatch(g, s, v), i);
            && |r.complete| == |g.nodes| && |s.complete| == |g.nodes|
            && |Served(g, r, slot, c)| ==
              |Served(g, s, slot, c)| + (if Uses(g.nodes[v], slot) && c == s.cycle then 1 else 0)
  {
    var v := s.executing[i];
    var r := Retire(Dispatch(g, s, v), i);
    assert s.complete[v] < 0 by { assert v in s.executing && OnePhase(g, s, v); }
    ServedAfter(g, s, r, v, slot, c);
  }

  lemma RetireAccesses(g: Graph, s: State, i: nat, slot: Slot, isLoad: bool)
    requires Structure(g, s, {}) && i < |s.executing| && s.executing[i] < |g.nodes|
    ensures var v := s.executing[i];
            var r := Retire(Dispatch(g, s, v), i);
            && |r.complete| == |g.nodes| && |s.complete| == |g.nodes|
            && |AccessesDone(g, r, slot, isLoad)| == |AccessesDone(g, s, slot, isLoad)| +
                 (if Uses(g.nodes[v], slot) && g.nodes[v].op.Load? == isLoad then 1 else 0)
  {
    var v := s.executing[i];
    var r := Retire(Dispatch(g, s, v), i);
    assert v in s.executing && OnePhase(g, s, v);
    if Uses(g.nodes[v], slot) && g.nodes[v].op.Load? == isLoad {
      assert AccessesDone(g, r, slot, isLoad) == AccessesDone(g, s, slot, isLoad) + {v};
    } else {
      assert AccessesDone(g, r, slot, isLoad) == AccessesDone(g, s, slot, isLoad);
    }
  }

  lemma RetireCounters(g: Graph, s: State, i: nat, slot: Slot, isLoad: bool)
    requires Shape(g, s) && i < |s.executing| && s.executing[i] < |g.nodes|
    ensures var v := s.executing[i];
            Counter(Retire(Dispatch(g, s, v), i), slot, isLoad) == Counter(s, slot, isLoad) +
              (if Uses(g.nodes[v], slot) && g.nodes[v].op.Load? == isLoad then 1 else 0)
  {
  }

  lemma RetireMetered(g: Graph, cfg: Config, s: State, i: nat, s0: State)
    requires Structure(g, s, {}) && i < |s.executing| && s.executing[i] < |g.nodes|
    requires AllMetered(g, cfg, s, s0) && !Blocked(cfg, s, g.nodes[s.executing[i]])
    ensures AllMetered(g, cfg, Retire(Dispatch(g, s, s.executing[i]), i), s0)
  {
    var r := Retire(Dispatch(g, s, s.executing[i]), i);
    forall slot ensures Metered(g, cfg, r, s0, slot) {
      assert Metered(g, cfg, s, s0, slot);
      forall isLoad
        ensures Counter(r, slot, isLoad) == Counter(s0, slot, isLoad) + |AccessesDone(g, r, slot, isLoad)|
      {
        RetireAccesses(g, s, i, slot, isLoad);
        RetireCounters(g, s, i, slot, isLoad);
      }
      forall c: nat ensures cfg.ports != 0 ==> |Served(g, r, slot, c)| <= cfg.ports {
        RetireServed(g, s, i, slot, c);
      }
      RetireServed(g, s, i, slot, s.cycle);
    }
  }

  lemma VisitMetered(g: Graph, cfg: Config, s: State, i: nat, s0: State)
    requires Structure(g, s, {}) && i < |s.executing| && s.executing[i] < |g.nodes| && AllMetered(g, cfg, s, s0)
    ensures AllMetered(g, cfg, Visit(g, cfg, s, i).state, s0)
  {
    var v := s.executing[i];
    if Blocked(cfg, s, g.nodes[v]) {
    } else if StaysInFlight(s, g.nodes[v], v) {
      SameMeters(g, cfg, s, Advance(g, s, v), s0);
    } else {
      RetireMetered(g, cfg, s, i, s0);
      FinishEffect(g, cfg, Dispatch(g, s, v), i);
      SameMeters(g, cfg, Retire(Dispatch(g, s, v), i), Visit(g, cfg, s, i).state, s0);
    }
  }

  lemma {:induction false} PassMetered(g: Graph, cfg: Config, s: State, i: nat, s0: State)
    requires Structure(g, s, {}) && i <= |s.executing| && AllMetered(g, cfg, s, s0)
    ensures AllMetered(g, cfg, Pass(g, cfg, s, i), s0)
    decreases |g.nodes| - s.executed, |s.executing| - i
  {
    if i < |s.executing| {
      VisitAdvances(g, cfg, s, i);
      VisitMetered(g, cfg, s, i, s0);
      var r := Visit(g, cfg, s, i);
      PassMetered(g, cfg, r.state, if r.executed then i else i + 1, s0);
    }
  }

  lemma StepMetered(g: Graph, cfg: Config, s: State, s0: State)
    requires Structure(g, s, {}) && Timing(g, s, 0) && AllMetered(g, cfg, s, s0)
    ensures AllMetered(g, cfg, Step(g, cfg, s), s0)
  {
    PassMetered(g, cfg, s, 0, s0);
    PassTiming(g, cfg, s, 0);
    var p := Pass(g, cfg, s, 0);
    var r := Step(g, cfg, s);
    forall slot ensures Metered(g, cfg, r, s0, slot) {
      assert Metered(g, cfg, p, s0, slot);
      forall c: nat ensures Served(g, r, slot, c) == Served(g, p, slot, c) {}
      forall v | 0 <= v < |g.nodes| ensures p.complete[v] <= p.cycle { assert NodeTimes(g, p, v); }
      assert Served(g, r, slot, r.cycle) == {};
      forall isLoad ensures AccessesDone(g, r, slot, isLoad) == AccessesDone(g, p, slot, isLoad) {}
    }
  }

  lemma {:induction false} RunMetered(g: Graph, cfg: Config, s: State, s0: State)
    requires Structure(g, s, {}) && Timing(g, s, 0) && Acyclic(g) && s.ready == [] && AllMetered(g, cfg, s, s0)
    ensures AllMetered(g, cfg, Run(g, cfg, s), s0)
    decreases Fuel(g, cfg, s)
  {
    StepBurnsFuel(g, cfg, s);
    StepTiming(g, cfg, s);
    StepMetered(g, cfg, s, s0);
    var t := Step(g, cfg, s);
    if !Finished(g, t) {
      RunMetered(g, cfg, t, s0);
    }
  }

  /** Over a whole run, each partition completes at most `ports` accesses per cycle, and its
      counters grow by exactly the accesses mapped to it. */
  lemma PortsRespected(g: Graph, cfg: Config, s: State, slot: Slot, c: nat)
    requires Acyclic(g) && Initial(g, s)
    ensures var r := Run(g, cfg, s);
            && |r.complete| == |g.nodes|
            && (cfg.ports != 0 ==> |Served(g, r, slot, c)| <= cfg.ports)
            && (forall isLoad ::
                  Counter(r, slot, isLoad) == Counter(s, slot, isLoad) + |AccessesDone(g, r, slot, isLoad)|)
            && (forall v :: 0 <= v < |g.nodes| && Uses(g.nodes[v], slot) && Connected(g, v) ==>
                  v in AccessesDone(g, r, slot, g.nodes[v].op.Load?))
  {
    forall sl ensures Metered(g, cfg, s, s, sl) {
      forall c: nat ensures Served(g, s, sl, c) == {} {}
      forall isLoad ensures AccessesDone(g, s, sl, isLoad) == {} {}
    }
    RunMetered(g, cfg, s, s);
    assert Metered(g, cfg, Run(g, cfg, s), s, slot);
    RunCompletes(g, cfg, s);
  }
}
