/** Ports left occupied by an earlier invocation: exactly then some graph needs one cycle more than the
    bound for free ports. */
module SchedulerStalePorts {
  import opened ExecNodes
  import opened DependenceGraph
  import opened Scheduler
  import opened SchedulerStructure
  import opened SchedulerRun
  import opened SchedulerTiming
  import opened SchedulerLiveness

  function LoadFrom(slot: Slot): Node {
    Node(Load, false, InPartition(slot))
  }

  /** Two loads from one partition, the second waiting for the first. */
  function TwoLoads(slot: Slot): (g: Graph) {
    Digraph([LoadFrom(slot), LoadFrom(slot)], [[Edge(1, MEMORY_EDGE)], []])
  }

  lemma TwoLoadsShape(slot: Slot)
    ensures var g := TwoLoads(slot);
      && Acyclic(g) && Parents(g, 0) == {} && Parents(g, 1) == {0}
      && Connected(g, 0) && Connected(g, 1) && Total(g) == {0, 1} && LatencySum(g, 2) == 0 && Roots(g, 2) == [0]
  {
    var g := TwoLoads(slot);
    assert g.out[0][0] in g.out[0];
    assert Targets(g.out[0]) == {1} && Targets(g.out[1]) == {};
    forall u: nat, v: nat | HasEdge(g, u, v) ensures u < v {}
    ForwardEdgesAcyclic(g);
    assert HasEdge(g, 0, 1) && 0 in Parents(g, 1);
    assert Roots(g, 1) == [0];
    assert LatencySum(g, 1) == 0;
  }

  /** In the first cycle the stale port blocks the first load. */
  lemma FirstCycleLost(cfg: Config, slot: Slot, s: State)
    requires Structure(TwoLoads(slot), s, {}) && s.executing == [0] && s.ready == [] && s.executed == 0
    requires !CanService(cfg, s, slot) && |Total(TwoLoads(slot))| == 2
    ensures Step(TwoLoads(slot), cfg, s) == s.(cycle := s.cycle + 1, busy := map[])
  {
    var g := TwoLoads(slot);
    assert Visit(g, cfg, s, 0) == Visited(s, false);
    assert Pass(g, cfg, s, 1) == s;
  }

  /** In the second the first load is served, and the second made ready. */
  lemma FirstLoadServed(cfg: Config, slot: Slot, s: State)
    requires Shape(TwoLoads(slot), s) && s.executing == [0] && s.ready == [] && s.executed == 0
    requires s.busy == map[] && s.inflight == map[] && s.numParents == [0, 1]
    ensures var r := Visit(TwoLoads(slot), cfg, s, 0);
      r.executed && r.state.executing == [] && r.state.executed == 1 && r.state.cycle == s.cycle
  {
    var g := TwoLoads(slot);
    var d := Dispatch(g, s, 0);
    var f := Retire(d, 0);
    assert f.executing == [] && f.executed == 1;
    var after := TimeAfter(g, cfg, d, 0);
    var t := UpdateChild(g, cfg, f, 0, g.out[0][0], after);
    assert g.out[0][1..] == [];
    assert UpdateChildren(g, cfg, t, 0, g.out[0][1..], after) == t;
    assert Finish(g, cfg, d, 0) == t;
  }

  lemma SecondCycle(cfg: Config, slot: Slot, s: State)
    requires Structure(TwoLoads(slot), s, {}) && s.executing == [0] && s.ready == [] && s.executed == 0
    requires s.busy == map[] && s.inflight == map[] && s.numParents == [0, 1] && |Total(TwoLoads(slot))| == 2
    ensures var r := Step(TwoLoads(slot), cfg, s); r.executed == 1 && r.ready == [] && r.cycle == s.cycle + 1
  {
    var g := TwoLoads(slot);
    VisitAdvances(g, cfg, s, 0);
    FirstLoadServed(cfg, slot, s);
    assert Pass(g, cfg, s, 0) == Visit(g, cfg, s, 0).state;
  }

  lemma TwoMoreCycles(cfg: Config, slot: Slot, s: State)
    requires Structure(TwoLoads(slot), s, {}) && Timing(TwoLoads(slot), s, 0) && Acyclic(TwoLoads(slot))
    requires s.executing == [0] && s.ready == [] && s.executed == 0
    requires s.busy == map[] && s.inflight == map[] && s.numParents == [0, 1] && |Total(TwoLoads(slot))| == 2
    ensures Run(TwoLoads(slot), cfg, s).cycle >= s.cycle + 2
  {
    var g := TwoLoads(slot);
    SecondCycle(cfg, slot, s);
    RunStep(g, cfg, s);
    StepTiming(g, cfg, s);
    RunBound(g, cfg, Step(g, cfg, s));
  }

  /** The run stays within the bound for free ports. */
  ghost predicate WithinBound(g: Graph, cfg: Config, busy: map<Slot, nat>, loads: map<Slot, nat>,
                              stores: map<Slot, nat>)
    requires Acyclic(g)
  {
    PreparedState(g, busy, loads, stores);
    Run(g, cfg, Prepare(g, busy, loads, stores)).cycle <= Max(1, |Total(g)| + LatencySum(g, |g.nodes|))
  }

  /** Every partition in use has a port left. */
  predicate NoneOccupied(cfg: Config, busy: map<Slot, nat>) {
    cfg.ports == 0 || forall slot :: slot in busy ==> busy[slot] < cfg.ports
  }

  /** With any partition fully occupied, two loads from it take three cycles instead of two. */
  lemma OccupiedSlotCostsACycle(cfg: Config, busy: map<Slot, nat>, loads: map<Slot, nat>,
                                stores: map<Slot, nat>, slot: Slot)
    requires cfg.ports != 0 && slot in busy && busy[slot] >= cfg.ports
    ensures Acyclic(TwoLoads(slot)) && !WithinBound(TwoLoads(slot), cfg, busy, loads, stores)
  {
    TwoLoadsShape(slot);
    TwoLoadsReady(slot, busy, loads, stores);
    ThreeCycles(cfg, slot, Prepare(TwoLoads(slot), busy, loads, stores));
  }

  lemma TwoLoadsReady(slot: Slot, busy: map<Slot, nat>, loads: map<Slot, nat>, stores: map<Slot, nat>)
    requires Acyclic(TwoLoads(slot)) && Roots(TwoLoads(slot), 2) == [0] && Parents(TwoLoads(slot), 0) == {}
    requires Parents(TwoLoads(slot), 1) == {0}
    ensures var s := Prepare(TwoLoads(slot), busy, loads, stores);
      && Structure(TwoLoads(slot), s, {}) && Timing(TwoLoads(slot), s, 0)
      && s.executing == [0] && s.ready == [] && s.executed == 0 && s.inflight == map[] && s.numParents == [0, 1]
  {
    PreparedState(TwoLoads(slot), busy, loads, stores);
    TwoLoadsCounts(slot);
  }

  lemma TwoLoadsCounts(slot: Slot)
    requires Parents(TwoLoads(slot), 0) == {} && Parents(TwoLoads(slot), 1) == {0}
    ensures ParentCounts(TwoLoads(slot)) == [0, 1]
  {
    var counts := ParentCounts(TwoLoads(slot));
    assert |counts| == 2 && counts[0] == 0 && counts[1] == 1;
  }

  lemma ThreeCycles(cfg: Config, slot: Slot, s: State)
    requires Structure(TwoLoads(slot), s, {}) && Timing(TwoLoads(slot), s, 0) && Acyclic(TwoLoads(slot))
    requires s.executing == [0] && s.ready == [] && s.executed == 0 && s.inflight == map[] && s.numParents == [0, 1]
    requires !CanService(cfg, s, slot) && |Total(TwoLoads(slot))| == 2
    ensures Run(TwoLoads(slot), cfg, s).cycle >= s.cycle + 3
  {
    var g := TwoLoads(slot);
    FirstCycleLost(cfg, slot, s);
    RunStep(g, cfg, s);
    StepTiming(g, cfg, s);
    TwoMoreCycles(cfg, slot, Step(g, cfg, s));
  }

  /** The bound for free ports holds of all graphs if and only if no partition was left fully occupied. */
  lemma BoundHoldsIff(cfg: Config, busy: map<Slot, nat>, loads: map<Slot, nat>, stores: map<Slot, nat>)
    ensures (forall g: Graph :: Acyclic(g) ==> WithinBound(g, cfg, busy, loads, stores)) <==> NoneOccupied(cfg, busy)
  {
    if NoneOccupied(cfg, busy) {
      forall g: Graph | Acyclic(g) ensures WithinBound(g, cfg, busy, loads, stores) {
        PreparedState(g, busy, loads, stores);
        EveryRunCompletes(g, cfg, Prepare(g, busy, loads, stores));
      }
    } else {
      var slot :| slot in busy && busy[slot] >= cfg.ports;
      OccupiedSlotCostsACycle(cfg, busy, loads, stores, slot);
    }
  }
}
