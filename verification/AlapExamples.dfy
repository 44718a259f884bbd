/** Two graphs from schedule to rescheduled schedule: one whose addition loses a cycle of its latency, and one
    whose schedule becomes longer. */
module AlapExamples {
  import opened ExecNodes
  import opened DependenceGraph
  import opened Scheduler
  import opened SchedulerStructure
  import opened SchedulerTiming
  import opened SchedulerLiveness
  import opened SchedulerBegin
  import opened SchedulerGreedy
  import opened SchedulerLength
  import opened Alap
  import opened AlapCorrect
  import opened AlapLatency

  /** The schedule of a run from any leftover ports. */
  ghost function FirstSchedule(g: Graph, cfg: Config, busy: map<Slot, nat>): Before
    requires Acyclic(g)
  {
    PreparedState(g, busy, map[], map[]);
    var r := Run(g, cfg, Prepare(g, busy, map[], map[]));
    Before(r.start, r.complete, r.cycle)
  }

  lemma FirstScheduleIsValid(g: Graph, cfg: Config, busy: map<Slot, nat>)
    requires Acyclic(g) && cfg.cycleTime > 0
    ensures Valid(g, cfg, FirstSchedule(g, cfg, busy)) && FirstSchedule(g, cfg, busy).cycles > 0
  {
    PreparedState(g, busy, map[], map[]);
    RunIsFirstPass(g, cfg, Prepare(g, busy, map[], map[]));
  }

  /** Node `v` starts where the rule of the first pass puts it. */
  ghost predicate StartsByRule(g: Graph, cfg: Config, b: Before, v: nat)
    requires Acyclic(g) && AllComplete(g, b.complete) && |b.start| == |g.nodes| && v < |g.nodes|
  {
    && (Parents(g, v) == {} ==> b.start[v] == 0)
    && (Parents(g, v) != {} ==> exists u: nat, k: nat :: StartsByEdge(g, cfg, b.start, b.complete, u, k, v))
  }

  /** What determines the schedule of a graph without scratchpad accesses, all of it connected. */
  ghost predicate ByRule(g: Graph, cfg: Config, b: Before) {
    && Acyclic(g) && Valid(g, cfg, b) && AllComplete(g, b.complete)
    && (forall v: nat :: v < |g.nodes| ==> StartsByRule(g, cfg, b, v))
    && (exists v :: 0 <= v < |g.nodes| && b.cycles == b.complete[v] + 1)
  }

  lemma FirstScheduleByRule(g: Graph, cfg: Config, busy: map<Slot, nat>)
    requires Acyclic(g) && cfg.cycleTime > 0 && |g.nodes| > 0
    requires forall v :: 0 <= v < |g.nodes| ==> Connected(g, v) && !g.nodes[v].InSpad()
    ensures ByRule(g, cfg, FirstSchedule(g, cfg, busy))
  {
    var b := FirstSchedule(g, cfg, busy);
    FirstScheduleIsValid(g, cfg, busy);
    forall v: nat | v < |g.nodes| ensures AllComplete(g, b.complete) && StartsByRule(g, cfg, b, v) {
      StartsAsEarlyAsPossible(g, cfg, busy, map[], map[], v);
    }
    PreparedState(g, busy, map[], map[]);
    assert 0 in Total(g);
    var v := LengthIsLastCompletion(g, cfg, Prepare(g, busy, map[], map[]));
  }

  lemma LastParentIsParent(g: Graph, complete: seq<int>, u: nat, k: nat, v: nat)
    requires |complete| == |g.nodes| && LastParent(g, complete, u, k, v)
    ensures u in Parents(g, v)
  {
    assert g.out[u][k] in g.out[u] && HasEdge(g, u, v);
  }

  /** The rule for a node with a single parent. */
  lemma OnlyParent(g: Graph, cfg: Config, b: Before, v: nat) returns (k: nat, begin: nat)
    requires ByRule(g, cfg, b) && v < |g.nodes| && !g.nodes[v].InSpad() && Parents(g, v) == {0} && b.complete[0] == 0
    ensures k < |g.out[0]|
    ensures b.start[v] == if Admit(g.nodes[0], g.nodes[v], g.out[0][k].parid, cfg, begin, 0, 0).Deferred? then 1 else 0
  {
    assert StartsByRule(g, cfg, b, v);
    var u: nat;
    u, k :| StartsByEdge(g, cfg, b.start, b.complete, u, k, v);
    LastParentIsParent(g, b.complete, u, k, v);
    begin := EarliestBegin(g, cfg, b.complete, v);
  }

  // ----- a latency lost

  /** An addition that feeds a division and a floating-point addition. */
  function AddFeedsTwo(place: Placement): Graph {
    Digraph([Node(Add, false, place), Node(FDiv, false, place), Node(FAdd, false, place)],
            [[Edge(1, 1), Edge(2, 1)], [], []])
  }

  lemma ItsEdges(place: Placement, u: nat, v: nat)
    ensures HasEdge(AddFeedsTwo(place), u, v) <==> u == 0 && (v == 1 || v == 2)
  {
    var g := AddFeedsTwo(place);
    assert g.out[0] == [Edge(1, 1), Edge(2, 1)];
    assert g.out[0][0] in g.out[0] && g.out[0][1] in g.out[0];
  }

  /** What the results below use of it. */
  ghost predicate IsFork(g: Graph) {
    && |g.nodes| == 3 && Acyclic(g) && Parents(g, 0) == {} && Parents(g, 1) == Parents(g, 2) == {0}
    && g.nodes[0].op == Add && g.nodes[1].op == FDiv && g.nodes[2].op == FAdd
    && |g.out[0]| == 2 && g.out[0][0].parid == g.out[0][1].parid == 1 && g.out[2] == []
    && Connected(g, 0) && Connected(g, 1) && Connected(g, 2)
  }

  lemma ItsFork(place: Placement)
    ensures IsFork(AddFeedsTwo(place))
  {
    var g := AddFeedsTwo(place);
    forall u: nat, v: nat ensures HasEdge(g, u, v) <==> u == 0 && (v == 1 || v == 2) { ItsEdges(place, u, v); }
    ForwardEdgesAcyclic(g);
    assert 0 in Parents(g, 1) && 0 in Parents(g, 2);
  }

  lemma ForkStarts(g: Graph, cfg: Config, b: Before, v: nat)
    requires IsFork(g) && cfg.cycleTime == NS && ByRule(g, cfg, b) && (v == 1 || v == 2)
    ensures b.start[0] == b.complete[0] == 0 && b.start[v] == 1
  {
    assert StartsByRule(g, cfg, b, 0);
    assert b.complete[0] == 0;
    var k, begin := OnlyParent(g, cfg, b, v);
  }

  /** At 1 ns the division takes cycles 1 to 17 and the floating-point addition cycles 1 to 6. */
  lemma ForkSchedule(g: Graph, cfg: Config, b: Before)
    requires IsFork(g) && cfg.cycleTime == NS && ByRule(g, cfg, b)
    ensures b == Before([0, 1, 1], [0, 17, 6], 18)
  {
    ForkStarts(g, cfg, b, 1);
    ForkStarts(g, cfg, b, 2);
    assert b.complete[1] == 17 && b.complete[2] == 6 && b.complete[1] < b.cycles;
    assert b.start == [0, 1, 1] && b.complete == [0, 17, 6];
  }

  /** Scheduled and rescheduled, in whatever order, the floating-point addition takes 4 cycles instead of 5. */
  lemma MovedAdditionLosesACycle(g: Graph, cfg: Config, busy: map<Slot, nat>, place: Placement, topo: seq<nat>)
    requires g == AddFeedsTwo(place) && cfg.cycleTime == NS && SinksFirst(g, topo)
    ensures Acyclic(g)
    ensures var b := FirstSchedule(g, cfg, busy);
      && |b.start| == |b.complete| == |g.nodes| == 3 && b.complete[2] - b.start[2] == 5
      && var a := Reschedule(g, cfg, b.start, b.complete, b.cycles, topo); a.complete[2] - a.start[2] == 4
  {
    ItsFork(place);
    ForkByRule(g, cfg, busy);
    ForkSchedule(g, cfg, FirstSchedule(g, cfg, busy));
    ForkMoves(g, cfg, FirstSchedule(g, cfg, busy), topo);
  }

  lemma ForkByRule(g: Graph, cfg: Config, busy: map<Slot, nat>)
    requires IsFork(g) && cfg.cycleTime == NS
    ensures ByRule(g, cfg, FirstSchedule(g, cfg, busy))
  {
    FirstScheduleByRule(g, cfg, busy);
  }

  lemma ForkMoves(g: Graph, cfg: Config, b: Before, topo: seq<nat>)
    requires IsFork(g) && cfg.cycleTime == NS && SinksFirst(g, topo) && Valid(g, cfg, b)
    requires b.complete == [0, 17, 6] && b.cycles == 18
    ensures var a := Reschedule(g, cfg, b.start, b.complete, b.cycles, topo); a.complete[2] - a.start[2] == 4
  {
    assert Deadline(cfg, b.cycles) == 18;
    SinkLosesACycle(g, cfg, b, topo, 2);
  }

  // ----- a schedule made longer

  /** Two operations without latency. */
  function TwoMoves(place: Placement): Graph {
    Digraph([Node(Other, false, place), Node(Other, false, place)], [[Edge(1, 1)], []])
  }

  ghost predicate IsPair(g: Graph) {
    && |g.nodes| == 2 && Acyclic(g) && Parents(g, 0) == {} && Parents(g, 1) == {0}
    && g.nodes[0].op == g.nodes[1].op == Other && |g.out[0]| == 1 && g.out[0][0].parid == 1 && g.out[1] == []
    && Connected(g, 0) && Connected(g, 1)
  }

  lemma TwoMovesArePair(place: Placement)
    ensures IsPair(TwoMoves(place))
  {
    var g := TwoMoves(place);
    assert g.out[0] == [Edge(1, 1)] && g.out[0][0] in g.out[0];
    forall u: nat, v: nat | HasEdge(g, u, v) ensures u == 0 && v == 1 {}
    ForwardEdgesAcyclic(g);
    assert HasEdge(g, 0, 1) && 0 in Parents(g, 1);
  }

  /** Both complete in cycle 0. */
  lemma PairSchedule(g: Graph, cfg: Config, b: Before)
    requires IsPair(g) && cfg.cycleTime == 50 && ByRule(g, cfg, b)
    ensures b == Before([0, 0], [0, 0], 1)
  {
    assert StartsByRule(g, cfg, b, 0);
    assert b.complete[0] == 0;
    var k, begin := OnlyParent(g, cfg, b, 1);
    assert b.start == [0, 0] && b.complete == [0, 0];
  }

  /** At 0.5 ns, scheduled in one cycle and rescheduled, the second completes in the next. */
  lemma HalfNsOverruns(g: Graph, cfg: Config, busy: map<Slot, nat>, place: Placement, topo: seq<nat>)
    requires g == TwoMoves(place) && cfg.cycleTime == 50 && SinksFirst(g, topo)
    ensures Acyclic(g)
    ensures var b := FirstSchedule(g, cfg, busy);
      && b.cycles == 1 && |b.start| == |b.complete| == |g.nodes| == 2
      && Reschedule(g, cfg, b.start, b.complete, b.cycles, topo).complete[1] == 1
  {
    TwoMovesArePair(place);
    FirstScheduleByRule(g, cfg, busy);
    PairSchedule(g, cfg, FirstSchedule(g, cfg, busy));
    PairMoves(g, cfg, FirstSchedule(g, cfg, busy), topo);
  }

  lemma PairMoves(g: Graph, cfg: Config, b: Before, topo: seq<nat>)
    requires IsPair(g) && cfg.cycleTime == 50 && SinksFirst(g, topo) && Valid(g, cfg, b)
    requires b.complete == [0, 0] && b.cycles == 1
    ensures Reschedule(g, cfg, b.start, b.complete, b.cycles, topo).complete[1] == 1
  {
    var a := Reschedule(g, cfg, b.start, b.complete, b.cycles, topo);
    PassFinishes(g, cfg, b, topo);
    NodeOf(g, cfg, a, b, 1);
    HalfNsRoundsUp(cfg);
  }

  lemma HalfNsRoundsUp(cfg: Config)
    requires cfg.cycleTime == 50
    ensures Deadline(cfg, 1) == 1 && LastCycle(cfg, 1) == 1
  {
  }
}
