/** What the pass does to latencies: a moved multi-cycle node no longer takes its full latency. */
module AlapLatency {
  import opened Collections
  import opened ExecNodes
  import opened DependenceGraph
  import opened Scheduler
  import opened SchedulerTiming
  import opened Alap
  import opened AlapCorrect
  import opened AlapDeadlines

  /** How long a node takes after the pass. */
  function DurationAfter(n: Node, moved: bool): int {
    if !moved then Duration(n) else if n.IsFp() then FpLatency(n.op) - 1 else 0
  }

  lemma DurationsAfter(g: Graph, cfg: Config, b: Before, topo: seq<nat>, v: nat)
    requires Valid(g, cfg, b) && SinksFirst(g, topo) && Acyclic(g) && v < |g.nodes| && Connected(g, v)
    ensures var a := Reschedule(g, cfg, b.start, b.complete, b.cycles, topo);
      Fits(g, a, b) && a.complete[v] - a.start[v] == DurationAfter(g.nodes[v], Moved(a, b, v))
  {
    var a := Reschedule(g, cfg, b.start, b.complete, b.cycles, topo);
    PassFinishes(g, cfg, b, topo);
    NodeOf(g, cfg, a, b, v);
  }

  /** A connected node keeps its latency if and only if it is not a multi-cycle node whose deadline leaves room
      for a later cycle. The deadline is a function of the graph and the schedule before the pass. */
  lemma LatencyKeptIff(g: Graph, cfg: Config, b: Before, topo: seq<nat>, v: nat)
    requires Valid(g, cfg, b) && SinksFirst(g, topo) && Acyclic(g) && v < |g.nodes| && Connected(g, v)
    ensures var a := Reschedule(g, cfg, b.start, b.complete, b.cycles, topo);
      Fits(g, a, b) && (a.complete[v] - a.start[v] == Duration(g.nodes[v]) <==>
        !(g.nodes[v].IsMulticycle() && b.complete[v] < LastCycle(cfg, DeadlineOf(g, cfg, b, v))))
  {
    DurationsAfter(g, cfg, b, topo, v);
    PassDetermined(g, cfg, b, topo, v);
  }

  /** A sink that may move does so exactly when it completed before the last cycle of the schedule, the end
      rounded up to whole nanoseconds: this is known before the pass. */
  lemma SinkMovesIff(g: Graph, cfg: Config, b: Before, topo: seq<nat>, v: nat)
    requires Valid(g, cfg, b) && SinksFirst(g, topo) && Acyclic(g) && v < |g.nodes| && MovableSink(g, v)
    ensures var a := Reschedule(g, cfg, b.start, b.complete, b.cycles, topo);
      Fits(g, a, b) && (Moved(a, b, v) <==> b.complete[v] < LastCycle(cfg, Deadline(cfg, b.cycles)))
  {
    var a := Reschedule(g, cfg, b.start, b.complete, b.cycles, topo);
    PassFinishes(g, cfg, b, topo);
    NodeOf(g, cfg, a, b, v);
  }

  /** So a multi-cycle sink keeps its latency exactly when it completed no earlier than that cycle. */
  lemma SinkKeepsLatencyIff(g: Graph, cfg: Config, b: Before, topo: seq<nat>, v: nat)
    requires Valid(g, cfg, b) && SinksFirst(g, topo) && Acyclic(g) && v < |g.nodes| && g.out[v] == [] && Connected(g, v)
    requires g.nodes[v].IsMulticycle()
    ensures var a := Reschedule(g, cfg, b.start, b.complete, b.cycles, topo);
      Fits(g, a, b) && (a.complete[v] - a.start[v] == Duration(g.nodes[v]) <==>
                          b.complete[v] >= LastCycle(cfg, Deadline(cfg, b.cycles)))
  {
    DurationsAfter(g, cfg, b, topo, v);
    SinkMovesIff(g, cfg, b, topo, v);
  }

  /** Any floating-point sink that completes too early does. */
  lemma SinkLosesACycle(g: Graph, cfg: Config, b: Before, topo: seq<nat>, v: nat)
    requires Valid(g, cfg, b) && SinksFirst(g, topo) && Acyclic(g) && v < |g.nodes| && MovableSink(g, v)
    requires g.nodes[v].IsFp()
    requires b.complete[v] < LastCycle(cfg, Deadline(cfg, b.cycles))
    ensures var a := Reschedule(g, cfg, b.start, b.complete, b.cycles, topo);
      Fits(g, a, b) && a.complete[v] - a.start[v] == Duration(g.nodes[v]) - 1
  {
    SinkMovesIff(g, cfg, b, topo, v);
    DurationsAfter(g, cfg, b, topo, v);
  }
}
