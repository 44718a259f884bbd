/** The as-late-as-possible rescheduling pass. Deadlines are whole nanoseconds, as in the source,
    so every conversion from cycles truncates, rounds up or rounds down explicitly. */
module Alap {
  import opened ExecNodes
  import opened DependenceGraph
  import opened Scheduler
  import opened SchedulerTiming

  datatype Schedule = Schedule(start: seq<int>, complete: seq<int>, finish: seq<int>)

  /** Conversion of a time to an `int` number of nanoseconds: truncation toward zero. */
  function TruncNs(t: int): int {
    if t >= 0 then t / NS else -((-t) / NS)
  }

  function CeilNs(t: nat): nat {
    (t + NS - 1) / NS
  }

  /** The last cycle that ends by a deadline. */
  function LastCycle(cfg: Config, deadline: int): int
    requires cfg.cycleTime > 0
  {
    (deadline * NS) / cfg.cycleTime - 1
  }

  /** Unset cycles read as zero. */
  function Cycle(c: int): int {
    if c == -1 then 0 else c
  }

  predicate Movable(n: Node) {
    !n.IsMemory() && !n.IsBranch()
  }

  ghost predicate Sized(g: Graph, a: Schedule) {
    && |a.start| == |a.complete| == |a.finish| == |g.nodes|
  }

  predicate Moves(g: Graph, cfg: Config, a: Schedule, v: nat)
    requires Sized(g, a) && v < |g.nodes| && cfg.cycleTime > 0
  {
    Movable(g.nodes[v]) && LastCycle(cfg, a.finish[v]) > Cycle(a.complete[v])
  }

  /** Moves a node to the last cycle its deadline allows; FP units keep their pipeline depth. */
  function Place(g: Graph, cfg: Config, a: Schedule, v: nat): Schedule
    requires Sized(g, a) && v < |g.nodes| && cfg.cycleTime > 0
  {
    if !Moves(g, cfg, a, v) then a
    else
      var c := LastCycle(cfg, a.finish[v]);
      a.(complete := a.complete[v := c],
         start := a.start[v := if g.nodes[v].IsFp() then c - FpLatency(g.nodes[v].op) + 1 else c])
  }

  /** The time by which the parents of `v` must have finished; `a` holds the cycles after `Place`. */
  function BeginTime(g: Graph, cfg: Config, a: Schedule, v: nat, moved: bool): int
    requires Sized(g, a) && v < |g.nodes|
  {
    if moved && !g.nodes[v].IsFp() then TruncNs(a.finish[v] * NS - FuLatency(g.nodes[v].op, cfg.cycleTime))
    else TruncNs(Cycle(a.start[v]) * cfg.cycleTime)
  }

  function Lower(finish: seq<int>, who: set<nat>, deadline: int): (r: seq<int>)
    ensures |r| == |finish|
  {
    seq(|finish|, p requires 0 <= p < |finish| =>
      if p in who && finish[p] > deadline then deadline else finish[p])
  }

  function Relax(g: Graph, cfg: Config, a: Schedule, v: nat): (r: Schedule)
    requires Sized(g, a) && v < |g.nodes| && cfg.cycleTime > 0
    ensures Sized(g, r)
  {
    if !Connected(g, v) then a
    else
      var b := Place(g, cfg, a, v);
      b.(finish := Lower(b.finish, Parents(g, v), BeginTime(g, cfg, b, v, Moves(g, cfg, a, v))))
  }

  function RelaxFrom(g: Graph, cfg: Config, a: Schedule, topo: seq<nat>, k: nat): (r: Schedule)
    requires Sized(g, a) && cfg.cycleTime > 0 && k <= |topo|
    requires forall i :: 0 <= i < |topo| ==> topo[i] < |g.nodes|
    ensures Sized(g, r)
    decreases |topo| - k
  {
    if k == |topo| then a else RelaxFrom(g, cfg, Relax(g, cfg, a, topo[k]), topo, k + 1)
  }

  /** Sinks first: what the topological sort of the graph library yields. */
  ghost predicate SinksFirst(g: Graph, topo: seq<nat>) {
    && (forall i :: 0 <= i < |topo| ==> topo[i] < |g.nodes|)
    && (forall i, j :: 0 <= i < j < |topo| ==> topo[i] != topo[j] && !HasEdge(g, topo[i], topo[j]))
    && (forall v :: 0 <= v < |g.nodes| ==> v in topo)
  }

  function Deadline(cfg: Config, cycles: nat): nat {
    CeilNs(cycles * cfg.cycleTime)
  }

  function Deadlines(n: nat, cfg: Config, cycles: nat): (r: seq<int>)
    ensures |r| == n && forall v :: 0 <= v < n ==> r[v] == Deadline(cfg, cycles)
  {
    seq(n, _ => Deadline(cfg, cycles))
  }

  /** The whole pass over a schedule of `cycles` cycles. */
  function Reschedule(g: Graph, cfg: Config, start: seq<int>, complete: seq<int>, cycles: nat,
                      topo: seq<nat>): (r: Schedule)
    requires |start| == |complete| == |g.nodes| && cfg.cycleTime > 0
    requires forall i :: 0 <= i < |topo| ==> topo[i] < |g.nodes|
    ensures Sized(g, r)
  {
    RelaxFrom(g, cfg, Schedule(start, complete, Deadlines(|g.nodes|, cfg, cycles)), topo, 0)
  }

  /** What the first pass establishes of its schedule. */
  ghost predicate FirstPass(g: Graph, start: seq<int>, complete: seq<int>, cycles: nat) {
    && |start| == |complete| == |g.nodes|
    && (forall v :: 0 <= v < |g.nodes| && Connected(g, v) ==>
          0 <= start[v] && complete[v] == start[v] + Duration(g.nodes[v]) && complete[v] < cycles)
    && (forall v :: 0 <= v < |g.nodes| && !Connected(g, v) ==> start[v] == -1 && complete[v] == -1)
    && (forall u, v :: 0 <= u < |g.nodes| && 0 <= v < |g.nodes| && HasEdge(g, u, v) ==> complete[u] <= start[v])
  }

  // ----- arithmetic of deadlines

  lemma DivBounds(a: int, d: int)
    requires d > 0
    ensures (a / d) * d <= a < (a / d) * d + d
  {
  }

  lemma DivAtMost(a: int, d: int, q: int)
    requires d > 0 && a < (q + 1) * d
    ensures a / d <= q
  {
    DivBounds(a, d);
    if a / d > q { MulMono(q + 1, a / d, d); }
  }

  lemma DivAtLeast(a: int, d: int, q: int)
    requires d > 0 && q * d <= a
    ensures a / d >= q
  {
    DivBounds(a, d);
    if a / d < q { MulMono(a / d + 1, q, d); }
  }

  lemma MulMono(a: int, b: int, d: int)
    requires a <= b && d >= 0
    ensures a * d <= b * d
  {
  }

  lemma LastCycleMono(cfg: Config, a: int, b: int)
    requires cfg.cycleTime > 0 && a <= b
    ensures LastCycle(cfg, a) <= LastCycle(cfg, b)
  {
    DivBounds(b * NS, cfg.cycleTime);
    DivAtMost(a * NS, cfg.cycleTime, (b * NS) / cfg.cycleTime);
  }

  /** A deadline taken from a start cycle leaves the parent strictly before it. */
  lemma BeforeStart(cfg: Config, start: int)
    requires cfg.cycleTime > 0 && start >= 0
    ensures LastCycle(cfg, TruncNs(start * cfg.cycleTime)) < start
  {
    var t := start * cfg.cycleTime;
    MulMono(0, start, cfg.cycleTime);
    DivAtMost(TruncNs(t) * NS, cfg.cycleTime, start);
  }
}
