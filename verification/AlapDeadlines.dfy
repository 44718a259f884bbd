/** The result of the pass as a function of the graph and the schedule before it: every sinks-first order
    gives the same deadlines and cycles. */
module AlapDeadlines {
  import opened ExecNodes
  import opened DependenceGraph
  import opened Scheduler
  import opened SchedulerTiming
  import opened Alap
  import opened AlapCorrect

  // ----- what a deadline means for a node

  /** The deadline leaves room for a later cycle. */
  predicate HasRoom(g: Graph, cfg: Config, b: Before, v: nat, deadline: int)
    requires |b.complete| == |g.nodes| && v < |g.nodes| && cfg.cycleTime > 0
  {
    Connected(g, v) && g.nodes[v].op !in {Load, Store, Br, Switch, Call} && LastCycle(cfg, deadline) > b.complete[v]
  }

  function CompleteBy(g: Graph, cfg: Config, b: Before, v: nat, deadline: int): int
    requires |b.complete| == |g.nodes| && v < |g.nodes| && cfg.cycleTime > 0
  {
    if HasRoom(g, cfg, b, v, deadline) then LastCycle(cfg, deadline) else b.complete[v]
  }

  function StartBy(g: Graph, cfg: Config, b: Before, v: nat, deadline: int): int
    requires |b.start| == |b.complete| == |g.nodes| && v < |g.nodes| && cfg.cycleTime > 0
  {
    if !HasRoom(g, cfg, b, v, deadline) then b.start[v]
    else if g.nodes[v].IsFp() then LastCycle(cfg, deadline) - FpLatency(g.nodes[v].op) + 1
    else LastCycle(cfg, deadline)
  }

  /** The time by which the parents must have finished. */
  function BeginBy(g: Graph, cfg: Config, b: Before, v: nat, deadline: int): int
    requires |b.start| == |b.complete| == |g.nodes| && v < |g.nodes| && cfg.cycleTime > 0
  {
    if HasRoom(g, cfg, b, v, deadline) && !g.nodes[v].IsFp() then
      TruncNs(deadline * NS - FuLatency(g.nodes[v].op, cfg.cycleTime))
    else TruncNs(Cycle(StartBy(g, cfg, b, v, deadline)) * cfg.cycleTime)
  }

  // ----- deadlines

  /** The least of the schedule's end and the begin times of the children. */
  ghost function DeadlineOf(g: Graph, cfg: Config, b: Before, v: nat): int
    requires Valid(g, cfg, b) && Acyclic(g) && v < |g.nodes|
    decreases Descendants(g, v), |g.out[v]| + 2
  {
    DeadlineFrom(g, cfg, b, v, |g.out[v]|)
  }

  /** Over the first `k` children. */
  ghost function DeadlineFrom(g: Graph, cfg: Config, b: Before, v: nat, k: nat): int
    requires Valid(g, cfg, b) && Acyclic(g) && v < |g.nodes| && k <= |g.out[v]|
    decreases Descendants(g, v), k + 1
  {
    if k == 0 then Deadline(cfg, b.cycles)
    else Lesser(ChildBegin(g, cfg, b, v, k - 1), DeadlineFrom(g, cfg, b, v, k - 1))
  }

  /** When child `j` of `v` begins by its own deadline. */
  ghost function ChildBegin(g: Graph, cfg: Config, b: Before, v: nat, j: nat): int
    requires Valid(g, cfg, b) && Acyclic(g) && v < |g.nodes| && j < |g.out[v]|
    decreases Descendants(g, v), 0
  {
    var w := g.out[v][j].dst;
    EdgeAt(g, v, j);
    ChildHasFewer(g, v, w);
    BeginBy(g, cfg, b, w, DeadlineOf(g, cfg, b, w))
  }

  function Lesser(x: int, y: int): int {
    if x < y then x else y
  }

  lemma EdgeAt(g: Graph, v: nat, k: nat)
    requires v < |g.nodes| && k < |g.out[v]|
    ensures HasEdge(g, v, g.out[v][k].dst) && g.out[v][k].dst < |g.nodes|
  {
    assert g.out[v][k] in g.out[v];
  }

  /** It is the least, and it is attained. */
  lemma {:induction false} DeadlineIsLeast(g: Graph, cfg: Config, b: Before, v: nat, k: nat, j: nat)
    requires Valid(g, cfg, b) && Acyclic(g) && v < |g.nodes| && j < k <= |g.out[v]|
    ensures DeadlineFrom(g, cfg, b, v, k) <= ChildBegin(g, cfg, b, v, j)
    decreases k
  {
    if j < k - 1 { DeadlineIsLeast(g, cfg, b, v, k - 1, j); }
  }

  lemma DeadlineNext(g: Graph, cfg: Config, b: Before, v: nat, k: nat, n: nat)
    requires Valid(g, cfg, b) && Acyclic(g) && v < |g.nodes| && k < |g.out[v]| && n == k + 1
    ensures DeadlineFrom(g, cfg, b, v, n) == Lesser(ChildBegin(g, cfg, b, v, k), DeadlineFrom(g, cfg, b, v, k))
  {
  }

  lemma {:induction false} DeadlineIsAttained(g: Graph, cfg: Config, b: Before, v: nat, k: nat) returns (j: int)
    requires Valid(g, cfg, b) && Acyclic(g) && v < |g.nodes| && k <= |g.out[v]|
    ensures DeadlineFrom(g, cfg, b, v, k) <= Deadline(cfg, b.cycles)
    ensures -1 <= j < k
    ensures DeadlineFrom(g, cfg, b, v, k) == if j == -1 then Deadline(cfg, b.cycles) else ChildBegin(g, cfg, b, v, j)
    decreases k
  {
    j := -1;
    if k > 0 {
      var i := k - 1;
      DeadlineNext(g, cfg, b, v, i, k);
      j := DeadlineIsAttained(g, cfg, b, v, i);
      if ChildBegin(g, cfg, b, v, i) < DeadlineFrom(g, cfg, b, v, i) { j := i; }
    }
  }

  // ----- the pass computes them

  /** What a finished pass says of one node, in terms of the deadline it gave it. */
  lemma PlacedByDeadline(g: Graph, cfg: Config, a: Schedule, b: Before, v: nat)
    requires Valid(g, cfg, b) && Finished(g, cfg, a, b) && v < |g.nodes|
    ensures Fits(g, a, b)
    ensures a.start[v] == StartBy(g, cfg, b, v, a.finish[v]) && a.complete[v] == CompleteBy(g, cfg, b, v, a.finish[v])
    ensures BeginOf(g, cfg, a, b, v) == BeginBy(g, cfg, b, v, a.finish[v])
    ensures Moved(a, b, v) <==> HasRoom(g, cfg, b, v, a.finish[v])
  {
    NodeOf(g, cfg, a, b, v);
  }

  lemma FinishAttained(g: Graph, cfg: Config, a: Schedule, b: Before, v: nat) returns (w: nat)
    requires Valid(g, cfg, b) && Finished(g, cfg, a, b) && v < |g.nodes|
    ensures Fits(g, a, b) && a.finish[v] <= Deadline(cfg, b.cycles)
    ensures a.finish[v] != Deadline(cfg, b.cycles) ==>
      w < |g.nodes| && HasEdge(g, v, w) && a.finish[v] == BeginOf(g, cfg, a, b, w)
  {
    var all: set<nat> :| Covers(g, all) && Progress(g, cfg, a, b, all);
    assert Attained(g, cfg, a, b, v, all);
    w := 0;
    if a.finish[v] != Deadline(cfg, b.cycles) {
      w :| w in all && w < |g.nodes| && HasEdge(g, v, w) && a.finish[v] == BeginOf(g, cfg, a, b, w);
    }
  }

  lemma EdgeIndex(g: Graph, v: nat, w: nat) returns (k: nat)
    requires HasEdge(g, v, w)
    ensures v < |g.nodes| && k < |g.out[v]| && g.out[v][k].dst == w
  {
    var e :| e in g.out[v] && e.dst == w;
    k :| 0 <= k < |g.out[v]| && g.out[v][k] == e;
  }

  /** Whatever order the pass went in, the deadline of every node is the one its children determine. */
  lemma {:induction false} DeadlinesDetermined(g: Graph, cfg: Config, a: Schedule, b: Before, v: nat)
    requires Valid(g, cfg, b) && Acyclic(g) && Finished(g, cfg, a, b) && v < |g.nodes|
    ensures Fits(g, a, b) && a.finish[v] == DeadlineOf(g, cfg, b, v)
    decreases Descendants(g, v)
  {
    var w := FinishAttained(g, cfg, a, b, v);
    if a.finish[v] != Deadline(cfg, b.cycles) {
      var k := EdgeIndex(g, v, w);
      ChildDetermined(g, cfg, a, b, v, k);
      DeadlineIsLeast(g, cfg, b, v, |g.out[v]|, k);
    }
    var j := DeadlineIsAttained(g, cfg, b, v, |g.out[v]|);
    if j != -1 {
      EdgeAt(g, v, j);
      ChildDetermined(g, cfg, a, b, v, j);
      NodeOf(g, cfg, a, b, g.out[v][j].dst);
    }
  }

  lemma {:induction false} ChildDetermined(g: Graph, cfg: Config, a: Schedule, b: Before, v: nat, j: nat)
    requires Valid(g, cfg, b) && Acyclic(g) && Finished(g, cfg, a, b) && v < |g.nodes| && j < |g.out[v]|
    ensures Fits(g, a, b) && g.out[v][j].dst < |g.nodes|
    ensures BeginOf(g, cfg, a, b, g.out[v][j].dst) == ChildBegin(g, cfg, b, v, j)
    decreases Descendants(g, v), 0
  {
    var w := g.out[v][j].dst;
    EdgeAt(g, v, j);
    ChildHasFewer(g, v, w);
    DeadlinesDetermined(g, cfg, a, b, w);
    PlacedByDeadline(g, cfg, a, b, w);
  }

  /** The cycles after the pass, from the graph and the schedule before it. */
  lemma PassDetermined(g: Graph, cfg: Config, b: Before, topo: seq<nat>, v: nat)
    requires Valid(g, cfg, b) && SinksFirst(g, topo) && Acyclic(g) && v < |g.nodes|
    ensures var a, d := Reschedule(g, cfg, b.start, b.complete, b.cycles, topo), DeadlineOf(g, cfg, b, v);
      && Fits(g, a, b) && a.finish[v] == d
      && a.start[v] == StartBy(g, cfg, b, v, d) && a.complete[v] == CompleteBy(g, cfg, b, v, d)
      && (Moved(a, b, v) <==> HasRoom(g, cfg, b, v, d))
  {
    var a := Reschedule(g, cfg, b.start, b.complete, b.cycles, topo);
    PassFinishes(g, cfg, b, topo);
    DeadlinesDetermined(g, cfg, a, b, v);
    PlacedByDeadline(g, cfg, a, b, v);
  }

  /** Any two sinks-first orders give the same schedule. */
  lemma OrderDoesNotMatter(g: Graph, cfg: Config, b: Before, topo: seq<nat>, other: seq<nat>)
    requires Valid(g, cfg, b) && SinksFirst(g, topo) && SinksFirst(g, other) && Acyclic(g)
    ensures Reschedule(g, cfg, b.start, b.complete, b.cycles, topo) ==
      Reschedule(g, cfg, b.start, b.complete, b.cycles, other)
  {
    var x := Reschedule(g, cfg, b.start, b.complete, b.cycles, topo);
    var y := Reschedule(g, cfg, b.start, b.complete, b.cycles, other);
    forall v: nat | v < |g.nodes|
      ensures x.start[v] == y.start[v] && x.complete[v] == y.complete[v] && x.finish[v] == y.finish[v]
    {
      PassDetermined(g, cfg, b, topo, v);
      PassDetermined(g, cfg, b, other, v);
    }
    assert x.start == y.start && x.complete == y.complete && x.finish == y.finish;
  }

  // ----- in whole nanoseconds

  /** `LastCycle` is the last cycle that ends by a deadline. */
  lemma LastCycleIs(cfg: Config, deadline: int, c: int)
    requires cfg.cycleTime > 0
    ensures c <= LastCycle(cfg, deadline) <==> (c + 1) * cfg.cycleTime <= deadline * 100
  {
    if (c + 1) * cfg.cycleTime <= deadline * 100 {
      DivAtLeast(deadline * NS, cfg.cycleTime, c + 1);
    } else {
      DivAtMost(deadline * NS, cfg.cycleTime, c);
    }
  }

  /** `Deadline` is the first whole nanosecond at which the schedule is over. */
  lemma DeadlineIs(cfg: Config, cycles: nat, t: int)
    ensures t <= Deadline(cfg, cycles) <==> (t - 1) * 100 < cycles * cfg.cycleTime
  {
  }

  lemma TruncIs(y: int, t: int)
    requires t >= 1
    ensures t <= TruncNs(y) <==> t * 100 <= y
  {
  }

  /** Being done at `t` leaves the child `w` where the pass has put it. */
  ghost predicate InTimeFor(g: Graph, cfg: Config, a: Schedule, b: Before, w: nat, t: int)
    requires Fits(g, a, b) && w < |g.nodes|
  {
    if a.complete[w] != b.complete[w] && g.nodes[w].op !in {FAdd, FSub, FMul, FDiv, FRem}
    then t * 100 + FuLatency(g.nodes[w].op, cfg.cycleTime) <= a.finish[w] * 100
    else t * 100 <= a.start[w] * cfg.cycleTime
  }

  lemma BeginIs(g: Graph, cfg: Config, a: Schedule, b: Before, w: nat, t: int)
    requires Valid(g, cfg, b) && Finished(g, cfg, a, b) && w < |g.nodes| && Connected(g, w) && t >= 1
    ensures Fits(g, a, b) && (t <= BeginOf(g, cfg, a, b, w) <==> InTimeFor(g, cfg, a, b, w, t))
  {
    NeverEarlier(g, cfg, a, b, w);
    TruncIs(a.finish[w] * NS - FuLatency(g.nodes[w].op, cfg.cycleTime), t);
    TruncIs(a.start[w] * cfg.cycleTime, t);
  }

  /** The finish time of a node is the last nanosecond that is in time for the end of the schedule and for every
      child. */
  lemma FinishIff(g: Graph, cfg: Config, a: Schedule, b: Before, v: nat, t: int)
    requires Valid(g, cfg, b) && Finished(g, cfg, a, b) && v < |g.nodes| && t >= 1
    ensures Fits(g, a, b)
    ensures t <= a.finish[v] <==>
      && (t - 1) * 100 < b.cycles * cfg.cycleTime
      && (forall w: nat :: HasEdge(g, v, w) ==> w < |g.nodes| && InTimeFor(g, cfg, a, b, w, t))
  {
    var x := FinishAttained(g, cfg, a, b, v);
    DeadlineIs(cfg, b.cycles, t);
    forall w: nat | HasEdge(g, v, w)
      ensures w < |g.nodes| && a.finish[v] <= BeginOf(g, cfg, a, b, w)
      ensures t <= BeginOf(g, cfg, a, b, w) <==> InTimeFor(g, cfg, a, b, w, t)
    {
      EdgeEndsConnected(g, v, w);
      NodeOf(g, cfg, a, b, w);
      BeginIs(g, cfg, a, b, w, t);
    }
  }

  /** The cycles a moved node takes before it completes: one less than the latency of a floating-point unit. */
  function StagesBefore(op: MicroOp): nat {
    match op
    case FDiv => 15
    case FMul => 3
    case FRem => 3
    case FAdd => 4
    case FSub => 4
    case _ => 0
  }

  /** A node that may move completes in the last cycle that ends by its finish time, if that is later than before. */
  lemma MovesIff(g: Graph, cfg: Config, a: Schedule, b: Before, v: nat, c: int)
    requires Valid(g, cfg, b) && Finished(g, cfg, a, b) && v < |g.nodes| && Connected(g, v) && b.complete[v] < c
    requires g.nodes[v].op !in {Load, Store, Br, Switch, Call}
    ensures Fits(g, a, b)
    ensures c <= a.complete[v] <==> (c + 1) * cfg.cycleTime <= a.finish[v] * 100
    ensures a.complete[v] == b.complete[v] ==> a.start[v] == b.start[v]
    ensures a.complete[v] != b.complete[v] ==> a.start[v] == a.complete[v] - StagesBefore(g.nodes[v].op)
  {
    NodeOf(g, cfg, a, b, v);
    LastCycleIs(cfg, a.finish[v], c);
  }
}
