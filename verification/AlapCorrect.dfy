/** What the ALAP pass guarantees: precedence, monotonicity, fixed memory and branch nodes,
    deadlines met exactly, chains that fit the clock, and when the schedule length is kept. */
module AlapCorrect {
  import opened Collections
  import opened ExecNodes
  import opened DependenceGraph
  import opened Scheduler
  import opened SchedulerStructure
  import opened SchedulerRun
  import opened SchedulerTiming
  import opened SchedulerLiveness
  import opened SchedulerPorts
  import opened Alap

  /** The schedule before the pass and its length. */
  datatype Before = Before(start: seq<int>, complete: seq<int>, cycles: nat)

  ghost predicate Valid(g: Graph, cfg: Config, b: Before) {
    FirstPass(g, b.start, b.complete, b.cycles) && cfg.cycleTime > 0
  }

  ghost predicate Fits(g: Graph, a: Schedule, b: Before) {
    && Sized(g, a) && |b.start| == |b.complete| == |g.nodes|
  }

  predicate Moved(a: Schedule, b: Before, v: nat)
    requires v < |a.complete| && v < |b.complete|
  {
    a.complete[v] != b.complete[v]
  }

  function BeginOf(g: Graph, cfg: Config, a: Schedule, b: Before, v: nat): int
    requires Fits(g, a, b) && v < |g.nodes|
  {
    BeginTime(g, cfg, a, v, Moved(a, b, v))
  }

  /** A processed node sits in the last cycle its deadline allows, or where it was. */
  ghost predicate Placed(g: Graph, cfg: Config, a: Schedule, b: Before, v: nat)
    requires Fits(g, a, b) && v < |g.nodes| && cfg.cycleTime > 0
  {
    if Moved(a, b, v) then
      && Connected(g, v) && Movable(g.nodes[v])
      && a.complete[v] == LastCycle(cfg, a.finish[v]) > b.complete[v]
      && a.start[v] == (if g.nodes[v].IsFp() then a.complete[v] - FpLatency(g.nodes[v].op) + 1 else a.complete[v])
    else
      && a.start[v] == b.start[v]
      && (Connected(g, v) && Movable(g.nodes[v]) ==> LastCycle(cfg, a.finish[v]) <= b.complete[v])
  }

  ghost predicate Bounds(g: Graph, cfg: Config, a: Schedule, b: Before, u: nat, v: nat)
    requires Fits(g, a, b) && u < |g.nodes| && v < |g.nodes|
  {
    a.finish[u] <= BeginOf(g, cfg, a, b, v)
  }

  /** The deadline of `u` is the end of the schedule or the begin time of one of its children. */
  ghost predicate Attained(g: Graph, cfg: Config, a: Schedule, b: Before, u: nat, settled: set<nat>)
    requires Fits(g, a, b) && u < |g.nodes|
  {
    && a.finish[u] <= Deadline(cfg, b.cycles)
    && (a.finish[u] == Deadline(cfg, b.cycles) ||
        exists w :: w in settled && w < |g.nodes| && HasEdge(g, u, w) && a.finish[u] == BeginOf(g, cfg, a, b, w))
  }

  ghost predicate Progress(g: Graph, cfg: Config, a: Schedule, b: Before, settled: set<nat>) {
    && Fits(g, a, b) && cfg.cycleTime > 0
    && (forall v :: 0 <= v < |g.nodes| && v in settled ==> Placed(g, cfg, a, b, v))
    && (forall v :: 0 <= v < |g.nodes| && v !in settled ==> a.start[v] == b.start[v] && a.complete[v] == b.complete[v])
    && (forall u, v :: 0 <= u < |g.nodes| && 0 <= v < |g.nodes| && v in settled && HasEdge(g, u, v) ==>
          Bounds(g, cfg, a, b, u, v))
    && (forall u :: 0 <= u < |g.nodes| ==> Attained(g, cfg, a, b, u, settled))
  }

  lemma RelaxPlaces(g: Graph, cfg: Config, a: Schedule, b: Before, v: nat)
    requires Valid(g, cfg, b) && Fits(g, a, b) && v < |g.nodes| && !HasEdge(g, v, v)
    requires a.start[v] == b.start[v] && a.complete[v] == b.complete[v]
    ensures Placed(g, cfg, Relax(g, cfg, a, v), b, v)
    ensures Connected(g, v) ==> (Moves(g, cfg, a, v) <==> Moved(Relax(g, cfg, a, v), b, v))
    ensures Relax(g, cfg, a, v).finish[v] == a.finish[v]
  {
  }

  /** Relaxing `v` leaves the cycles and begin times of the other nodes alone. */
  lemma RelaxFrame(g: Graph, cfg: Config, a: Schedule, b: Before, v: nat, w: nat)
    requires Valid(g, cfg, b) && Fits(g, a, b) && v < |g.nodes| && w < |g.nodes| && v != w
    ensures var r := Relax(g, cfg, a, v);
            && r.start[w] == a.start[w] && r.complete[w] == a.complete[w]
            && r.finish[w] <= a.finish[w]
            && (!HasEdge(g, w, v) ==>
                  r.finish[w] == a.finish[w] && BeginOf(g, cfg, r, b, w) == BeginOf(g, cfg, a, b, w))
  {
  }

  lemma RelaxLowers(g: Graph, cfg: Config, a: Schedule, b: Before, v: nat, u: nat)
    requires Valid(g, cfg, b) && Fits(g, a, b) && v < |g.nodes| && u < |g.nodes| && u != v && HasEdge(g, u, v)
    requires a.start[v] == b.start[v] && a.complete[v] == b.complete[v] && !HasEdge(g, v, v)
    ensures var r := Relax(g, cfg, a, v);
            && r.finish[u] <= BeginOf(g, cfg, r, b, v)
            && (r.finish[u] == a.finish[u] || r.finish[u] == BeginOf(g, cfg, r, b, v))
  {
    EdgeEndsConnected(g, u, v);
    RelaxPlaces(g, cfg, a, b, v);
  }

  lemma RelaxProgress(g: Graph, cfg: Config, a: Schedule, b: Before, v: nat, settled: set<nat>)
    requires Valid(g, cfg, b) && Progress(g, cfg, a, b, settled) && v < |g.nodes| && v !in settled
    requires !HasEdge(g, v, v) && forall w :: w in settled ==> !HasEdge(g, w, v)
    ensures Progress(g, cfg, Relax(g, cfg, a, v), b, settled + {v})
  {
    var r := Relax(g, cfg, a, v);
    var now := settled + {v};
    RelaxPlaces(g, cfg, a, b, v);
    forall w | 0 <= w < |g.nodes| && w in now ensures Placed(g, cfg, r, b, w) {
      if w != v {
        assert Placed(g, cfg, a, b, w);
        RelaxFrame(g, cfg, a, b, v, w);
      }
    }
    forall w | 0 <= w < |g.nodes| && w !in now ensures r.start[w] == b.start[w] && r.complete[w] == b.complete[w] {
      RelaxFrame(g, cfg, a, b, v, w);
    }
    forall u, w | 0 <= u < |g.nodes| && 0 <= w < |g.nodes| && w in now && HasEdge(g, u, w)
      ensures Bounds(g, cfg, r, b, u, w)
    {
      if w == v {
        RelaxLowers(g, cfg, a, b, v, u);
      } else {
        assert Bounds(g, cfg, a, b, u, w);
        RelaxFrame(g, cfg, a, b, v, w);
        if u != v { RelaxFrame(g, cfg, a, b, v, u); }
      }
    }
    forall u | 0 <= u < |g.nodes| ensures Attained(g, cfg, r, b, u, now) {
      RelaxAttained(g, cfg, a, b, v, settled, u);
    }
  }

  lemma RelaxAttained(g: Graph, cfg: Config, a: Schedule, b: Before, v: nat, settled: set<nat>, u: nat)
    requires Valid(g, cfg, b) && Progress(g, cfg, a, b, settled) && v < |g.nodes| && v !in settled && u < |g.nodes|
    requires !HasEdge(g, v, v) && forall w :: w in settled ==> !HasEdge(g, w, v)
    ensures Attained(g, cfg, Relax(g, cfg, a, v), b, u, settled + {v})
  {
    var r := Relax(g, cfg, a, v);
    assert Attained(g, cfg, a, b, u, settled);
    RelaxPlaces(g, cfg, a, b, v);
    if u != v {
      RelaxFrame(g, cfg, a, b, v, u);
      if HasEdge(g, u, v) { RelaxLowers(g, cfg, a, b, v, u); }
    }
    if r.finish[u] == a.finish[u] && a.finish[u] != Deadline(cfg, b.cycles) {
      var w :| w in settled && w < |g.nodes| && HasEdge(g, u, w) && a.finish[u] == BeginOf(g, cfg, a, b, w);
      RelaxFrame(g, cfg, a, b, v, w);
      assert w in settled + {v} && r.finish[u] == BeginOf(g, cfg, r, b, w);
    } else if r.finish[u] != a.finish[u] {
      assert v in settled + {v} && HasEdge(g, u, v);
    }
  }

  lemma NextSettled(g: Graph, topo: seq<nat>, k: nat)
    requires SinksFirst(g, topo) && Acyclic(g) && k < |topo|
    ensures Elements(topo[..k + 1]) == Elements(topo[..k]) + {topo[k]}
    ensures topo[k] !in Elements(topo[..k]) && !HasEdge(g, topo[k], topo[k])
    ensures forall w :: w in Elements(topo[..k]) ==> !HasEdge(g, w, topo[k])
  {
    assert topo[..k + 1] == topo[..k] + [topo[k]];
    NoSelfLoop(g, topo[k]);
  }

  lemma NoSelfLoop(g: Graph, v: nat)
    requires Acyclic(g)
    ensures !HasEdge(g, v, v)
  {
    if HasEdge(g, v, v) { assert IsPath(g, [v, v]); }
  }

  lemma {:induction false} RelaxAll(g: Graph, cfg: Config, a: Schedule, b: Before, topo: seq<nat>, k: nat)
    requires Valid(g, cfg, b) && SinksFirst(g, topo) && Acyclic(g) && k <= |topo|
    requires Progress(g, cfg, a, b, Elements(topo[..k]))
    ensures Progress(g, cfg, RelaxFrom(g, cfg, a, topo, k), b, Elements(topo))
    decreases |topo| - k
  {
    if k < |topo| {
      NextSettled(g, topo, k);
      RelaxProgress(g, cfg, a, b, topo[k], Elements(topo[..k]));
      var r := Relax(g, cfg, a, topo[k]);
      assert Progress(g, cfg, r, b, Elements(topo[..k + 1]));
      RelaxAll(g, cfg, r, b, topo, k + 1);
    } else {
      assert topo[..k] == topo;
    }
  }

  /** The complete description of the result: deadlines are the least of the schedule's end and the
      children's begin times, and every node sits where its deadline puts it. */
  lemma PassMeetsDeadlines(g: Graph, cfg: Config, b: Before, topo: seq<nat>)
    requires Valid(g, cfg, b) && SinksFirst(g, topo) && Acyclic(g)
    ensures Progress(g, cfg, Reschedule(g, cfg, b.start, b.complete, b.cycles, topo), b, Elements(topo))
  {
    var a := Schedule(b.start, b.complete, Deadlines(|g.nodes|, cfg, b.cycles));
    assert Elements(topo[..0]) == {};
    RelaxAll(g, cfg, a, b, topo, 0);
  }

  // ----- consequences, for any finished pass

  ghost predicate Covers(g: Graph, all: set<nat>) {
    forall w :: 0 <= w < |g.nodes| ==> w in all
  }

  ghost predicate Finished(g: Graph, cfg: Config, a: Schedule, b: Before) {
    exists all: set<nat> :: Covers(g, all) && Progress(g, cfg, a, b, all)
  }

  lemma NodeOf(g: Graph, cfg: Config, a: Schedule, b: Before, v: nat)
    requires Finished(g, cfg, a, b) && v < |g.nodes|
    ensures Fits(g, a, b) && cfg.cycleTime > 0 && Placed(g, cfg, a, b, v)
    ensures a.finish[v] <= Deadline(cfg, b.cycles)
    ensures g.out[v] == [] ==> a.finish[v] == Deadline(cfg, b.cycles)
    ensures forall u :: 0 <= u < |g.nodes| && HasEdge(g, u, v) ==> a.finish[u] <= BeginOf(g, cfg, a, b, v)
  {
    var all: set<nat> :| Covers(g, all) && Progress(g, cfg, a, b, all);
    assert Attained(g, cfg, a, b, v, all);
    forall u | 0 <= u < |g.nodes| && HasEdge(g, u, v) ensures a.finish[u] <= BeginOf(g, cfg, a, b, v) {
      assert Bounds(g, cfg, a, b, u, v);
    }
  }

  /** No node is moved earlier; memory and branch nodes are not moved at all. */
  lemma NeverEarlier(g: Graph, cfg: Config, a: Schedule, b: Before, v: nat)
    requires Valid(g, cfg, b) && Finished(g, cfg, a, b) && v < |g.nodes|
    ensures Fits(g, a, b) && a.start[v] >= b.start[v] && a.complete[v] >= b.complete[v] && a.start[v] <= a.complete[v]
    ensures g.nodes[v].op in {Load, Store, Br, Switch, Call} || !Connected(g, v) ==>
      a.start[v] == b.start[v] && a.complete[v] == b.complete[v]
  {
    NodeOf(g, cfg, a, b, v);
  }

  /** The deadline a child sets never lets a moved parent complete after the child starts. */
  lemma ParentBeforeChild(g: Graph, cfg: Config, a: Schedule, b: Before, u: nat, v: nat)
    requires Valid(g, cfg, b) && Finished(g, cfg, a, b) && HasEdge(g, u, v)
    ensures Fits(g, a, b) && u < |g.nodes| && v < |g.nodes| && a.complete[u] <= a.start[v]
  {
    EdgeEndsConnected(g, u, v);
    NodeOf(g, cfg, a, b, u);
    NodeOf(g, cfg, a, b, v);
    NeverEarlier(g, cfg, a, b, v);
    if Moved(a, b, u) {
      var begin := BeginOf(g, cfg, a, b, v);
      LastCycleMono(cfg, a.finish[u], begin);
      if Moved(a, b, v) && !g.nodes[v].IsFp() {
        PositiveDeadline(cfg, a.finish[u]);
        LastCycleMono(cfg, begin, a.finish[v]);
      } else {
        BeforeStart(cfg, a.start[v]);
      }
    }
  }

  lemma PositiveDeadline(cfg: Config, t: int)
    requires cfg.cycleTime > 0 && LastCycle(cfg, t) >= 0
    ensures t > 0
  {
    if t <= 0 { DivAtMost(t * NS, cfg.cycleTime, 0); }
  }

  // ----- chains of moved nodes

  function ChainTail(g: Graph, cfg: Config, p: seq<nat>): nat
    requires forall k :: 0 <= k < |p| ==> p[k] < |g.nodes|
  {
    if |p| <= 1 then 0 else ChainTail(g, cfg, p[..|p| - 1]) + FuLatency(g.nodes[p[|p| - 1]].op, cfg.cycleTime)
  }

  ghost predicate MovedChain(g: Graph, a: Schedule, b: Before, p: seq<nat>) {
    && IsPath(g, p) && Fits(g, a, b)
    && (forall k :: 0 <= k < |p| ==> p[k] < |g.nodes| && Moved(a, b, p[k]) && !g.nodes[p[k]].IsFp())
  }

  lemma {:induction false} ChainDeadline(g: Graph, cfg: Config, a: Schedule, b: Before, p: seq<nat>)
    requires Valid(g, cfg, b) && Finished(g, cfg, a, b) && MovedChain(g, a, b, p)
    ensures a.finish[p[0]] * NS + ChainTail(g, cfg, p) <= a.finish[p[|p| - 1]] * NS
    decreases |p|
  {
    if |p| > 1 {
      var q := p[..|p| - 1];
      var u, v := q[|q| - 1], p[|p| - 1];
      forall i | 0 <= i < |q| - 1 ensures HasEdge(g, q[i], q[i + 1]) { assert HasEdge(g, p[i], p[i + 1]); }
      ChainDeadline(g, cfg, a, b, q);
      assert HasEdge(g, p[|p| - 2], p[|p| - 2 + 1]);
      NodeOf(g, cfg, a, b, v);
      NodeOf(g, cfg, a, b, u);
      PositiveDeadline(cfg, a.finish[u]);
    }
  }

  /** Moved single-cycle nodes that share a cycle along a path fit the clock, the first apart. */
  lemma MovedChainFitsClock(g: Graph, cfg: Config, a: Schedule, b: Before, p: seq<nat>)
    requires Valid(g, cfg, b) && Finished(g, cfg, a, b) && MovedChain(g, a, b, p)
    requires a.complete[p[0]] == a.complete[p[|p| - 1]]
    ensures ChainTail(g, cfg, p) < cfg.cycleTime
  {
    ChainDeadline(g, cfg, a, b, p);
    NodeOf(g, cfg, a, b, p[0]);
    NodeOf(g, cfg, a, b, p[|p| - 1]);
    SameCycleGap(cfg, a.finish[p[0]], a.finish[p[|p| - 1]]);
  }

  lemma SameCycleGap(cfg: Config, s: int, t: int)
    requires cfg.cycleTime > 0 && LastCycle(cfg, s) == LastCycle(cfg, t)
    ensures t * NS - s * NS < cfg.cycleTime
  {
    DivBounds(s * NS, cfg.cycleTime);
    DivBounds(t * NS, cfg.cycleTime);
  }

  // ----- the length of the schedule

  /** Rounding the schedule's end up to whole nanoseconds does not make room for another cycle. */
  predicate RoundsWithinCycle(cfg: Config, cycles: nat) {
    Deadline(cfg, cycles) * NS < (cycles + 1) * cfg.cycleTime
  }

  ghost predicate MovableSink(g: Graph, v: nat)
    requires v < |g.nodes|
  {
    Connected(g, v) && g.nodes[v].op !in {Load, Store, Br, Switch, Call} && g.out[v] == []
  }

  ghost predicate KeepsLength(a: Schedule, b: Before) {
    forall v :: 0 <= v < |a.complete| ==> a.complete[v] < b.cycles
  }

  lemma OneNsSuffices(cfg: Config, cycles: nat)
    requires cfg.cycleTime >= NS
    ensures RoundsWithinCycle(cfg, cycles)
  {
    assert (cycles + 1) * cfg.cycleTime == cycles * cfg.cycleTime + cfg.cycleTime;
  }

  lemma SinkOverruns(g: Graph, cfg: Config, a: Schedule, b: Before, v: nat)
    requires Valid(g, cfg, b) && Finished(g, cfg, a, b) && v < |g.nodes|
    requires MovableSink(g, v) && !RoundsWithinCycle(cfg, b.cycles)
    ensures !KeepsLength(a, b)
  {
    NodeOf(g, cfg, a, b, v);
    DivAtLeast(a.finish[v] * NS, cfg.cycleTime, b.cycles + 1);
    assert LastCycle(cfg, a.finish[v]) >= b.cycles;
  }

  lemma RoundingKeeps(g: Graph, cfg: Config, a: Schedule, b: Before, v: nat)
    requires Valid(g, cfg, b) && Finished(g, cfg, a, b) && v < |g.nodes| && b.cycles > 0
    requires RoundsWithinCycle(cfg, b.cycles)
    ensures Fits(g, a, b) && a.complete[v] < b.cycles
  {
    NodeOf(g, cfg, a, b, v);
    if Moved(a, b, v) {
      LastCycleMono(cfg, a.finish[v], Deadline(cfg, b.cycles));
      DivAtMost(Deadline(cfg, b.cycles) * NS, cfg.cycleTime, b.cycles);
    }
  }

  /** Without movable sinks every moved node precedes a fixed one. */
  lemma {:induction false} FixedSinksKeep(g: Graph, cfg: Config, a: Schedule, b: Before, topo: seq<nat>, k: nat)
    requires Valid(g, cfg, b) && Finished(g, cfg, a, b) && SinksFirst(g, topo) && Acyclic(g)
    requires k < |topo| && b.cycles > 0
    requires forall v :: 0 <= v < |g.nodes| ==> !MovableSink(g, v)
    ensures Fits(g, a, b) && a.complete[topo[k]] < b.cycles
    decreases k
  {
    var v := topo[k];
    NeverEarlier(g, cfg, a, b, v);
    assert !MovableSink(g, v);
    if Moved(a, b, v) {
      var w := g.out[v][0].dst;
      assert g.out[v][0] in g.out[v] && HasEdge(g, v, w);
      assert w in topo;
      var j :| 0 <= j < |topo| && topo[j] == w;
      ParentBeforeChild(g, cfg, a, b, v, w);
      NeverEarlier(g, cfg, a, b, w);
      NextSettled(g, topo, k);
      assert j < k;
      FixedSinksKeep(g, cfg, a, b, topo, j);
    }
  }

  /** The pass keeps the schedule's length exactly when rounding stays within a cycle or there is
      no connected sink that it may move; both can be checked before the pass. */
  lemma LengthKeptIff(g: Graph, cfg: Config, b: Before, topo: seq<nat>)
    requires Valid(g, cfg, b) && SinksFirst(g, topo) && Acyclic(g) && b.cycles > 0
    ensures KeepsLength(Reschedule(g, cfg, b.start, b.complete, b.cycles, topo), b) <==>
            RoundsWithinCycle(cfg, b.cycles) || (forall v :: 0 <= v < |g.nodes| ==> !MovableSink(g, v))
  {
    var a := Reschedule(g, cfg, b.start, b.complete, b.cycles, topo);
    PassFinishes(g, cfg, b, topo);
    if RoundsWithinCycle(cfg, b.cycles) {
      forall v | 0 <= v < |g.nodes| ensures a.complete[v] < b.cycles { RoundingKeeps(g, cfg, a, b, v); }
    } else if exists v :: 0 <= v < |g.nodes| && MovableSink(g, v) {
      var v :| 0 <= v < |g.nodes| && MovableSink(g, v);
      SinkOverruns(g, cfg, a, b, v);
    } else {
      forall v | 0 <= v < |g.nodes| ensures a.complete[v] < b.cycles {
        assert v in topo;
        var k :| 0 <= k < |topo| && topo[k] == v;
        FixedSinksKeep(g, cfg, a, b, topo, k);
      }
    }
  }

  // ----- the pass after a run of the scheduler

  lemma StepBeforeEnd(g: Graph, cfg: Config, s: State, v: nat)
    requires Structure(g, s, {}) && Timing(g, s, 0) && v < |g.nodes|
    ensures Step(g, cfg, s).complete[v] < Step(g, cfg, s).cycle
  {
    PassTiming(g, cfg, s, 0);
    assert NodeTimes(g, Pass(g, cfg, s, 0), v);
  }

  lemma {:induction false} RunBeforeEnd(g: Graph, cfg: Config, s: State, v: nat)
    requires Structure(g, s, {}) && Timing(g, s, 0) && Acyclic(g) && s.ready == [] && v < |g.nodes|
    ensures Run(g, cfg, s).complete[v] < Run(g, cfg, s).cycle
    decreases Fuel(g, cfg, s)
  {
    StepBurnsFuel(g, cfg, s);
    StepTiming(g, cfg, s);
    StepBeforeEnd(g, cfg, s, v);
    if !SchedulerRun.Finished(g, Step(g, cfg, s)) {
      RunBeforeEnd(g, cfg, Step(g, cfg, s), v);
    }
  }

  lemma RunIsFirstPass(g: Graph, cfg: Config, s: State)
    requires Structure(g, s, {}) && Timing(g, s, 0) && Acyclic(g) && s.ready == []
    ensures var r := Run(g, cfg, s); FirstPass(g, r.start, r.complete, r.cycle) && r.cycle > 0
  {
    var r := Run(g, cfg, s);
    RunBound(g, cfg, s);
    RunCompletes(g, cfg, s);
    forall v | 0 <= v < |g.nodes|
      ensures r.complete[v] < r.cycle
      ensures Connected(g, v) ==> 0 <= r.start[v] && r.complete[v] == r.start[v] + Duration(g.nodes[v])
      ensures !Connected(g, v) ==> r.start[v] == -1 && r.complete[v] == -1
    {
      RunBeforeEnd(g, cfg, s, v);
      assert NodeTimes(g, r, v) && OnePhase(g, r, v);
    }
    forall u, v | 0 <= u < |g.nodes| && 0 <= v < |g.nodes| && HasEdge(g, u, v)
      ensures r.complete[u] <= r.start[v]
    {
      assert EdgeOrder(g, r, u, v);
      EdgeEndsConnected(g, u, v);
    }
  }

  ghost predicate Precedence(g: Graph, start: seq<int>, complete: seq<int>) {
    forall u: nat, v: nat :: HasEdge(g, u, v) ==> u < |complete| && v < |start| && complete[u] <= start[v]
  }

  /** No node moves earlier; memory and branch nodes stay. */
  ghost predicate OnlyLater(g: Graph, b: Before, a: Schedule) {
    && Fits(g, a, b)
    && (forall v :: 0 <= v < |g.nodes| ==> a.start[v] <= a.complete[v])
    && (forall v :: 0 <= v < |g.nodes| ==> a.start[v] >= b.start[v] && a.complete[v] >= b.complete[v])
    && (forall v :: 0 <= v < |g.nodes| && g.nodes[v].op in {Load, Store, Br, Switch, Call} ==>
          a.start[v] == b.start[v] && a.complete[v] == b.complete[v])
  }

  lemma FinishedCorrect(g: Graph, cfg: Config, b: Before, a: Schedule)
    requires Valid(g, cfg, b) && Finished(g, cfg, a, b)
    ensures Precedence(g, a.start, a.complete) && OnlyLater(g, b, a)
  {
    forall u: nat, v: nat | HasEdge(g, u, v)
      ensures u < |a.complete| && v < |a.start| && a.complete[u] <= a.start[v]
    {
      ParentBeforeChild(g, cfg, a, b, u, v);
    }
    assert Fits(g, a, b);
    forall v | 0 <= v < |g.nodes|
      ensures a.start[v] >= b.start[v] && a.complete[v] >= b.complete[v] && a.start[v] <= a.complete[v]
      ensures g.nodes[v].op in {Load, Store, Br, Switch, Call} ==>
        a.start[v] == b.start[v] && a.complete[v] == b.complete[v]
    {
      NeverEarlier(g, cfg, a, b, v);
    }
  }

  lemma PassFinishes(g: Graph, cfg: Config, b: Before, topo: seq<nat>)
    requires Valid(g, cfg, b) && SinksFirst(g, topo) && Acyclic(g)
    ensures Finished(g, cfg, Reschedule(g, cfg, b.start, b.complete, b.cycles, topo), b)
  {
    PassMeetsDeadlines(g, cfg, b, topo);
    assert Covers(g, Elements(topo));
  }

  /** The pass on any first-pass schedule: precedence holds on every edge, nodes move only later,
      memory and branch nodes stay, and at 1 ns or more the schedule keeps its length. */
  lemma PassCorrect(g: Graph, cfg: Config, b: Before, topo: seq<nat>)
    requires Valid(g, cfg, b) && SinksFirst(g, topo) && Acyclic(g) && b.cycles > 0
    ensures var a := Reschedule(g, cfg, b.start, b.complete, b.cycles, topo);
            && Precedence(g, a.start, a.complete) && OnlyLater(g, b, a)
            && (cfg.cycleTime >= NS ==> KeepsLength(a, b))
  {
    PassFinishes(g, cfg, b, topo);
    FinishedCorrect(g, cfg, b, Reschedule(g, cfg, b.start, b.complete, b.cycles, topo));
    if cfg.cycleTime >= NS {
      OneNsSuffices(cfg, b.cycles);
      LengthKeptIff(g, cfg, b, topo);
    }
  }

  /** Scheduling a graph and then rescheduling it. */
  lemma RescheduledRunCorrect(g: Graph, cfg: Config, s: State, topo: seq<nat>)
    requires Structure(g, s, {}) && Timing(g, s, 0) && s.ready == []
    requires Acyclic(g) && cfg.cycleTime > 0 && SinksFirst(g, topo)
    ensures var r := Run(g, cfg, s);
            var b := Before(r.start, r.complete, r.cycle);
            var a := Reschedule(g, cfg, r.start, r.complete, r.cycle, topo);
            && Precedence(g, a.start, a.complete) && OnlyLater(g, b, a)
            && (cfg.cycleTime >= NS ==> KeepsLength(a, b))
  {
    RunIsFirstPass(g, cfg, s);
    var r := Run(g, cfg, s);
    PassCorrect(g, cfg, Before(r.start, r.complete, r.cycle), topo);
  }

  /** The accesses to partition `slot` that start in cycle `c`. */
  ghost function AccessesIn(g: Graph, start: seq<int>, slot: Slot, c: nat): set<nat>
    requires |start| == |g.nodes|
  {
    set v | 0 <= v < |g.nodes| && g.nodes[v].op in {Load, Store} && g.nodes[v].place == InPartition(slot)
      && start[v] == c
  }

  /** Scratchpad accesses stay where the first pass put them, so the pass respects ports too. */
  lemma PortsKept(g: Graph, cfg: Config, s: State, a: Schedule, slot: Slot, c: nat)
    requires Initial(g, s) && Acyclic(g) && cfg.ports != 0
    requires var r := Run(g, cfg, s); OnlyLater(g, Before(r.start, r.complete, r.cycle), a)
    ensures |AccessesIn(g, a.start, slot, c)| <= cfg.ports
  {
    var r := Run(g, cfg, s);
    PortsRespected(g, cfg, s, slot, c);
    RunBound(g, cfg, s);
    AccessesStay(g, r, a, slot, c);
    SubsetSize(AccessesIn(g, a.start, slot, c), Served(g, r, slot, c));
  }

  lemma AccessesStay(g: Graph, r: State, a: Schedule, slot: Slot, c: nat)
    requires Timing(g, r, 0) && OnlyLater(g, Before(r.start, r.complete, r.cycle), a)
    ensures AccessesIn(g, a.start, slot, c) <= Served(g, r, slot, c)
  {
    forall v | v in AccessesIn(g, a.start, slot, c) ensures v in Served(g, r, slot, c) { AccessTimes(g, r, v); }
  }

  lemma AccessTimes(g: Graph, r: State, v: nat)
    requires Timing(g, r, 0) && v < |g.nodes| && g.nodes[v].op in {Load, Store} && r.start[v] >= 0
    ensures r.complete[v] == r.start[v]
  {
    assert NodeTimes(g, r, v);
  }

  /** The outcome of one invocation: within the cycle bound every connected node has started and
      completed, every edge has its parent complete no later than its child starts, no partition has more
      accesses than ports in a cycle, and at 1 ns or more nothing completes at or beyond the cycle count. */
  ghost predicate Outcome(g: Graph, cfg: Config, portsFree: bool, start: seq<int>, complete: seq<int>, cycles: nat) {
    && |start| == |complete| == |g.nodes|
    && 1 <= cycles <= Max(1, |Total(g)| + LatencySum(g, |g.nodes|) + (if portsFree then 0 else 1))
    && (forall v :: 0 <= v < |g.nodes| && Connected(g, v) ==> complete[v] >= 0)
    && (forall v :: 0 <= v < |g.nodes| ==> start[v] <= complete[v])
    && Precedence(g, start, complete)
    && (cfg.ports != 0 ==> forall slot, c: nat :: |AccessesIn(g, start, slot, c)| <= cfg.ports)
    && (cfg.cycleTime >= NS ==> forall v :: 0 <= v < |g.nodes| ==> complete[v] < cycles)
  }

  lemma InvocationCorrect(g: Graph, cfg: Config, s: State, topo: seq<nat>)
    requires Initial(g, s) && Acyclic(g) && cfg.cycleTime > 0 && SinksFirst(g, topo)
    ensures var r := Run(g, cfg, s);
            var a := Reschedule(g, cfg, r.start, r.complete, r.cycle, topo);
            Outcome(g, cfg, PortsFree(cfg, s), a.start, a.complete, r.cycle)
  {
    EveryRunCompletes(g, cfg, s);
    RescheduledRunCorrect(g, cfg, s, topo);
    var r := Run(g, cfg, s);
    var a := Reschedule(g, cfg, r.start, r.complete, r.cycle, topo);
    if cfg.ports != 0 {
      forall slot, c: nat ensures |AccessesIn(g, a.start, slot, c)| <= cfg.ports { PortsKept(g, cfg, s, a, slot, c); }
    }
  }

  /** An acyclic graph has a sinks-first order, so the pass always has one to follow. */
  lemma {:induction false} SinksFirstExists(g: Graph, rest: set<nat>) returns (r: seq<nat>)
    requires Acyclic(g)
    requires forall v :: v in rest ==> v < |g.nodes|
    ensures forall v :: v in r <==> v in rest
    ensures forall i, j :: 0 <= i < j < |r| ==> r[i] != r[j] && !HasEdge(g, r[i], r[j])
    decreases |rest|
  {
    r := [];
    if rest != {} {
      var v := SourceExists(g, rest);
      var q := SinksFirstExists(g, rest - {v});
      r := q + [v];
      forall i | 0 <= i < |q| ensures q[i] != v && !HasEdge(g, q[i], v) {
        assert q[i] in q;
        assert q[i] !in Parents(g, v) * rest;
      }
    }
  }
}
