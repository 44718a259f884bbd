/** Every state a run passes through, visit by visit. */
module SchedulerSafety {
  import opened ExecNodes
  import opened DependenceGraph
  import opened Scheduler
  import opened SchedulerStructure
  import opened SchedulerRun
  import opened SchedulerTiming
  import opened SchedulerLiveness

  /** A state and the position in the executing queue that is visited next. */
  datatype Point = Point(state: State, index: nat)

  ghost predicate Safe(g: Graph, p: Point) {
    p.index <= |p.state.executing| && Structure(g, p.state, {}) && Timing(g, p.state, p.index)
  }

  /** The next visit or, at the end of the queue, the end of the cycle. */
  function Next(g: Graph, cfg: Config, p: Point): (q: Point)
    requires Safe(g, p)
    ensures Safe(g, q)
  {
    if p.index == |p.state.executing| then
      EndCycleTiming(g, p.state);
      Point(EndCycle(g, p.state), 0)
    else
      VisitAdvances(g, cfg, p.state, p.index);
      VisitTiming(g, cfg, p.state, p.index);
      var r := Visit(g, cfg, p.state, p.index);
      Point(r.state, if r.executed then p.index else p.index + 1)
  }

  /** After `k` visits or cycle ends. */
  function After(g: Graph, cfg: Config, p: Point, k: nat): (q: Point)
    requires Safe(g, p)
    ensures Safe(g, q)
    decreases k
  {
    if k == 0 then p else After(g, cfg, Next(g, cfg, p), k - 1)
  }

  /** In every state of every run, after any number of visits: a node is in exactly one phase if
      connected, in none otherwise; a waiting node counts its uncompleted parents; a completed node
      took exactly its latency; and a started node's parents completed no later than it started. */
  lemma EveryStateSafe(g: Graph, cfg: Config, s: State, k: nat, v: nat)
    requires Initial(g, s) && v < |g.nodes|
    ensures var r := After(g, cfg, Point(s, 0), k).state;
      && Shape(g, r) && OnePhase(g, r, v)
      && (Waiting(r, v) ==> r.numParents[v] == |Parents(g, v) - Done(r)|)
      && (Completed(r, v) ==> r.complete[v] == r.start[v] + Duration(g.nodes[v]))
      && (r.start[v] >= 0 ==> forall u :: u in Parents(g, v) ==> 0 <= r.complete[u] <= r.start[v])
  {
    SafeNode(g, After(g, cfg, Point(s, 0), k), v);
  }

  lemma SafeNode(g: Graph, p: Point, v: nat)
    requires Safe(g, p) && v < |g.nodes|
    ensures var r := p.state;
      && Shape(g, r) && OnePhase(g, r, v)
      && (Waiting(r, v) ==> r.numParents[v] == |Parents(g, v) - Done(r)|)
      && (Completed(r, v) ==> r.complete[v] == r.start[v] + Duration(g.nodes[v]))
      && (r.start[v] >= 0 ==> forall u :: u in Parents(g, v) ==> 0 <= r.complete[u] <= r.start[v])
  {
    var r := p.state;
    assert OnePhase(g, r, v) && Counted(g, r, {}, v) && NodeTimes(g, r, v);
    forall u | u in Parents(g, v) ensures EdgeOrder(g, r, u, v) {}
  }

  lemma VisitPasses(g: Graph, cfg: Config, p: Point)
    requires Safe(g, p) && p.index < |p.state.executing|
    ensures var q := Next(g, cfg, p); Pass(g, cfg, q.state, q.index) == Pass(g, cfg, p.state, p.index)
  {
  }

  lemma VisitLeaves(g: Graph, cfg: Config, p: Point)
    requires Safe(g, p) && p.index < |p.state.executing|
    ensures var q := Next(g, cfg, p);
      && (q.state.executed > p.state.executed || (q.state.executed == p.state.executed && Left(q) < Left(p)))
      && q.state.executed <= |g.nodes|
  {
    VisitAdvances(g, cfg, p.state, p.index);
  }

  ghost function Left(p: Point): int {
    |p.state.executing| - p.index
  }

  /** The visits are the scheduler's own: a number of them make up the rest of a cycle, so the states
      between cycles are among these. */
  lemma CycleIsVisits(g: Graph, cfg: Config, p: Point) returns (n: nat)
    requires Safe(g, p)
    ensures After(g, cfg, p, n) == Point(EndCycle(g, Pass(g, cfg, p.state, p.index)), 0)
  {
    var r := Pass(g, cfg, p.state, p.index);
    n := VisitsTo(g, cfg, p, r, Point(EndCycle(g, r), 0));
  }

  lemma {:induction false} VisitsTo(g: Graph, cfg: Config, p: Point, r: State, e: Point) returns (n: nat)
    requires Safe(g, p) && r == Pass(g, cfg, p.state, p.index) && e == Point(EndCycle(g, r), 0)
    ensures After(g, cfg, p, n) == e
    decreases |g.nodes| - p.state.executed, Left(p)
  {
    if p.index < |p.state.executing| {
      var q := OneVisit(g, cfg, p, r);
      var m := VisitsTo(g, cfg, q, r, e);
      n := OneMore(g, cfg, p, q, m, e);
    } else {
      CycleEndsNext(g, cfg, p);
      n := 1;
    }
  }

  lemma OneVisit(g: Graph, cfg: Config, p: Point, r: State) returns (q: Point)
    requires Safe(g, p) && r == Pass(g, cfg, p.state, p.index) && p.index < |p.state.executing|
    ensures q == Next(g, cfg, p) && Safe(g, q) && r == Pass(g, cfg, q.state, q.index)
    ensures q.state.executed > p.state.executed || (q.state.executed == p.state.executed && Left(q) < Left(p))
    ensures q.state.executed <= |g.nodes|
  {
    q := Next(g, cfg, p);
    VisitPasses(g, cfg, p);
    VisitLeaves(g, cfg, p);
  }

  lemma OneMore(g: Graph, cfg: Config, p: Point, q: Point, m: nat, e: Point) returns (n: nat)
    requires Safe(g, p) && q == Next(g, cfg, p) && After(g, cfg, q, m) == e
    ensures After(g, cfg, p, n) == e
  {
    n := m + 1;
  }

  lemma CycleEndsNext(g: Graph, cfg: Config, p: Point)
    requires Safe(g, p) && p.index == |p.state.executing|
    ensures After(g, cfg, p, 1) == Point(EndCycle(g, p.state), 0)
  {
    var q := Next(g, cfg, p);
    assert After(g, cfg, q, 0) == q;
  }
}
