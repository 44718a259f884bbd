/** From trace to schedule. */
module EndToEnd {
  import opened Collections
  import opened ExecNodes
  import opened DependenceGraph
  import opened Scheduler
  import opened SchedulerLiveness
  import Alap
  import AlapCorrect
  import M = MemoryDependence
  import R = RegisterDependence
  import opened TraceParsing
  import opened TraceLinks
  import opened InitialGraph
  import opened ScratchpadDatapaths

  /** Positions from the last to the first: sinks first, when edges go forward. */
  function Backwards(n: nat): seq<nat> {
    if n == 0 then [] else [n - 1] + Backwards(n - 1)
  }

  lemma {:induction false} BackwardsAt(n: nat, k: nat)
    requires k < n
    ensures |Backwards(n)| == n && Backwards(n)[k] == n - 1 - k
  {
    if k > 0 { BackwardsAt(n - 1, k - 1); } else if n > 1 { BackwardsAt(n - 1, 0); }
  }

  lemma BackwardsIsSinksFirst(g: Graph)
    requires forall u: nat, v: nat :: HasEdge(g, u, v) ==> u < v
    ensures Alap.SinksFirst(g, Backwards(|g.nodes|))
  {
    var n := |g.nodes|;
    var order := Backwards(n);
    assert |order| == n by { if n > 0 { BackwardsAt(n, 0); } }
    forall k: nat | k < n ensures order[k] == n - 1 - k { BackwardsAt(n, k); }
    forall v: nat | v < n ensures v in order { assert order[n - 1 - v] == v; }
  }

  /** Parses a trace, builds its graph, schedules and reschedules it. Whatever a trace with increasing ids
      holds, this ends within the cycle bound and keeps every edge of its graph. In ready mode the graph leaves
      out the edges from transfers to loads, for which ready bits stand in; these are not modelled here. */
  method ScheduleTrace(trace: seq<Record>, readyMode: bool, hostDma: nat -> bool, place: nat -> Placement,
                       d: ScratchpadDatapath)
    returns (parsed: nat)
    requires IdsIncrease(trace) && d.FlagSound() && d.cfg.cycleTime > 0
    requires forall id :: place(id).InPartition? ==> place(id).slot in d.cfg.slots
    modifies d
    ensures parsed <= |trace| && Readable(trace[..parsed])
    ensures parsed < |trace| ==> !Parsable(ParseAll(trace[..parsed]), trace[parsed])
    ensures IsTraceGraph(d.program, trace[..parsed], readyMode, hostDma, place) && Acyclic(d.program)
    ensures AlapCorrect.Outcome(d.program, d.cfg, old(PortsFree(d.cfg, d.View())), d.startCycle, d.completeCycle,
                                d.numCycles)
  {
    var g;
    g, parsed := BuildGraph(trace, readyMode, hostDma, place);
    PrefixIncreases(trace, parsed);
    TraceGraphAcyclic(g, trace[..parsed], readyMode, hostDma, place);
    forall u: nat, v: nat | HasEdge(g, u, v) ensures u < v {
      GraphForward(g, trace[..parsed], readyMode, hostDma, place, u, v);
    }
    BackwardsIsSinksFirst(g);
    TracePlaced(g, trace[..parsed], readyMode, hostDma, place, d.cfg);
    d.Invoke(g, Backwards(|g.nodes|));
  }

  lemma PrefixIncreases(trace: seq<Record>, n: nat)
    requires IdsIncrease(trace) && n <= |trace|
    ensures IdsIncrease(trace[..n])
  {
  }

  lemma TracePlaced(g: Graph, trace: seq<Record>, readyMode: bool, hostDma: nat -> bool,
                    place: nat -> Placement, cfg: Config)
    requires IsTraceGraph(g, trace, readyMode, hostDma, place)
    requires forall id :: place(id).InPartition? ==> place(id).slot in cfg.slots
    ensures Mapped(g, cfg)
  {
  }

  // ----- what the schedule keeps of the trace

  /** Along any path of the graph, the first node completes no later than the last one starts. */
  lemma {:induction false} PathOrdered(g: Graph, start: seq<int>, complete: seq<int>, p: seq<nat>)
    requires |start| == |complete| == |g.nodes| && AlapCorrect.Precedence(g, start, complete)
    requires forall v :: 0 <= v < |g.nodes| ==> start[v] <= complete[v]
    requires IsPath(g, p) && |p| >= 2
    ensures complete[p[0]] <= start[p[|p| - 1]]
    decreases |p|
  {
    var n := |p| - 1;
    assert HasEdge(g, p[n - 1], p[n - 1 + 1]);
    if n > 1 {
      SliceOfPath(g, p, 0, n - 1);
      PathOrdered(g, start, complete, p[0..n]);
    }
  }

  /** A chain of edges between ids is a path between their positions. */
  lemma {:induction false} ChainIsPath(g: Graph, trace: seq<Record>, readyMode: bool, hostDma: nat -> bool,
                                       place: nat -> Placement, edges: map<Pair, nat>, c: seq<nat>)
    returns (p: seq<nat>)
    requires IdsIncrease(trace) && TraceEdges(trace, readyMode, edges)
    requires g == GraphOf(Instructions(trace), edges, hostDma, place)
    requires M.IsChain(edges.Keys, c)
    ensures IsPath(g, p) && |p| == |c|
    ensures forall k :: 0 <= k < |p| ==> p[k] < |Instructions(trace)| && Instructions(trace)[p[k]].id == c[k]
    decreases |c|
  {
    var insts, n := Instructions(trace), |c| - 1;
    assert (c[n - 1], c[n - 1 + 1]) in edges.Keys;
    EveryEdgeForward(trace, readyMode, edges, (c[n - 1], c[n]));
    var v := OpcodePosition(insts, c[n]);
    if n == 1 {
      var u := OpcodePosition(insts, c[0]);
      GraphHasEdges(insts, edges, hostDma, place, g, u, v);
      p := [u, v];
    } else {
      var front := c[..n];
      forall i | 0 <= i < |front| - 1 ensures (front[i], front[i + 1]) in edges.Keys {
        assert (c[i], c[i + 1]) in edges.Keys;
      }
      var q := ChainIsPath(g, trace, readyMode, hostDma, place, edges, front);
      GraphHasEdges(insts, edges, hostDma, place, g, q[n - 1], v);
      p := q + [v];
      forall i | 0 <= i < |p| - 1 ensures HasEdge(g, p[i], p[i + 1]) {
        if i < |q| - 1 { assert HasEdge(g, q[i], q[i + 1]); }
      }
    }
  }

  /** In the schedule of any trace, an access starts no earlier than every earlier store completes whose start
      address it reads or stores to, unless a transfer or a change of ready bits wrote that byte in between. */
  lemma SameAddressScheduled(g: Graph, trace: seq<Record>, readyMode: bool, hostDma: nat -> bool,
                             place: nat -> Placement, start: seq<int>, complete: seq<int>,
                             i: nat, j: nat, u: nat, v: nat)
    requires IdsIncrease(trace) && IsTraceGraph(g, trace, readyMode, hostDma, place)
    requires |start| == |complete| == |g.nodes| && AlapCorrect.Precedence(g, start, complete)
    requires forall v :: 0 <= v < |g.nodes| ==> start[v] <= complete[v]
    requires var mem := ParseAll(trace).mem;
      && i < j < |mem| && mem[i].Store? && mem[i].id != mem[j].id
      && M.Waits(mem[j], mem[i].addr) && M.StoresOnly(mem, i, j, mem[i].addr)
    requires var insts, mem := Instructions(trace), ParseAll(trace).mem;
      u < |insts| == |g.nodes| && v < |insts| && insts[u].id == mem[i].id && insts[v].id == mem[j].id
    ensures complete[u] <= start[v]
  {
    var edges :| TraceEdges(trace, readyMode, edges) && g == GraphOf(Instructions(trace), edges, hostDma, place);
    var mem := ParseAll(trace).mem;
    SameAddressWaits(trace, readyMode, edges, i, j);
    var c :| M.IsChain(edges.Keys, c) && c[0] == mem[i].id && c[|c| - 1] == mem[j].id;
    var p := ChainIsPath(g, trace, readyMode, hostDma, place, edges, c);
    UniqueId(trace, u, p[0]);
    UniqueId(trace, v, p[|p| - 1]);
    PathOrdered(g, start, complete, p);
  }

  /** And a node starts no earlier than the last writer of each register it reads completes. */
  lemma ReadScheduled(g: Graph, trace: seq<Record>, readyMode: bool, hostDma: nat -> bool, place: nat -> Placement,
                      start: seq<int>, complete: seq<int>, n: nat, k: nat, u: nat, v: nat)
    requires IsTraceGraph(g, trace, readyMode, hostDma, place) && AlapCorrect.Precedence(g, start, complete)
    requires var reg := ParseAll(trace).reg;
      n < |reg| && reg[n].Read? && R.IsLastWrite(reg, n, reg[n].reg, k) && reg[k].id != reg[n].id
    requires var insts, reg := Instructions(trace), ParseAll(trace).reg;
      u < |insts| && v < |insts| && insts[u].id == reg[k].id && insts[v].id == reg[n].id
    ensures u < |complete| && v < |start| && complete[u] <= start[v]
  {
    var edges :| TraceEdges(trace, readyMode, edges) && g == GraphOf(Instructions(trace), edges, hostDma, place);
    ReadWaits(trace, readyMode, edges, n, k);
    GraphHasEdges(Instructions(trace), edges, hostDma, place, g, u, v);
  }

  lemma UniqueId(trace: seq<Record>, u: nat, v: nat)
    requires IdsIncrease(trace) && u < |Instructions(trace)| && v < |Instructions(trace)|
    requires Instructions(trace)[u].id == Instructions(trace)[v].id
    ensures u == v
  {
    TraceLinked(trace, |trace|);
    assert trace[..|trace|] == trace;
    InstructionsParsed(trace);
  }
}
