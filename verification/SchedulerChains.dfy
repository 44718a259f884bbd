/** How early a node can begin, said with chains of operations: the longest that leads to it. */
module SchedulerChains {
  import opened ExecNodes
  import opened DependenceGraph
  import opened Scheduler
  import opened SchedulerBegin
  import opened SchedulerEdges

  /** A path on which only the first node may be a memory or floating-point operation. */
  ghost predicate IsChain(g: Graph, p: seq<nat>) {
    IsPath(g, p) && forall i :: 0 < i < |p| ==> p[i] < |g.nodes| && !Unpacked(g.nodes[p[i]].op)
  }

  /** When the last node of a chain is done: the first begins with its cycle, or ends with it if it cannot be packed,
      and the others follow without a gap. */
  ghost function ChainEnd(g: Graph, cfg: Config, complete: seq<int>, p: seq<nat>): int
    requires |p| > 0 && |complete| == |g.nodes| && forall i :: 0 <= i < |p| ==> p[i] < |g.nodes|
  {
    var n := |p| - 1;
    var latency := FuLatency(g.nodes[p[n]].op, cfg.cycleTime);
    if n > 0 then ChainEnd(g, cfg, complete, p[..n]) + latency
    else if Unpacked(g.nodes[p[0]].op) then (complete[p[0]] + 1) * cfg.cycleTime
    else complete[p[0]] * cfg.cycleTime + latency
  }

  /** A chain that leads to `v`. */
  ghost predicate LeadsTo(g: Graph, p: seq<nat>, v: nat) {
    IsChain(g, p) && HasEdge(g, p[|p| - 1], v)
  }

  lemma ChainFront(g: Graph, p: seq<nat>)
    requires IsChain(g, p) && |p| > 1
    ensures LeadsTo(g, p[..|p| - 1], p[|p| - 1])
  {
    var n := |p| - 1;
    assert HasEdge(g, p[n - 1], p[n - 1 + 1]);
    forall i | 0 <= i < n - 1 ensures HasEdge(g, p[..n][i], p[..n][i + 1]) { assert HasEdge(g, p[i], p[i + 1]); }
  }

  lemma ParentDoneIs(g: Graph, cfg: Config, complete: seq<int>, v: nat, u: nat)
    requires Acyclic(g) && AllComplete(g, complete) && v < |g.nodes| && HasEdge(g, u, v)
    ensures u < |g.nodes| && complete[u] >= 0
    ensures var latency, begin := FuLatency(g.nodes[u].op, cfg.cycleTime), EarliestBegin(g, cfg, complete, u);
      ParentDone(g, cfg, complete, v, u) ==
        if Unpacked(g.nodes[u].op) then (complete[u] + 1) * cfg.cycleTime
        else if begin > complete[u] * cfg.cycleTime then begin + latency
        else complete[u] * cfg.cycleTime + latency
  {
    EdgeEndsConnected(g, u, v);
  }

  lemma {:induction false} ChainAtMost(g: Graph, cfg: Config, complete: seq<int>, p: seq<nat>, v: nat)
    requires Acyclic(g) && AllComplete(g, complete) && v < |g.nodes| && LeadsTo(g, p, v)
    ensures ChainEnd(g, cfg, complete, p) <= EarliestBegin(g, cfg, complete, v)
    decreases |p|
  {
    var n := |p| - 1;
    var u := p[n];
    ParentDoneIs(g, cfg, complete, v, u);
    LatestIsLargest(g, cfg, complete, v, |g.nodes|, u);
    if n > 0 {
      ChainFront(g, p);
      ChainAtMost(g, cfg, complete, p[..n], u);
    }
  }

  lemma LatestParent(g: Graph, cfg: Config, complete: seq<int>, v: nat) returns (u: nat)
    requires Acyclic(g) && AllComplete(g, complete) && v < |g.nodes| && Parents(g, v) != {}
    ensures HasEdge(g, u, v) && ParentDone(g, cfg, complete, v, u) == EarliestBegin(g, cfg, complete, v)
  {
    u := LatestIsAttained(g, cfg, complete, v, |g.nodes|);
    if EarliestBegin(g, cfg, complete, v) == 0 {
      u :| u in Parents(g, v);
      LatestIsLargest(g, cfg, complete, v, |g.nodes|, u);
    }
  }

  lemma BeginsAtZero(g: Graph, cfg: Config, complete: seq<int>, v: nat)
    requires Acyclic(g) && AllComplete(g, complete) && v < |g.nodes| && Parents(g, v) == {}
    ensures EarliestBegin(g, cfg, complete, v) == 0
  {
    var u := LatestIsAttained(g, cfg, complete, v, |g.nodes|);
    if EarliestBegin(g, cfg, complete, v) != 0 { EdgeEndsConnected(g, u, v); }
  }

  lemma {:induction false} ChainAttains(g: Graph, cfg: Config, complete: seq<int>, v: nat) returns (p: seq<nat>)
    requires Acyclic(g) && AllComplete(g, complete) && v < |g.nodes| && Parents(g, v) != {}
    ensures LeadsTo(g, p, v) && ChainEnd(g, cfg, complete, p) == EarliestBegin(g, cfg, complete, v)
    decreases Ancestors(g, v)
  {
    var u := LatestParent(g, cfg, complete, v);
    ParentDoneIs(g, cfg, complete, v, u);
    if !Unpacked(g.nodes[u].op) && EarliestBegin(g, cfg, complete, u) > complete[u] * cfg.cycleTime {
      NonNegativeCycle(complete[u], cfg.cycleTime);
      if Parents(g, u) == {} { BeginsAtZero(g, cfg, complete, u); }
      ParentHasFewer(g, u, v);
      var q := ChainAttains(g, cfg, complete, u);
      p := Longer(g, q, u);
      assert p[..|q|] == q;
    } else {
      p := [u];
    }
  }

  lemma NonNegativeCycle(c: int, t: nat)
    requires c >= 0
    ensures c * t >= 0
  {
  }

  lemma Longer(g: Graph, q: seq<nat>, u: nat) returns (p: seq<nat>)
    requires LeadsTo(g, q, u) && u < |g.nodes| && !Unpacked(g.nodes[u].op)
    ensures p == q + [u] && IsChain(g, p)
  {
    p := q + [u];
    forall i | 0 <= i < |p| - 1 ensures HasEdge(g, p[i], p[i + 1]) {
      if i < |q| - 1 { assert HasEdge(g, q[i], q[i + 1]); }
    }
  }

  /** A node can begin once the longest chain that leads to it is done. */
  lemma BeginIsLongestChain(g: Graph, cfg: Config, complete: seq<int>, v: nat)
    requires Acyclic(g) && AllComplete(g, complete) && v < |g.nodes| && Parents(g, v) != {}
    ensures forall p :: LeadsTo(g, p, v) ==> ChainEnd(g, cfg, complete, p) <= EarliestBegin(g, cfg, complete, v)
    ensures exists p :: LeadsTo(g, p, v) && ChainEnd(g, cfg, complete, p) == EarliestBegin(g, cfg, complete, v)
  {
    forall p | LeadsTo(g, p, v) ensures ChainEnd(g, cfg, complete, p) <= EarliestBegin(g, cfg, complete, v) {
      ChainAtMost(g, cfg, complete, p, v);
    }
    var p := ChainAttains(g, cfg, complete, v);
  }

  /** So it fits in a cycle exactly if it does so behind every chain. */
  lemma FitsIff(g: Graph, cfg: Config, complete: seq<int>, v: nat, c: nat)
    requires Acyclic(g) && AllComplete(g, complete) && v < |g.nodes| && Parents(g, v) != {}
    ensures FitsIn(g, cfg, complete, v, c) <==> forall p :: LeadsTo(g, p, v) ==>
      ChainEnd(g, cfg, complete, p) + FuLatency(g.nodes[v].op, cfg.cycleTime) < (c + 1) * cfg.cycleTime
  {
    BeginIsLongestChain(g, cfg, complete, v);
  }
}
