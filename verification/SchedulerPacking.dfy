/** Functional-unit packing: operations chained into one cycle fit the clock period. */
module SchedulerPacking {
  import opened ExecNodes
  import opened DependenceGraph
  import opened Scheduler
  import opened SchedulerStructure
  import opened SchedulerRun
  import opened SchedulerTiming
  import opened SchedulerLiveness

  predicate Plain(n: Node) {
    !n.IsMemory() && !n.IsMulticycle()
  }

  function Latency(g: Graph, cfg: Config, v: nat): nat
    requires v < |g.nodes|
  {
    FuLatency(g.nodes[v].op, cfg.cycleTime)
  }

  /** What is known of a node that the packing branch put behind its parent `u`. */
  ghost predicate Link(g: Graph, cfg: Config, s: State, i: nat, u: nat, v: nat)
    requires Shape(g, s) && v < |g.nodes| && i <= |s.executing|
  {
    && u < |g.nodes| && HasEdge(g, u, v)
    && Plain(g.nodes[u]) && Plain(g.nodes[v])
    && !Waiting(s, v) && s.complete[u] >= 0
    && s.timeBefore[v] >= Latency(g, cfg, u) + s.timeBefore[u]
    && s.timeBefore[v] >= Latency(g, cfg, u) + At(cfg, s.complete[u])
    && s.timeBefore[v] + Latency(g, cfg, v) < At(cfg, s.complete[u] + 1)
    && (s.complete[v] == s.complete[u] || (s.complete[u] == s.cycle && v in s.executing[i..]))
  }

  ghost predicate Packing(g: Graph, cfg: Config, s: State, i: nat) {
    && Shape(g, s) && i <= |s.executing|
    && (forall v :: 0 <= v < |g.nodes| && s.entry[v].Packed? ==> Link(g, cfg, s, i, s.entry[v].parent, v))
  }

  lemma PackedIsPlain(u: Node, v: Node, parid: nat, cfg: Config, begin: nat, cycle: nat, uid: nat)
    requires Admit(u, v, parid, cfg, begin, cycle, uid).Packed?
    ensures Plain(u) && Plain(v)
    ensures Admit(u, v, parid, cfg, begin, cycle, uid) == Packed(uid)
    ensures begin + FuLatency(v.op, cfg.cycleTime) < At(cfg, cycle + 1)
  {
  }

  ghost predicate Beyond(g: Graph, cfg: Config, s: State, u: nat, after: nat)
    requires Shape(g, s) && u < |g.nodes|
  {
    && s.complete[u] == s.cycle
    && (Plain(g.nodes[u]) ==>
          after >= Latency(g, cfg, u) + s.timeBefore[u] && after >= Latency(g, cfg, u) + At(cfg, s.cycle))
  }

  /** The link made by the last parent of `e.dst`. */
  lemma NewLink(g: Graph, cfg: Config, s: State, u: nat, e: Edge, after: nat, i: nat)
    requires Shape(g, s) && i <= |s.executing| && u < |g.nodes| && Beyond(g, cfg, s, u, after)
    requires e.dst < |g.nodes| && e.dst != u && HasEdge(g, u, e.dst) && s.numParents[e.dst] == 1
    requires UpdateChild(g, cfg, s, u, e, after).entry[e.dst].Packed?
    ensures var r := UpdateChild(g, cfg, s, u, e, after);
            i <= |r.executing| && Link(g, cfg, r, i, r.entry[e.dst].parent, e.dst)
  {
    var r := UpdateChild(g, cfg, s, u, e, after);
    PackedIsPlain(g.nodes[u], g.nodes[e.dst], e.parid, cfg, r.timeBefore[e.dst], s.cycle, u);
    assert r.executing == s.executing + [e.dst];
    assert r.executing[i..][|s.executing| - i] == e.dst;
  }

  /** Links made earlier do not involve a node that is still waiting. */
  lemma OldLink(g: Graph, cfg: Config, s: State, r: State, x: nat, i: nat, u: nat, v: nat)
    requires Shape(g, s) && Shape(g, r) && i <= |s.executing| && v < |g.nodes| && Link(g, cfg, s, i, u, v)
    requires x < |g.nodes| && x != u && x != v
    requires s.executing <= r.executing && r.complete == s.complete && r.cycle == s.cycle
    requires r.timeBefore[u] == s.timeBefore[u] && r.timeBefore[v] == s.timeBefore[v]
    requires r.numParents[v] == s.numParents[v]
    ensures i <= |r.executing| && Link(g, cfg, r, i, u, v)
  {
    if v in s.executing[i..] {
      var k :| 0 <= k < |s.executing[i..]| && s.executing[i..][k] == v;
      assert r.executing[i..][k] == v;
    }
  }

  lemma UpdateChildPacks(g: Graph, cfg: Config, s: State, u: nat, e: Edge, after: nat, pending: set<nat>, i: nat)
    requires Structure(g, s, pending) && Packing(g, cfg, s, i)
    requires u < |g.nodes| && Beyond(g, cfg, s, u, after)
    requires e.dst < |g.nodes| && e.dst in pending && HasEdge(g, u, e.dst)
    ensures var r := UpdateChild(g, cfg, s, u, e, after); Packing(g, cfg, r, i) && Beyond(g, cfg, r, u, after)
  {
    var r := UpdateChild(g, cfg, s, u, e, after);
    assert Counted(g, s, pending, e.dst) && OnePhase(g, s, e.dst);
    assert Shape(g, r) && s.executing <= r.executing;
    forall v | 0 <= v < |g.nodes| && r.entry[v].Packed?
      ensures i <= |r.executing| && Link(g, cfg, r, i, r.entry[v].parent, v)
    {
      if v == e.dst && s.numParents[e.dst] == 1 {
        NewLink(g, cfg, s, u, e, after, i);
      } else {
        var p := s.entry[v].parent;
        assert Link(g, cfg, s, i, p, v);
        assert e.dst != v && e.dst != p;
        OldLink(g, cfg, s, r, e.dst, i, p, v);
      }
    }
  }

  lemma {:induction false} UpdateChildrenPacks(g: Graph, cfg: Config, s: State, u: nat, es: seq<Edge>,
                                               after: nat, i: nat)
    requires Structure(g, s, Targets(es)) && Packing(g, cfg, s, i)
    requires u < |g.nodes| && Beyond(g, cfg, s, u, after)
    requires forall k :: 0 <= k < |es| ==> es[k].dst < |g.nodes| && HasEdge(g, u, es[k].dst)
    requires forall j, k :: 0 <= j < k < |es| ==> es[j].dst != es[k].dst
    ensures Packing(g, cfg, UpdateChildren(g, cfg, s, u, es, after), i)
    decreases |es|
  {
    if es != [] {
      var m := UpdateChild(g, cfg, s, u, es[0], after);
      assert es[0] in es;
      UpdateChildPacks(g, cfg, s, u, es[0], after, Targets(es), i);
      UpdateChildKeeps(g, cfg, s, u, es[0], after, Targets(es), m);
      TargetsTail(es);
      UpdateChildrenPacks(g, cfg, m, u, es[1..], after, i);
    }
  }

  /** Passing over a node that is not plain loses no link. */
  lemma SkipPacks(g: Graph, cfg: Config, s: State, i: nat, r: State)
    requires Packing(g, cfg, s, i) && i < |s.executing|
    requires s.executing[i] < |g.nodes| && !Plain(g.nodes[s.executing[i]])
    requires Shape(g, r) && r.executing == s.executing && r.numParents == s.numParents
    requires r.complete == s.complete && r.timeBefore == s.timeBefore && r.entry == s.entry && r.cycle == s.cycle
    ensures Packing(g, cfg, r, i + 1)
  {
    assert s.executing[i..] == [s.executing[i]] + s.executing[i + 1..];
    forall v | 0 <= v < |g.nodes| && r.entry[v].Packed? ensures Link(g, cfg, r, i + 1, r.entry[v].parent, v) {
      assert Link(g, cfg, s, i, s.entry[v].parent, v);
    }
  }

  lemma RetirePacks(g: Graph, cfg: Config, s: State, i: nat)
    requires Structure(g, s, {}) && Packing(g, cfg, s, i) && i < |s.executing| && s.executing[i] < |g.nodes|
    ensures Packing(g, cfg, Retire(Dispatch(g, s, s.executing[i]), i), i)
  {
    var x := s.executing[i];
    var r := Retire(Dispatch(g, s, x), i);
    assert x in s.executing && OnePhase(g, s, x);
    assert s.executing[i..] == [x] + s.executing[i + 1..];
    assert r.executing[i..] == s.executing[i + 1..];
    forall v | 0 <= v < |g.nodes| && r.entry[v].Packed? ensures Link(g, cfg, r, i, r.entry[v].parent, v) {
      assert Link(g, cfg, s, i, s.entry[v].parent, v);
    }
  }

  lemma VisitPacks(g: Graph, cfg: Config, s: State, i: nat)
    requires Structure(g, s, {}) && Packing(g, cfg, s, i) && i < |s.executing| && s.executing[i] < |g.nodes|
    ensures var r := Visit(g, cfg, s, i); Packing(g, cfg, r.state, if r.executed then i else i + 1)
  {
    var v := s.executing[i];
    if Blocked(cfg, s, g.nodes[v]) {
      SkipPacks(g, cfg, s, i, s);
    } else if StaysInFlight(s, g.nodes[v], v) {
      SkipPacks(g, cfg, s, i, Advance(g, s, v));
    } else {
      var d := Dispatch(g, s, v);
      RetirePacks(g, cfg, s, i);
      SameQueues(g, s, d);
      RetireKeeps(g, d, i, Retire(d, i));
      forall k | 0 <= k < |g.out[v]| ensures HasEdge(g, v, g.out[v][k].dst) { assert g.out[v][k] in g.out[v]; }
      UpdateChildrenPacks(g, cfg, Retire(d, i), v, g.out[v], TimeAfter(g, cfg, d, v), i);
    }
  }

  lemma {:induction false} PassPacks(g: Graph, cfg: Config, s: State, i: nat)
    requires Structure(g, s, {}) && Packing(g, cfg, s, i) && i <= |s.executing|
    ensures var r := Pass(g, cfg, s, i); Packing(g, cfg, r, |r.executing|)
    decreases |g.nodes| - s.executed, |s.executing| - i
  {
    if i < |s.executing| {
      VisitAdvances(g, cfg, s, i);
      VisitPacks(g, cfg, s, i);
      var r := Visit(g, cfg, s, i);
      PassPacks(g, cfg, r.state, if r.executed then i else i + 1);
    }
  }

  /** Between cycles every packed node has completed together with its parent. */
  lemma StepPacks(g: Graph, cfg: Config, s: State)
    requires Structure(g, s, {}) && Packing(g, cfg, s, 0)
    ensures var r := Step(g, cfg, s);
            && Packing(g, cfg, r, 0)
            && forall v :: 0 <= v < |g.nodes| && r.entry[v].Packed? && r.entry[v].parent < |g.nodes| ==>
                 r.complete[v] == r.complete[r.entry[v].parent]
  {
    PassPacks(g, cfg, s, 0);
    var p := Pass(g, cfg, s, 0);
    var r := Step(g, cfg, s);
    forall v | 0 <= v < |g.nodes| && r.entry[v].Packed?
      ensures Link(g, cfg, r, 0, r.entry[v].parent, v) && r.complete[v] == r.complete[r.entry[v].parent]
    {
      LinkSettles(g, cfg, p, r, p.entry[v].parent, v);
    }
  }

  /** Once the queue has been passed, the two have completed together. */
  lemma LinkSettles(g: Graph, cfg: Config, p: State, r: State, u: nat, v: nat)
    requires Shape(g, p) && Shape(g, r) && v < |g.nodes| && Link(g, cfg, p, |p.executing|, u, v)
    requires r.complete == p.complete && r.timeBefore == p.timeBefore && r.numParents == p.numParents
    ensures r.complete[v] == r.complete[u] && Link(g, cfg, r, 0, u, v)
  {
  }

  lemma {:induction false} RunPacks(g: Graph, cfg: Config, s: State)
    requires Structure(g, s, {}) && Acyclic(g) && s.ready == [] && Packing(g, cfg, s, 0)
    ensures Packing(g, cfg, Run(g, cfg, s), 0)
    decreases Fuel(g, cfg, s)
  {
    StepBurnsFuel(g, cfg, s);
    StepPacks(g, cfg, s);
    var t := Step(g, cfg, s);
    if !Finished(g, t) {
      RunPacks(g, cfg, t);
    }
  }

  // ----- chains

  ghost predicate PackedChain(g: Graph, s: State, p: seq<nat>) {
    && |s.entry| == |g.nodes|
    && (forall k :: 0 <= k < |p| ==> p[k] < |g.nodes|)
    && (forall k :: 0 < k < |p| ==> s.entry[p[k]] == Packed(p[k - 1]))
  }

  function ChainLatency(g: Graph, cfg: Config, p: seq<nat>): nat
    requires forall k :: 0 <= k < |p| ==> p[k] < |g.nodes|
  {
    if p == [] then 0 else ChainLatency(g, cfg, p[..|p| - 1]) + Latency(g, cfg, p[|p| - 1])
  }

  lemma {:induction false} ChainTime(g: Graph, cfg: Config, s: State, p: seq<nat>)
    requires Packing(g, cfg, s, |s.executing|) && PackedChain(g, s, p) && |p| >= 2
    ensures var last, c := p[|p| - 1], s.complete[p[0]];
            && c >= 0 && s.complete[last] == c
            && s.timeBefore[last] >= At(cfg, c) + ChainLatency(g, cfg, p[..|p| - 1])
            && s.timeBefore[last] + Latency(g, cfg, last) < At(cfg, c + 1)
    decreases |p|
  {
    var k := |p| - 1;
    var q := p[..k];
    assert s.entry[p[k]] == Packed(p[k - 1]);
    assert Link(g, cfg, s, |s.executing|, p[k - 1], p[k]);
    if k == 1 {
      assert q[..0] == [] && ChainLatency(g, cfg, q) == Latency(g, cfg, p[0]);
    } else {
      ChainTime(g, cfg, s, q);
    }
  }

  lemma ChainFits(g: Graph, cfg: Config, s: State, p: seq<nat>)
    requires Packing(g, cfg, s, |s.executing|) && PackedChain(g, s, p) && |p| >= 2
    ensures forall k :: 0 <= k < |p| ==> s.complete[p[k]] == s.complete[p[0]]
    ensures ChainLatency(g, cfg, p) < cfg.cycleTime
  {
    ChainTime(g, cfg, s, p);
    NextCycle(cfg, s.complete[p[0]]);
    forall k | 0 <= k < |p| ensures s.complete[p[k]] == s.complete[p[0]] {
      if k > 0 { ChainTime(g, cfg, s, p[..k + 1]); }
    }
  }

  lemma NextCycle(cfg: Config, c: nat)
    ensures At(cfg, c + 1) == At(cfg, c) + cfg.cycleTime
  {
  }

  lemma RunDrained(g: Graph, cfg: Config, s: State)
    requires Structure(g, s, {}) && Acyclic(g) && s.ready == []
    ensures Run(g, cfg, s).executing == []
  {
    var r := Run(g, cfg, s);
    if r.executing != [] {
      assert r.executing[0] in r.executing;
      assert OnePhase(g, r, r.executing[0]);
      FinishedCompletes(g, r, r.executing[0]);
    }
  }

  /** In the final schedule, operations chained by packing complete in one cycle and their
      latencies add up to less than the clock period. */
  lemma PackingFitsClock(g: Graph, cfg: Config, s: State, p: seq<nat>)
    requires Acyclic(g) && Initial(g, s) && |p| >= 2 && PackedChain(g, Run(g, cfg, s), p)
    ensures var r := Run(g, cfg, s);
            && (forall k :: 0 <= k < |p| ==> r.complete[p[k]] == r.complete[p[0]])
            && ChainLatency(g, cfg, p) < cfg.cycleTime
  {
    assert Packing(g, cfg, s, 0);
    RunPacks(g, cfg, s);
    RunDrained(g, cfg, s);
    ChainFits(g, cfg, Run(g, cfg, s), p);
  }
}
