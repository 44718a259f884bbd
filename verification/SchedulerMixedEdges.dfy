/** Two parents that complete in one cycle, only one of which lets the child start at once: the order in which they
    are visited decides, so the child of a load can start in the load's own cycle. */
module SchedulerMixedEdges {
  import opened ExecNodes
  import opened DependenceGraph
  import opened Scheduler
  import opened SchedulerStructure
  import opened SchedulerRun
  import opened SchedulerTiming
  import opened SchedulerLiveness
  import opened SchedulerEdges

  /** A load from a register array and an addition feed an addition, the second by a register edge. */
  function LoadAndAdd(name: string): Graph {
    var place := InRegister(name);
    Digraph([Node(Load, false, place), Node(Add, false, place), Node(Add, false, place)],
            [[Edge(2, 1)], [Edge(2, 5)], []])
  }

  lemma ItsEdges(name: string, u: nat, v: nat)
    ensures HasEdge(LoadAndAdd(name), u, v) <==> (u == 0 || u == 1) && v == 2
  {
    var g := LoadAndAdd(name);
    assert g.out[0] == [Edge(2, 1)] && g.out[1] == [Edge(2, 5)];
    assert g.out[0][0] in g.out[0] && g.out[1][0] in g.out[1];
  }

  lemma ItsShape(name: string)
    ensures var g := LoadAndAdd(name);
      && Acyclic(g) && Parents(g, 0) == Parents(g, 1) == {} && Parents(g, 2) == {0, 1}
      && Total(g) == {0, 1, 2} && Roots(g, 3) == [0, 1]
  {
    var g := LoadAndAdd(name);
    forall u: nat, v: nat ensures HasEdge(g, u, v) <==> (u == 0 || u == 1) && v == 2 { ItsEdges(name, u, v); }
    ForwardEdgesAcyclic(g);
    assert 0 in Parents(g, 2) && 1 in Parents(g, 2);
    assert Roots(g, 1) == [0];
    assert Roots(g, 2) == [0, 1];
  }

  /** Completing a node with one child. */
  lemma OneChild(g: Graph, cfg: Config, s: State, i: nat, e: Edge)
    requires Shape(g, s) && i < |s.executing| && s.executing[i] < |g.nodes| && g.out[s.executing[i]] == [e]
    requires e.dst < |g.nodes|
    ensures Finish(g, cfg, s, i) ==
      UpdateChild(g, cfg, Retire(s, i), s.executing[i], e, TimeAfter(g, cfg, s, s.executing[i]))
  {
    var u := s.executing[i];
    var after := TimeAfter(g, cfg, s, u);
    var m := UpdateChild(g, cfg, Retire(s, i), u, g.out[u][0], after);
    assert g.out[u][1..] == [];
    assert UpdateChildren(g, cfg, m, u, g.out[u][1..], after) == m;
  }

  lemma NoChild(g: Graph, cfg: Config, s: State, i: nat)
    requires Shape(g, s) && i < |s.executing| && s.executing[i] < |g.nodes| && g.out[s.executing[i]] == []
    ensures Finish(g, cfg, s, i) == Retire(s, i)
  {
  }

  lemma LoadVisited(g: Graph, cfg: Config, s: State, name: string) returns (t: State)
    requires g == LoadAndAdd(name) && Shape(g, s) && s.executing == [0, 1] && s.numParents == [0, 0, 2]
    ensures Visit(g, cfg, s, 0) == Visited(t, true) && t.executing == [1] && t.numParents == [0, 0, 1]
    ensures t.complete[0] == s.cycle == t.cycle && t.executed == s.executed + 1
  {
    var d := Dispatch(g, s, 0);
    OneChild(g, cfg, d, 0, Edge(2, 1));
    t := Finish(g, cfg, d, 0);
  }

  lemma AddVisited(g: Graph, cfg: Config, s: State, name: string) returns (t: State)
    requires g == LoadAndAdd(name) && Shape(g, s) && s.executing == [1] && s.numParents == [0, 0, 1]
    ensures Visit(g, cfg, s, 0) == Visited(t, true) && t.executing == [2] && t.complete[0] == s.complete[0]
    ensures t.cycle == s.cycle && t.executed == s.executed + 1
  {
    var d := Dispatch(g, s, 1);
    OneChild(g, cfg, d, 0, Edge(2, 5));
    t := Finish(g, cfg, d, 0);
  }

  lemma ChildVisited(g: Graph, cfg: Config, s: State, name: string) returns (t: State)
    requires g == LoadAndAdd(name) && Shape(g, s) && s.executing == [2]
    ensures Visit(g, cfg, s, 0) == Visited(t, true) && t.executing == [] && t.complete[0] == s.complete[0]
    ensures t.start[2] == s.cycle && t.executed == s.executed + 1
  {
    var d := Dispatch(g, s, 2);
    NoChild(g, cfg, d, 0);
    t := Finish(g, cfg, d, 0);
  }

  lemma OnePass(g: Graph, cfg: Config, s: State, name: string)
    requires g == LoadAndAdd(name) && Structure(g, s, {}) && s.executing == [0, 1] && s.numParents == [0, 0, 2]
    ensures var p := Pass(g, cfg, s, 0);
      p.start[2] == s.cycle == p.complete[0] && p.executed == s.executed + 3
  {
    VisitAdvances(g, cfg, s, 0);
    var a := LoadVisited(g, cfg, s, name);
    VisitAdvances(g, cfg, a, 0);
    var b := AddVisited(g, cfg, a, name);
    VisitAdvances(g, cfg, b, 0);
    var c := ChildVisited(g, cfg, b, name);
    assert Pass(g, cfg, c, 0) == c;
    assert Pass(g, cfg, b, 0) == c;
    assert Pass(g, cfg, a, 0) == c;
  }

  ghost predicate Ready(g: Graph, s: State, name: string) {
    && g == LoadAndAdd(name) && Acyclic(g) && |Total(g)| == 3 && Structure(g, s, {})
    && s.executing == [0, 1] && s.ready == [] && s.numParents == [0, 0, 2] && s.executed == 0
  }

  /** The edge from the load separates, and yet the child starts in the cycle in which the load completes. */
  lemma SeparatedChildStartsAtOnce(g: Graph, cfg: Config, busy: map<Slot, nat>, loads: map<Slot, nat>,
                                   stores: map<Slot, nat>, s: State, name: string)
    requires g == LoadAndAdd(name) && s == Prepare(g, busy, loads, stores)
    ensures Ready(g, s, name) && SeparatedAtOnce(g, Run(g, cfg, s), 0, 0, 2)
  {
    ItsReady(g, busy, loads, stores, s, name);
    FromReady(g, cfg, s, name);
  }

  /** Edge `k` of `u` separates `v`, which starts in the cycle in which `u` completes. */
  ghost predicate SeparatedAtOnce(g: Graph, r: State, u: nat, k: nat, v: nat) {
    && Shape(g, r) && IsEdge(g, u, k, v) && v < |g.nodes|
    && Separates(g.out[u][k].parid, g.nodes[u].op, g.nodes[v].op) && r.start[v] == r.complete[u]
  }

  lemma ItsReady(g: Graph, busy: map<Slot, nat>, loads: map<Slot, nat>, stores: map<Slot, nat>, s: State, name: string)
    requires g == LoadAndAdd(name) && s == Prepare(g, busy, loads, stores)
    ensures Ready(g, s, name)
  {
    ItsShape(name);
    ItsStart(g, busy, loads, stores, name);
    PreparedState(g, busy, loads, stores);
  }

  lemma FromReady(g: Graph, cfg: Config, s: State, name: string)
    requires Ready(g, s, name)
    ensures SeparatedAtOnce(g, Run(g, cfg, s), 0, 0, 2)
  {
    OnePass(g, cfg, s, name);
    OneCycle(g, cfg, s, Pass(g, cfg, s, 0));
    LoadSeparates(g, Run(g, cfg, s), name);
  }

  lemma LoadSeparates(g: Graph, r: State, name: string)
    requires g == LoadAndAdd(name) && Shape(g, r) && r.start[2] == r.complete[0]
    ensures SeparatedAtOnce(g, r, 0, 0, 2)
  {
  }

  lemma ItsStart(g: Graph, busy: map<Slot, nat>, loads: map<Slot, nat>, stores: map<Slot, nat>, name: string)
    requires g == LoadAndAdd(name) && Parents(g, 0) == Parents(g, 1) == {} && Parents(g, 2) == {0, 1}
    requires Roots(g, 3) == [0, 1]
    ensures var s := Prepare(g, busy, loads, stores);
      s.executing == [0, 1] && s.ready == [] && s.numParents == [0, 0, 2] && s.executed == 0
  {
    var counts := ParentCounts(g);
    assert |counts| == 3 && counts[0] == 0 && counts[1] == 0 && counts[2] == 2;
  }

  /** A run that is over after one pass. */
  lemma OneCycle(g: Graph, cfg: Config, s: State, p: State)
    requires Acyclic(g) && Structure(g, s, {}) && s.ready == [] && p == Pass(g, cfg, s, 0) && p.executed == |Total(g)|
    ensures Run(g, cfg, s).start == p.start && Run(g, cfg, s).complete == p.complete
  {
    EndCycleEffect(g, p);
    RunStep(g, cfg, s);
  }
}
