/** The graph that the builder's tables are turned into: which edges it has for a given trace, and why it
    has no cycle. */
module InitialGraph {
  import opened ExecNodes
  import opened DependenceGraph
  import C = ControlDependence
  import M = MemoryDependence
  import R = RegisterDependence
  import opened TraceParsing
  import opened TraceLinks
  import opened Dddg

  type Pair = (nat, nat)

  /** Adds an edge unless it is a self loop or already present: the first edge between two nodes
      keeps its kind. */
  function AddEdge(edges: map<Pair, nat>, p: Pair, parid: nat): map<Pair, nat> {
    if p.0 == p.1 || p in edges then edges else edges[p := parid]
  }

  function AddRegisterEdges(edges: map<Pair, nat>, es: seq<R.RegEdge>): map<Pair, nat> {
    if es == [] then edges
    else
      var n := |es| - 1;
      AddEdge(AddRegisterEdges(edges, es[..n]), (es[n].src, es[n].dst), es[n].tag % 256)
  }

  predicate IsRegisterPair(es: seq<R.RegEdge>, p: Pair) {
    exists k :: 0 <= k < |es| && es[k].src == p.0 && es[k].dst == p.1
  }

  /** The kind of the edge between two nodes: the first register operand, else memory, else control. */
  ghost predicate Kind(edges: map<Pair, nat>, reg: seq<R.RegEdge>, mem: set<Pair>, ctrl: set<Pair>, p: Pair) {
    && (p in edges <==> p.0 != p.1 && (IsRegisterPair(reg, p) || p in mem || p in ctrl))
    && (p in edges ==>
          if IsRegisterPair(reg, p) then
            exists k :: && 0 <= k < |reg| && reg[k].src == p.0 && reg[k].dst == p.1 && edges[p] == reg[k].tag % 256
                        && !IsRegisterPair(reg[..k], p)
          else edges[p] == if p in mem then MEMORY_EDGE else CONTROL_EDGE)
  }

  lemma {:induction false} RegisterKinds(es: seq<R.RegEdge>, p: Pair)
    ensures Kind(AddRegisterEdges(map[], es), es, {}, {}, p)
    decreases |es|
  {
    if es != [] {
      var n := |es| - 1;
      RegisterKinds(es[..n], p);
      var before := AddRegisterEdges(map[], es[..n]);
      if IsRegisterPair(es[..n], p) {
        var k :| 0 <= k < n && es[..n][k].src == p.0 && es[..n][k].dst == p.1;
        assert es[k].src == p.0 && es[k].dst == p.1;
        if p in before {
          var j :| && 0 <= j < n && es[..n][j].src == p.0 && es[..n][j].dst == p.1 && before[p] == es[..n][j].tag % 256
                   && !IsRegisterPair(es[..n][..j], p);
          assert es[..n][..j] == es[..j] && es[..n][j] == es[j];
        }
      } else if es[n].src == p.0 && es[n].dst == p.1 {
        assert IsRegisterPair(es, p) && es[..n] == es[..n];
      }
    }
  }

  /** Builds the graph's edges from the three tables, registers first, then memory, then control. */
  method OutputDddg(reg: seq<R.RegEdge>, mem: set<Pair>, ctrl: set<Pair>) returns (edges: map<Pair, nat>)
    ensures forall p :: Kind(edges, reg, mem, ctrl, p)
  {
    edges := map[];
    for k := 0 to |reg|
      invariant edges == AddRegisterEdges(map[], reg[..k])
    {
      assert reg[..k + 1][..k] == reg[..k];
      edges := AddEdge(edges, (reg[k].src, reg[k].dst), reg[k].tag % 256);
    }
    assert reg[..|reg|] == reg;
    ghost var registers := edges;
    edges := AddAll(edges, mem, MEMORY_EDGE);
    edges := AddAll(edges, ctrl, CONTROL_EDGE);
    forall p ensures Kind(edges, reg, mem, ctrl, p) {
      RegisterKinds(reg, p);
      assert Kind(registers, reg, {}, {}, p);
    }
  }

  /** A register edge has the kind of its first operand's tag, in one byte. */
  lemma RegisterKindIff(edges: map<Pair, nat>, reg: seq<R.RegEdge>, mem: set<Pair>, ctrl: set<Pair>, k: nat, kind: nat)
    requires k < |reg| && reg[k].src != reg[k].dst && !IsRegisterPair(reg[..k], (reg[k].src, reg[k].dst))
    requires Kind(edges, reg, mem, ctrl, (reg[k].src, reg[k].dst)) && kind < 256
    ensures (reg[k].src, reg[k].dst) in edges
    ensures edges[(reg[k].src, reg[k].dst)] == kind <==> reg[k].tag % 256 == kind
  {
    var p := (reg[k].src, reg[k].dst);
    assert IsRegisterPair(reg, p);
    var j :| && 0 <= j < |reg| && reg[j].src == p.0 && reg[j].dst == p.1 && edges[p] == reg[j].tag % 256
             && !IsRegisterPair(reg[..j], p);
    if j < k { PairBefore(reg, p, j, k); }
    if k < j { PairBefore(reg, p, k, j); }
  }

  lemma PairBefore(reg: seq<R.RegEdge>, p: Pair, j: nat, k: nat)
    requires j < k <= |reg| && reg[j].src == p.0 && reg[j].dst == p.1
    ensures IsRegisterPair(reg[..k], p)
  {
    assert reg[..k][j] == reg[j];
  }

  /** So the edges for the 5th, 6th, 11th and 255th operand, and those of 256 more, read as other kinds. */
  lemma OperandsThatLookOtherwise(edges: map<Pair, nat>, tag: nat)
    requires Kind(edges, [R.RegEdge(0, 1, tag)], {}, {}, (0, 1))
    ensures (0, 1) in edges
    ensures tag % 256 == 5 ==> edges[(0, 1)] == REGISTER_EDGE
    ensures tag % 256 == 6 ==> edges[(0, 1)] == FUSED_BRANCH_EDGE
    ensures tag % 256 == 11 ==> edges[(0, 1)] == CONTROL_EDGE
    ensures tag % 256 == 255 ==> edges[(0, 1)] == MEMORY_EDGE
  {
    var reg := [R.RegEdge(0, 1, tag)];
    assert reg[..0] == [];
    RegisterKindIff(edges, reg, {}, {}, 0, tag % 256);
  }

  method AddAll(before: map<Pair, nat>, pairs: set<Pair>, parid: nat) returns (edges: map<Pair, nat>)
    ensures forall p :: p in edges <==> p in before || (p in pairs && p.0 != p.1)
    ensures forall p :: p in edges ==> edges[p] == if p in before then before[p] else parid
  {
    edges := before;
    var todo := pairs;
    while todo != {}
      invariant todo <= pairs
      invariant forall p :: p in edges <==> p in before || (p in pairs - todo && p.0 != p.1)
      invariant forall p :: p in edges ==> edges[p] == if p in before then before[p] else parid
      decreases todo
    {
      var p :| p in todo;
      edges := AddEdge(edges, p, parid);
      todo := todo - {p};
    }
  }

  // ----- the edges of a trace

  /** `edges` is what the trace means: the register, memory and control edges of its events, with their kinds. */
  ghost predicate TraceEdges(trace: seq<Record>, readyMode: bool, edges: map<Pair, nat>) {
    var p := ParseAll(trace);
    forall q: Pair :: Kind(edges, R.RegisterEdges(p.reg), M.MemoryEdges(p.mem, readyMode), C.ControlEdges(p.insts), q)
  }

  /** From trace to edges, for the part of the trace that makes sense. */
  method BuildEdges(trace: seq<Record>, readyMode: bool) returns (edges: map<Pair, nat>, parsed: nat)
    requires IdsIncrease(trace)
    ensures parsed <= |trace| && Readable(trace[..parsed]) && TraceEdges(trace[..parsed], readyMode, edges)
    ensures parsed < |trace| ==> !Parsable(ParseAll(trace[..parsed]), trace[parsed])
  {
    var b := new Builder(readyMode);
    parsed := b.BuildInitialDddg(trace);
    edges := OutputDddg(b.registers.edges, b.memory.edges, b.control.edges);
  }

  /** Control edges go forward in the trace. */
  lemma ControlEdgesForward(insts: seq<C.Inst>, q: Pair)
    requires Increasing(insts) && q in C.ControlEdges(insts)
    ensures q.0 < q.1 && q.0 in Opcodes(insts) && q.1 in Opcodes(insts)
  {
    var i, j :| 0 <= i < |insts| && 0 <= j < |insts| && C.Depends(insts, i, j) && q == (insts[i].id, insts[j].id);
    OpcodesContain(insts, i);
    OpcodesContain(insts, j);
  }

  lemma RegisterEdgesKnown(reg: seq<R.Event>, nodes: map<nat, MicroOp>, q: Pair)
    requires RegistersLinked(reg, nodes) && IsRegisterPair(R.RegisterEdges(reg), q)
    ensures q.0 <= q.1 && q.0 in nodes && q.1 in nodes
  {
    var es := R.RegisterEdges(reg);
    var k :| 0 <= k < |es| && es[k].src == q.0 && es[k].dst == q.1;
    R.RegisterEdgesForward(reg, es[k]);
    var n, m := R.RegisterEdgeOrigin(reg, es[k]);
    assert reg[n] in reg && reg[m] in reg;
  }

  /** Whatever mix of records a trace holds, every edge joins two of its nodes, from a smaller to a larger id. */
  lemma EveryEdgeForward(trace: seq<Record>, readyMode: bool, edges: map<Pair, nat>, q: Pair)
    requires IdsIncrease(trace) && TraceEdges(trace, readyMode, edges) && q in edges
    ensures q.0 < q.1 && q.0 in Opcodes(Instructions(trace)) && q.1 in Opcodes(Instructions(trace))
  {
    var p := ParseAll(trace);
    TraceLinked(trace, |trace|);
    assert trace[..|trace|] == trace;
    InstructionsParsed(trace);
    assert Kind(edges, R.RegisterEdges(p.reg), M.MemoryEdges(p.mem, readyMode), C.ControlEdges(p.insts), q);
    if IsRegisterPair(R.RegisterEdges(p.reg), q) {
      RegisterEdgesKnown(p.reg, Opcodes(p.insts), q);
    } else if q in M.MemoryEdges(p.mem, readyMode) {
      M.MemoryEdgesForward(p.mem, readyMode, q.0, q.1);
    } else {
      ControlEdgesForward(p.insts, q);
    }
  }

  // ----- what the edges order

  /** A register operand waits for the last write of its register before it. */
  lemma ReadWaits(trace: seq<Record>, readyMode: bool, edges: map<Pair, nat>, n: nat, k: nat)
    requires TraceEdges(trace, readyMode, edges)
    requires var reg := ParseAll(trace).reg;
      n < |reg| && reg[n].Read? && R.IsLastWrite(reg, n, reg[n].reg, k) && reg[k].id != reg[n].id
    ensures var reg := ParseAll(trace).reg; (reg[k].id, reg[n].id) in edges
  {
    var p := ParseAll(trace);
    R.ReadsWaitForLastWrite(p.reg, n, k);
    var e := R.RegEdge(p.reg[k].id, p.reg[n].id, p.reg[n].tag);
    var es := R.RegisterEdges(p.reg);
    var j :| 0 <= j < |es| && es[j] == e;
    assert Kind(edges, es, M.MemoryEdges(p.mem, readyMode), C.ControlEdges(p.insts), (e.src, e.dst));
  }

  /** Dropping self loops loses no order between different nodes. */
  lemma {:induction false} WithoutSelfLoops(s: set<Pair>, t: set<Pair>, p: seq<nat>)
    requires M.IsChain(s, p) && p[0] != p[|p| - 1]
    requires forall q: Pair :: q in s && q.0 != q.1 ==> q in t
    ensures M.Reaches(t, p[0], p[|p| - 1])
    decreases |p|
  {
    var n := |p| - 1;
    var u, w, v := p[0], p[n - 1], p[n];
    assert (p[n - 1], p[n - 1 + 1]) in s;
    var front := p[..n];
    if u == w {
      M.EdgeReaches(t, u, v);
    } else {
      forall i | 0 <= i < |front| - 1 ensures (front[i], front[i + 1]) in s { assert (p[i], p[i + 1]) in s; }
      WithoutSelfLoops(s, t, front);
      if w != v { M.ReachesStep(t, u, w, v); }
    }
  }

  /** In every trace, an access waits, over edges of the graph, for every earlier store whose start address it
      reads or stores to, unless a transfer or a change of ready bits wrote that byte in between. */
  lemma SameAddressWaits(trace: seq<Record>, readyMode: bool, edges: map<Pair, nat>, i: nat, j: nat)
    requires TraceEdges(trace, readyMode, edges)
    requires var mem := ParseAll(trace).mem;
      && i < j < |mem| && mem[i].Store? && mem[i].id != mem[j].id
      && M.Waits(mem[j], mem[i].addr) && M.StoresOnly(mem, i, j, mem[i].addr)
    ensures var mem := ParseAll(trace).mem; M.Reaches(edges.Keys, mem[i].id, mem[j].id)
  {
    var p := ParseAll(trace);
    var s := M.MemoryEdges(p.mem, readyMode);
    M.SameAddressOrdered(p.mem, i, j, readyMode);
    var c :| M.IsChain(s, c) && c[0] == p.mem[i].id && c[|c| - 1] == p.mem[j].id;
    forall q: Pair | q in s && q.0 != q.1 ensures q in edges.Keys {
      assert Kind(edges, R.RegisterEdges(p.reg), s, C.ControlEdges(p.insts), q);
    }
    WithoutSelfLoops(s, edges.Keys, c);
  }

  // ----- the graph

  /** The edges out of position `i` to positions below `j`. */
  function OutEdges(insts: seq<C.Inst>, edges: map<Pair, nat>, i: nat, j: nat): seq<Edge>
    requires i < |insts| && j <= |insts|
  {
    if j == 0 then []
    else
      var q := (insts[i].id, insts[j - 1].id);
      OutEdges(insts, edges, i, j - 1) + if q in edges then [Edge(j - 1, edges[q])] else []
  }

  /** One vertex per instruction, in trace order, with its opcode; placement is the user's choice. */
  function VertexOf(inst: C.Inst, hostDma: nat -> bool, place: nat -> Placement): Node {
    Node(inst.op, hostDma(inst.id), place(inst.id))
  }

  function GraphOf(insts: seq<C.Inst>, edges: map<Pair, nat>, hostDma: nat -> bool, place: nat -> Placement): Digraph {
    Digraph(seq(|insts|, i requires 0 <= i < |insts| => VertexOf(insts[i], hostDma, place)),
            seq(|insts|, i requires 0 <= i < |insts| => OutEdges(insts, edges, i, |insts|)))
  }

  /** The edge to position `d` is there exactly when the table has it, once, with its kind. */
  lemma {:induction false} OutEdgesAre(insts: seq<C.Inst>, edges: map<Pair, nat>, i: nat, j: nat)
    requires i < |insts| && j <= |insts|
    ensures var es := OutEdges(insts, edges, i, j);
      && (forall k :: 0 <= k < |es| ==>
            && es[k].dst < j && (insts[i].id, insts[es[k].dst].id) in edges
            && es[k].parid == edges[(insts[i].id, insts[es[k].dst].id)])
      && (forall k, l :: 0 <= k < l < |es| ==> es[k].dst < es[l].dst)
      && (forall d: nat :: d < j && (insts[i].id, insts[d].id) in edges ==>
            Edge(d, edges[(insts[i].id, insts[d].id)]) in es)
    decreases j
  {
    if j > 0 { OutEdgesAre(insts, edges, i, j - 1); }
  }

  lemma GraphWellFormed(insts: seq<C.Inst>, edges: map<Pair, nat>, hostDma: nat -> bool, place: nat -> Placement)
    ensures WellFormed(GraphOf(insts, edges, hostDma, place))
  {
    var g := GraphOf(insts, edges, hostDma, place);
    forall u | 0 <= u < |g.out|
      ensures forall k :: 0 <= k < |g.out[u]| ==> g.out[u][k].dst < |g.nodes|
      ensures forall j, k :: 0 <= j < k < |g.out[u]| ==> g.out[u][j].dst != g.out[u][k].dst
    {
      OutEdgesAre(insts, edges, u, |insts|);
    }
  }

  /** The vertices are the instructions with their opcodes, the edges those of the table with their kinds. */
  lemma GraphHasEdges(insts: seq<C.Inst>, edges: map<Pair, nat>, hostDma: nat -> bool, place: nat -> Placement,
                      g: Graph, i: nat, j: nat)
    requires g == GraphOf(insts, edges, hostDma, place) && i < |insts| && j < |insts|
    ensures HasEdge(g, i, j) <==> (insts[i].id, insts[j].id) in edges
    ensures HasEdge(g, i, j) ==> Edge(j, edges[(insts[i].id, insts[j].id)]) in g.out[i]
    ensures g.nodes[i] == Node(insts[i].op, hostDma(insts[i].id), place(insts[i].id))
  {
    OutEdgesAre(insts, edges, i, |insts|);
    if HasEdge(g, i, j) {
      var e :| e in g.out[i] && e.dst == j;
      var k :| 0 <= k < |g.out[i]| && g.out[i][k] == e;
    }
  }

  /** `g` is the initial graph of the trace. */
  ghost predicate IsTraceGraph(g: Digraph, trace: seq<Record>, readyMode: bool, hostDma: nat -> bool,
                               place: nat -> Placement) {
    exists edges :: TraceEdges(trace, readyMode, edges) && g == GraphOf(Instructions(trace), edges, hostDma, place)
  }

  /** From trace to graph. */
  method BuildGraph(trace: seq<Record>, readyMode: bool, hostDma: nat -> bool, place: nat -> Placement)
    returns (g: Graph, parsed: nat)
    requires IdsIncrease(trace)
    ensures parsed <= |trace| && Readable(trace[..parsed])
    ensures IsTraceGraph(g, trace[..parsed], readyMode, hostDma, place)
    ensures parsed < |trace| ==> !Parsable(ParseAll(trace[..parsed]), trace[parsed])
  {
    var edges;
    edges, parsed := BuildEdges(trace, readyMode);
    var insts := Instructions(trace[..parsed]);
    GraphWellFormed(insts, edges, hostDma, place);
    g := GraphOf(insts, edges, hostDma, place);
  }

  /** Every edge of the graph of a trace leads to a later instruction. */
  lemma GraphForward(g: Graph, trace: seq<Record>, readyMode: bool, hostDma: nat -> bool,
                     place: nat -> Placement, u: nat, v: nat)
    requires IdsIncrease(trace) && IsTraceGraph(g, trace, readyMode, hostDma, place) && HasEdge(g, u, v)
    ensures u < v
  {
    var edges :| TraceEdges(trace, readyMode, edges) && g == GraphOf(Instructions(trace), edges, hostDma, place);
    var insts := Instructions(trace);
    EdgeEndsConnected(g, u, v);
    GraphHasEdges(insts, edges, hostDma, place, g, u, v);
    EveryEdgeForward(trace, readyMode, edges, (insts[u].id, insts[v].id));
    TraceLinked(trace, |trace|);
    assert trace[..|trace|] == trace;
    InstructionsParsed(trace);
  }

  /** So the initial graph is acyclic, as the scheduler requires. */
  lemma TraceGraphAcyclic(g: Graph, trace: seq<Record>, readyMode: bool, hostDma: nat -> bool, place: nat -> Placement)
    requires IdsIncrease(trace) && IsTraceGraph(g, trace, readyMode, hostDma, place)
    ensures Acyclic(g)
  {
    forall u: nat, v: nat | HasEdge(g, u, v) ensures u < v { GraphForward(g, trace, readyMode, hostDma, place, u, v); }
    ForwardEdgesAcyclic(g);
  }
}
