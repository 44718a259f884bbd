/** When a node starts, said with opcodes, edge kinds and cycles: which edges let a child start in the cycle in
    which its parent completes, and which make it wait for the next. */
module SchedulerEdges {
  import opened ExecNodes
  import opened DependenceGraph
  import opened Scheduler
  import opened SchedulerStructure
  import opened SchedulerRun
  import opened SchedulerTiming
  import opened SchedulerLiveness
  import opened SchedulerBegin
  import opened SchedulerGreedy

  // ----- opcodes

  predicate Unpacked(op: MicroOp) {
    op in {Load, Store, FAdd, FSub, FMul, FDiv, FRem}
  }

  /** Operations without a latency of their own. */
  predicate Instant(op: MicroOp) {
    op in {Br, Switch, Call, Phi, GetElementPtr, Alloca, SpecialMath, SetSamplingFactor, DmaLoad, DmaStore, DmaFence,
           SetReadyBits, HostLoad, HostStore, Other}
  }

  lemma InstantIff(n: Node, cycleTime: nat)
    requires cycleTime > 0
    ensures ZeroLatency(n, cycleTime) <==> Instant(n.op)
  {
    if n.IsFp() { assert FpLatency(n.op) * cycleTime > 0; }
  }

  // ----- edges

  ghost predicate IsEdge(g: Graph, u: nat, k: nat, v: nat) {
    u < |g.nodes| && k < |g.out[u]| && g.out[u][k].dst == v
  }

  /** The edge makes the child wait whatever the clock: a control edge, or one with a memory or floating-point
      operation at an end. Register edges, fused branches, calls, returns and instant operations do not. */
  predicate Separates(parid: nat, parent: MicroOp, child: MicroOp) {
    && parid !in {5, 6} && parent !in {Call, Ret}
    && (parid == 11 || (!Instant(parent) && !Instant(child) && (Unpacked(parent) || Unpacked(child))))
  }

  /** Parent and child are operations with a latency that may share a cycle if they fit. */
  predicate MayPack(parid: nat, parent: MicroOp, child: MicroOp) {
    && parid !in {5, 6, 11} && parent !in {Call, Ret}
    && !Instant(parent) && !Instant(child) && !Unpacked(parent) && !Unpacked(child)
  }

  /** `v`, begun as early as it can, is done before cycle `c` ends. */
  ghost predicate FitsIn(g: Graph, cfg: Config, complete: seq<int>, v: nat, c: nat)
    requires Acyclic(g) && AllComplete(g, complete) && v < |g.nodes|
  {
    EarliestBegin(g, cfg, complete, v) + FuLatency(g.nodes[v].op, cfg.cycleTime) < (c + 1) * cfg.cycleTime
  }

  /** Edge `k` of `u` lets `v` start in the cycle in which `u` completes. */
  ghost predicate AtOnce(g: Graph, cfg: Config, complete: seq<int>, u: nat, k: nat, v: nat)
    requires Acyclic(g) && AllComplete(g, complete) && v < |g.nodes| && IsEdge(g, u, k, v) && complete[u] >= 0
  {
    var parid, parent, child := g.out[u][k].parid, g.nodes[u].op, g.nodes[v].op;
    !Separates(parid, parent, child) && (MayPack(parid, parent, child) ==> FitsIn(g, cfg, complete, v, complete[u]))
  }

  lemma EdgeIsParent(g: Graph, complete: seq<int>, u: nat, k: nat, v: nat)
    requires AllComplete(g, complete) && IsEdge(g, u, k, v)
    ensures v < |g.nodes| && u in Parents(g, v) && complete[u] >= 0
  {
    assert g.out[u][k] in g.out[u];
    EdgeEndsConnected(g, u, v);
  }

  lemma RuleIs(u: Node, v: Node, parid: nat, cfg: Config, begin: nat, cycle: nat, uid: nat)
    requires cfg.cycleTime > 0
    ensures Admit(u, v, parid, cfg, begin, cycle, uid).Deferred? <==>
      || Separates(parid, u.op, v.op)
      || (MayPack(parid, u.op, v.op) && begin + FuLatency(v.op, cfg.cycleTime) >= At(cfg, cycle + 1))
  {
    InstantIff(u, cfg.cycleTime);
    InstantIff(v, cfg.cycleTime);
  }

  // ----- what a run makes of them

  /** Of the parents of `v`, none completes after `u`. */
  ghost predicate CompletesLast(g: Graph, complete: seq<int>, u: nat, v: nat)
    requires |complete| == |g.nodes|
  {
    u < |g.nodes| && forall p :: p in Parents(g, v) ==> p < |complete| && complete[p] <= complete[u]
  }

  /** Edge `k` of `u`, a parent that completes last, decides: `v` starts at once or in the next cycle, a scratchpad
      access no earlier. */
  ghost predicate Decides(g: Graph, cfg: Config, start: seq<int>, complete: seq<int>, u: nat, k: nat, v: nat)
    requires Acyclic(g) && AllComplete(g, complete) && |start| == |g.nodes| && v < |g.nodes|
  {
    && IsEdge(g, u, k, v) && complete[u] >= 0 && CompletesLast(g, complete, u, v)
    && var due := complete[u] + if AtOnce(g, cfg, complete, u, k, v) then 0 else 1;
       due <= start[v] && (!g.nodes[v].InSpad() ==> start[v] == due)
  }

  ghost predicate DecidedAt(g: Graph, cfg: Config, start: seq<int>, complete: seq<int>, v: nat)
    requires Acyclic(g) && AllComplete(g, complete) && |start| == |g.nodes| && v < |g.nodes|
  {
    exists u: nat, k: nat :: Decides(g, cfg, start, complete, u, k, v)
  }

  ghost predicate Decided(g: Graph, cfg: Config, start: seq<int>, complete: seq<int>) {
    && Acyclic(g) && AllComplete(g, complete) && |start| == |g.nodes|
    && (forall v: nat :: v < |g.nodes| && Parents(g, v) != {} ==> DecidedAt(g, cfg, start, complete, v))
  }

  /** In every run the edge of a parent that completes last decides when a node starts. */
  lemma RunDecided(g: Graph, cfg: Config, busy: map<Slot, nat>, loads: map<Slot, nat>, stores: map<Slot, nat>)
    requires Acyclic(g) && cfg.cycleTime > 0
    ensures Initial(g, Prepare(g, busy, loads, stores))
    ensures var r := Run(g, cfg, Prepare(g, busy, loads, stores)); Decided(g, cfg, r.start, r.complete)
  {
    PreparedState(g, busy, loads, stores);
    RunCompletes(g, cfg, Prepare(g, busy, loads, stores));
    var r := Run(g, cfg, Prepare(g, busy, loads, stores));
    forall v: nat | v < |g.nodes| && Parents(g, v) != {} ensures DecidedAt(g, cfg, r.start, r.complete, v) {
      StartsAsEarlyAsPossible(g, cfg, busy, loads, stores, v);
      var u: nat, k: nat :| StartsByEdge(g, cfg, r.start, r.complete, u, k, v);
      RuleDecides(g, cfg, r.start, r.complete, u, k, v);
    }
  }

  lemma RuleDecides(g: Graph, cfg: Config, start: seq<int>, complete: seq<int>, u: nat, k: nat, v: nat)
    requires Acyclic(g) && AllComplete(g, complete) && |start| == |g.nodes| && v < |g.nodes| && cfg.cycleTime > 0
    requires StartsByEdge(g, cfg, start, complete, u, k, v)
    ensures Decides(g, cfg, start, complete, u, k, v)
  {
    RuleIs(g.nodes[u], g.nodes[v], g.out[u][k].parid, cfg, EarliestBegin(g, cfg, complete, v), complete[u], u);
  }

  lemma LastEdge(g: Graph, cfg: Config, start: seq<int>, complete: seq<int>, v: nat) returns (u: nat, k: nat)
    requires Decided(g, cfg, start, complete) && v < |g.nodes| && Parents(g, v) != {}
    ensures Decides(g, cfg, start, complete, u, k, v)
  {
    assert DecidedAt(g, cfg, start, complete, v);
    u, k :| Decides(g, cfg, start, complete, u, k, v);
  }

  /** An edge that does not let its child start at once makes it start after the parent's cycle, unless another
      parent that completes in the same cycle does. */
  lemma ChildWaits(g: Graph, cfg: Config, start: seq<int>, complete: seq<int>, u: nat, k: nat, v: nat)
    requires Decided(g, cfg, start, complete) && v < |g.nodes| && IsEdge(g, u, k, v)
    ensures complete[u] >= 0
    ensures !AtOnce(g, cfg, complete, u, k, v) ==>
      start[v] > complete[u] || exists w: nat, j: nat ::
        IsEdge(g, w, j, v) && complete[w] == complete[u] && AtOnce(g, cfg, complete, w, j, v)
  {
    EdgeIsParent(g, complete, u, k, v);
    var w, j := LastEdge(g, cfg, start, complete, v);
    if complete[w] == complete[u] && AtOnce(g, cfg, complete, w, j, v) { assert IsEdge(g, w, j, v); }
  }

  /** No edge of the parents that complete last separates: the child starts with them, if it fits where it has to. */
  lemma ChildStartsAtOnce(g: Graph, cfg: Config, start: seq<int>, complete: seq<int>, c: nat, v: nat)
    requires Decided(g, cfg, start, complete) && v < |g.nodes| && Parents(g, v) != {} && !g.nodes[v].InSpad()
    requires forall p :: p in Parents(g, v) ==> p < |complete| && complete[p] <= c
    requires exists p :: p in Parents(g, v) && p < |complete| && complete[p] == c
    requires forall u: nat, k: nat :: IsEdge(g, u, k, v) && complete[u] == c ==> AtOnce(g, cfg, complete, u, k, v)
    ensures start[v] == c
  {
    var u, k := LastEdge(g, cfg, start, complete, v);
    EdgeIsParent(g, complete, u, k, v);
  }

  /** Every one separates: it starts in the next cycle, a scratchpad access no earlier. */
  lemma ChildStartsNext(g: Graph, cfg: Config, start: seq<int>, complete: seq<int>, c: nat, v: nat)
    requires Decided(g, cfg, start, complete) && v < |g.nodes| && Parents(g, v) != {}
    requires forall p :: p in Parents(g, v) ==> p < |complete| && complete[p] <= c
    requires exists p :: p in Parents(g, v) && p < |complete| && complete[p] == c
    requires forall u: nat, k: nat :: IsEdge(g, u, k, v) && complete[u] == c ==> !AtOnce(g, cfg, complete, u, k, v)
    ensures start[v] >= c + 1 && (!g.nodes[v].InSpad() ==> start[v] == c + 1)
  {
    var u, k := LastEdge(g, cfg, start, complete, v);
    EdgeIsParent(g, complete, u, k, v);
  }

  /** Operations that may pack share the cycle of the last parent if and only if they fit in it. */
  lemma PackedIff(g: Graph, cfg: Config, start: seq<int>, complete: seq<int>, c: nat, v: nat)
    requires Decided(g, cfg, start, complete) && v < |g.nodes| && Parents(g, v) != {}
    requires forall p :: p in Parents(g, v) ==> p < |complete| && complete[p] <= c
    requires exists p :: p in Parents(g, v) && p < |complete| && complete[p] == c
    requires forall u: nat, k: nat :: IsEdge(g, u, k, v) && complete[u] == c ==>
      MayPack(g.out[u][k].parid, g.nodes[u].op, g.nodes[v].op)
    ensures start[v] == c <==> FitsIn(g, cfg, complete, v, c)
  {
    var u, k := LastEdge(g, cfg, start, complete, v);
    EdgeIsParent(g, complete, u, k, v);
  }

  // ----- who takes part

  /** What executes: the nodes with an edge, and transfers even without one. */
  lemma ExecutedIff(g: Graph, cfg: Config, busy: map<Slot, nat>, loads: map<Slot, nat>, stores: map<Slot, nat>, v: nat)
    requires Acyclic(g) && v < |g.nodes|
    ensures Initial(g, Prepare(g, busy, loads, stores))
    ensures var n, r := g.nodes[v], Run(g, cfg, Prepare(g, busy, loads, stores));
      (r.start[v] >= 0 && r.complete[v] >= 0 <==>
        || (exists u: nat :: HasEdge(g, u, v)) || (exists w: nat :: HasEdge(g, v, w))
        || n.op in {DmaLoad, DmaStore, DmaFence} || (n.op in {HostLoad, HostStore} && n.hostDma))
  {
    var s := Prepare(g, busy, loads, stores);
    PreparedState(g, busy, loads, stores);
    RunCompletes(g, cfg, s);
    RunBound(g, cfg, s);
    assert NodeTimes(g, Run(g, cfg, s), v);
    ConnectedIff(g, v);
  }

  lemma ConnectedIff(g: Graph, v: nat)
    requires v < |g.nodes|
    ensures var n := g.nodes[v];
      Connected(g, v) <==>
        || (exists u: nat :: HasEdge(g, u, v)) || (exists w: nat :: HasEdge(g, v, w))
        || n.op in {DmaLoad, DmaStore, DmaFence} || (n.op in {HostLoad, HostStore} && n.hostDma)
  {
    if g.out[v] != [] { assert g.out[v][0] in g.out[v] && HasEdge(g, v, g.out[v][0].dst); }
    if u: nat :| HasEdge(g, u, v) { EdgeEndsConnected(g, u, v); }
    if Parents(g, v) != {} {
      var u :| u in Parents(g, v);
      assert HasEdge(g, u, v);
    }
  }

  /** Cycles from start to completion, by opcode. */
  function CyclesOf(op: MicroOp): nat {
    if op == FDiv then 16 else if op in {FAdd, FSub} then 5 else if op in {FMul, FRem} then 4
    else if op == SpecialMath then 3 else 0
  }

  lemma DurationIs(n: Node)
    ensures Duration(n) == CyclesOf(n.op)
  {
  }

  /** In every run, a node completes so many cycles after it started. */
  lemma LatencyIs(g: Graph, cfg: Config, busy: map<Slot, nat>, loads: map<Slot, nat>, stores: map<Slot, nat>, v: nat)
    requires Acyclic(g) && v < |g.nodes| && Connected(g, v)
    ensures Initial(g, Prepare(g, busy, loads, stores))
    ensures var r := Run(g, cfg, Prepare(g, busy, loads, stores));
      r.complete[v] == r.start[v] + CyclesOf(g.nodes[v].op)
  {
    var s := Prepare(g, busy, loads, stores);
    PreparedState(g, busy, loads, stores);
    RunCompletes(g, cfg, s);
    RunBound(g, cfg, s);
    assert NodeTimes(g, Run(g, cfg, s), v);
    DurationIs(g.nodes[v]);
  }

  /** At clocks of 1 ns and more every unit but the floating-point ones is done within a cycle; below, those that are
      synthesised for 6 ns are not. */
  lemma UnitFitsIff(op: MicroOp, cycleTime: nat)
    requires cycleTime > 0 && op !in {FAdd, FSub, FMul, FDiv, FRem}
    ensures FuLatency(op, cycleTime) <= cycleTime <==>
      || cycleTime >= 100
      || op !in {Add, Sub, Mul, UDiv, SDiv, URem, SRem, Shl, LShr, AShr, And, Or, Xor}
      || (op in {Shl, LShr, AShr} && cycleTime >= 70)
      || (op in {And, Or, Xor} && cycleTime >= 6)
  {
    var ns := cycleTime / 100;
    assert cycleTime >= 100 * ns;
  }
}
