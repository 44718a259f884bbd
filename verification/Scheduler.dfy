/** The cycle-by-cycle list scheduler of the standalone datapath, as functions on a state value.
    The scratchpad is asked for every access; the short-circuit flag of the source lives in the
    class that implements these functions. */
module Scheduler {
  import opened ExecNodes
  import opened DependenceGraph

  /** `ports` is the port count per partition, 0 meaning unlimited. */
  datatype Config = Config(cycleTime: nat, ports: nat, slots: set<Slot>)

  type Cycles = c: int | c > 0 witness 1

  /** How a node entered a queue, and which parent's completion brought it there (history only: no
      decision reads it). */
  datatype Entry = NotQueued | Root | Direct(parent: nat) | Packed(parent: nat) | Deferred(parent: nat)

  datatype State = State(
    executing: seq<nat>,
    ready: seq<nat>,
    numParents: seq<int>,
    start: seq<int>,
    complete: seq<int>,
    timeBefore: seq<nat>,
    inflight: map<nat, Cycles>,
    executed: nat,
    cycle: nat,
    busy: map<Slot, nat>,
    loads: map<Slot, nat>,
    stores: map<Slot, nat>,
    entry: seq<Entry>)

  ghost predicate Shape(g: Graph, s: State) {
    && |s.numParents| == |s.start| == |s.complete| == |s.timeBefore| == |s.entry| == |g.nodes|
  }

  /** Every scratchpad access names an existing partition. */
  ghost predicate Mapped(g: Graph, cfg: Config) {
    forall v :: 0 <= v < |g.nodes| && g.nodes[v].InSpad() ==> g.nodes[v].place.slot in cfg.slots
  }

  function Total(g: Graph): set<nat> {
    set v | 0 <= v < |g.nodes| && Connected(g, v)
  }

  function Done(s: State): set<nat> {
    set v | 0 <= v < |s.complete| && s.complete[v] >= 0
  }

  function At(cfg: Config, cycle: nat): nat {
    cycle * cfg.cycleTime
  }

  // ----- preparing

  function Roots(g: Graph, v: nat): seq<nat>
    requires v <= |g.nodes|
  {
    if v == 0 then []
    else if Connected(g, v - 1) && Parents(g, v - 1) == {} then Roots(g, v - 1) + [v - 1]
    else Roots(g, v - 1)
  }

  function Repeat<T>(x: T, n: nat): seq<T> {
    seq(n, _ => x)
  }

  function ParentCounts(g: Graph): seq<int> {
    seq(|g.nodes|, v requires 0 <= v < |g.nodes| => |Parents(g, v)|)
  }

  function RootEntries(g: Graph): seq<Entry> {
    seq(|g.nodes|, v requires 0 <= v < |g.nodes| => if Connected(g, v) && Parents(g, v) == {} then Root else NotQueued)
  }

  /** `busy`, `loads` and `stores` survive from an earlier invocation. */
  function Prepare(g: Graph, busy: map<Slot, nat>, loads: map<Slot, nat>, stores: map<Slot, nat>): State {
    var n := |g.nodes|;
    State(Roots(g, n), [], ParentCounts(g), Repeat(-1, n), Repeat(-1, n), Repeat(0, n),
          map[], 0, 0, busy, loads, stores, RootEntries(g))
  }

  // ----- completing a node

  function RemoveAt(q: seq<nat>, i: nat): seq<nat>
    requires i < |q|
  {
    q[..i] + q[i + 1..]
  }

  /** The earliest time a child of `u` can begin once `u` completes in the current cycle. */
  function TimeAfter(g: Graph, cfg: Config, s: State, u: nat): nat
    requires Shape(g, s) && u < |g.nodes|
  {
    if g.nodes[u].IsMemory() || g.nodes[u].IsFp() then At(cfg, s.cycle + 1)
    else
      FuLatency(g.nodes[u].op, cfg.cycleTime) +
      (if s.timeBefore[u] > At(cfg, s.cycle) then s.timeBefore[u] else At(cfg, s.cycle))
  }

  predicate ZeroLatency(n: Node, cycleTime: nat) {
    !n.IsMemory() && FuLatency(n.op, cycleTime) == 0
  }

  /** Which queue the child of a completed node `u` joins, `begin` being the child's time. */
  function Admit(u: Node, v: Node, parid: nat, cfg: Config, begin: nat, cycle: nat, uid: nat): Entry {
    if parid == REGISTER_EDGE || parid == FUSED_BRANCH_EDGE || u.IsCallOrRet() ||
       ((ZeroLatency(v, cfg.cycleTime) || ZeroLatency(u, cfg.cycleTime)) && parid != CONTROL_EDGE)
    then Direct(uid)
    else if v.IsMemory() || u.IsMemory() || v.IsFp() || u.IsFp() then Deferred(uid)
    else if parid == CONTROL_EDGE then Deferred(uid)
    else if begin + FuLatency(v.op, cfg.cycleTime) < At(cfg, cycle + 1) then Packed(uid)
    else Deferred(uid)
  }

  function JoinExecuting(q: seq<nat>, v: nat, how: Entry): seq<nat> {
    if how.Direct? || how.Packed? then q + [v] else q
  }

  function JoinReady(q: seq<nat>, v: nat, how: Entry, isStore: bool): seq<nat> {
    if !how.Deferred? then q else if isStore then [v] + q else q + [v]
  }

  /** Counts the completed parent `u` off its child; the last parent moves the child to a queue
      and leaves the counter at -1. */
  function UpdateChild(g: Graph, cfg: Config, s: State, u: nat, e: Edge, after: nat): State
    requires Shape(g, s) && u < |g.nodes| && e.dst < |g.nodes|
  {
    var v := e.dst;
    var begin := if s.timeBefore[v] < after then after else s.timeBefore[v];
    var last := s.numParents[v] == 1;
    var how := if last then Admit(g.nodes[u], g.nodes[v], e.parid, cfg, begin, s.cycle, u) else NotQueued;
    s.(timeBefore := s.timeBefore[v := begin],
       numParents := s.numParents[v := if last then -1 else if s.numParents[v] > 0 then s.numParents[v] - 1
                                       else s.numParents[v]],
       executing := JoinExecuting(s.executing, v, how),
       ready := JoinReady(s.ready, v, how, g.nodes[v].op.Store?),
       entry := if last then s.entry[v := how] else s.entry)
  }

  function UpdateChildren(g: Graph, cfg: Config, s: State, u: nat, es: seq<Edge>, after: nat): (r: State)
    requires Shape(g, s) && u < |g.nodes|
    requires forall k :: 0 <= k < |es| ==> es[k].dst < |g.nodes|
    ensures Shape(g, r)
    decreases |es|
  {
    if es == [] then s
    else UpdateChildren(g, cfg, UpdateChild(g, cfg, s, u, es[0], after), u, es[1..], after)
  }

  /** Marks the node at position `i` of the executing queue completed and removes it. */
  function Retire(s: State, i: nat): State
    requires i < |s.executing| && s.executing[i] < |s.complete|
  {
    s.(executed := s.executed + 1,
       complete := s.complete[s.executing[i] := s.cycle],
       executing := RemoveAt(s.executing, i))
  }

  function Finish(g: Graph, cfg: Config, s: State, i: nat): (r: State)
    requires Shape(g, s) && i < |s.executing| && s.executing[i] < |g.nodes|
    ensures Shape(g, r)
  {
    var u := s.executing[i];
    UpdateChildren(g, cfg, Retire(s, i), u, g.out[u], TimeAfter(g, cfg, s, u))
  }

  // ----- one pass over the executing queue

  predicate CanService(cfg: Config, s: State, slot: Slot) {
    cfg.ports == 0 || slot !in s.busy || s.busy[slot] < cfg.ports
  }

  function Bump(m: map<Slot, nat>, slot: Slot): map<Slot, nat> {
    m[slot := (if slot in m then m[slot] else 0) + 1]
  }

  /** A scratchpad access whose partition has no port left this cycle. */
  predicate Blocked(cfg: Config, s: State, n: Node) {
    n.InSpad() && !CanService(cfg, s, n.place.slot)
  }

  /** A multi-cycle node that does not leave its pipeline in this visit. */
  predicate StaysInFlight(s: State, n: Node, v: nat) {
    n.IsMulticycle() && !(v in s.inflight && s.inflight[v] == 1)
  }

  /** Starts a multi-cycle node or advances it by one cycle. */
  function Advance(g: Graph, s: State, v: nat): State
    requires Shape(g, s) && v < |g.nodes| && StaysInFlight(s, g.nodes[v], v)
  {
    s.(inflight := s.inflight[v := if v in s.inflight then s.inflight[v] - 1 else MulticycleLatency(g.nodes[v])],
       start := if v in s.inflight then s.start else s.start[v := s.cycle])
  }

  /** What a completing visit does before the node is retired. */
  function Dispatch(g: Graph, s: State, v: nat): State
    requires Shape(g, s) && v < |g.nodes|
  {
    var n := g.nodes[v];
    s.(inflight := if n.IsMulticycle() then s.inflight - {v} else s.inflight,
       start := if n.IsMulticycle() then s.start else s.start[v := s.cycle],
       busy := if n.InSpad() then Bump(s.busy, n.place.slot) else s.busy,
       loads := if n.InSpad() && n.op.Load? then Bump(s.loads, n.place.slot) else s.loads,
       stores := if n.InSpad() && n.op.Store? then Bump(s.stores, n.place.slot) else s.stores)
  }

  datatype Visited = Visited(state: State, executed: bool)

  function Visit(g: Graph, cfg: Config, s: State, i: nat): (r: Visited)
    requires Shape(g, s) && i < |s.executing| && s.executing[i] < |g.nodes|
    ensures Shape(g, r.state)
  {
    var v := s.executing[i];
    var n := g.nodes[v];
    if Blocked(cfg, s, n) then Visited(s, false)
    else if StaysInFlight(s, n, v) then Visited(Advance(g, s, v), false)
    else Visited(Finish(g, cfg, Dispatch(g, s, v), i), true)
  }
}
