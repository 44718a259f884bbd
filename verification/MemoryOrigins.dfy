/** Where memory edges come from, said with positions and byte addresses: which earlier access an access waits for,
    with and without ready bits. */
module MemoryOrigins {
  import opened Collections
  import opened DependenceGraph
  import opened MemoryDependence
  import opened TraceParsing
  import C = ControlDependence
  import R = RegisterDependence
  import I = InitialGraph

  /** A store counts as writing the byte it starts at; transfers in and ready-bit changes write their whole range. */
  predicate WritesByte(e: Event, a: nat) {
    match e
    case Store(_, addr, _) => a == addr
    case HostLoad(_, addr, size) => addr <= a < addr + size
    case SetReady(_, addr, size) => addr <= a < addr + size
    case Load(_, _, _) => false
    case HostStore(_, _, _) => false
  }

  /** Event `i` is the last before `j` to write byte `a`. */
  ghost predicate LastWrite(events: seq<Event>, i: nat, j: nat, a: nat) {
    && i < j <= |events| && WritesByte(events[i], a)
    && forall k :: i < k < j ==> !WritesByte(events[k], a)
  }

  /** Event `i` changed the ready bit of byte `a`, and no transfer or other change came before `j`. */
  ghost predicate LastChange(events: seq<Event>, i: nat, j: nat, a: nat) {
    && i < j <= |events| && events[i].SetReady? && events[i].addr <= a < events[i].addr + events[i].size
    && forall k :: i < k < j && (events[k].SetReady? || events[k].HostLoad?) ==>
         !(events[k].addr <= a < events[k].addr + events[k].size)
  }

  /** Event `j` waits for event `i` because of byte `a`, which it covers. */
  ghost predicate WaitsFor(events: seq<Event>, readyMode: bool, i: nat, j: nat, a: nat) {
    && j < |events| && events[j].addr <= a < events[j].addr + events[j].size
    && match events[j]
       case Load(_, _, _) => LastWrite(events, i, j, a) && !(readyMode && events[i].HostLoad?)
       case HostStore(_, _, _) => LastWrite(events, i, j, a)
       case Store(_, addr, _) => LastWrite(events, i, j, a) && exists h :: 0 <= h < j && WritesByte(events[h], addr)
       case HostLoad(_, _, _) => readyMode && LastChange(events, i, j, a)
       case SetReady(_, _, _) => false
  }

  /** An access of node `v` waits for an access of node `u`. */
  ghost predicate NodeWaits(events: seq<Event>, readyMode: bool, u: nat, v: nat) {
    exists i: nat, j: nat, a: nat :: WaitsFor(events, readyMode, i, j, a) && events[i].id == u && events[j].id == v
  }

  // ----- the tables' last writers are these positions

  lemma {:induction false} LastWriterAt(events: seq<Event>, i: nat, j: nat, a: nat)
    requires LastWrite(events, i, j, a)
    ensures LastWriter(events[..j], a) == Some(events[i])
    decreases j
  {
    assert events[..j][..j - 1] == events[..j - 1];
    if i < j - 1 { LastWriterAt(events, i, j - 1, a); }
  }

  lemma {:induction false} LastWriterFound(events: seq<Event>, j: nat, a: nat) returns (i: nat)
    requires j <= |events| && LastWriter(events[..j], a).Some?
    ensures LastWrite(events, i, j, a) && LastWriter(events[..j], a) == Some(events[i])
    decreases j
  {
    assert events[..j][..j - 1] == events[..j - 1];
    if events[j - 1].Writes(a) {
      i := j - 1;
    } else {
      i := LastWriterFound(events, j - 1, a);
    }
  }

  lemma {:induction false} LastChangeAt(events: seq<Event>, i: nat, j: nat, a: nat)
    requires LastChange(events, i, j, a)
    ensures LastReadyChange(events[..j], a, true) == Some(events[i])
    decreases j
  {
    assert events[..j][..j - 1] == events[..j - 1];
    if i < j - 1 { LastChangeAt(events, i, j - 1, a); }
  }

  lemma {:induction false} LastChangeFound(events: seq<Event>, j: nat, a: nat) returns (i: nat)
    requires j <= |events| && LastReadyChange(events[..j], a, true).Some?
    ensures LastChange(events, i, j, a) && LastReadyChange(events[..j], a, true) == Some(events[i])
    decreases j
  {
    assert events[..j][..j - 1] == events[..j - 1];
    var e := events[j - 1];
    if e.SetReady? && e.Covers(a) {
      i := j - 1;
    } else {
      i := LastChangeFound(events, j - 1, a);
    }
  }

  lemma WrittenIff(events: seq<Event>, j: nat, a: nat)
    requires j <= |events|
    ensures LastWriter(events[..j], a).Some? <==> exists h :: 0 <= h < j && WritesByte(events[h], a)
  {
    if LastWriter(events[..j], a).Some? {
      var i := LastWriterFound(events, j, a);
      assert WritesByte(events[i], a);
    }
    if h: nat :| h < j && WritesByte(events[h], a) {
      assert events[..j][h] == events[h];
      var k := LastWriterAfter(events[..j], h, a);
    }
  }

  // ----- edges

  lemma WaitIsEdge(events: seq<Event>, readyMode: bool, i: nat, j: nat, a: nat)
    requires WaitsFor(events, readyMode, i, j, a)
    ensures (events[i].id, events[j].id) in EdgesInto(events[..j], events[j], readyMode)
  {
    var prior, e := events[..j], events[j];
    if e.HostLoad? {
      LastChangeAt(events, i, j, a);
      assert WaitsOnReady(prior, e, a, readyMode);
    } else {
      LastWriterAt(events, i, j, a);
      WrittenIff(events, j, e.addr);
      assert WaitsOn(prior, e, a, readyMode);
    }
  }

  lemma EdgeIsWait(events: seq<Event>, readyMode: bool, j: nat, u: nat, v: nat) returns (i: nat, a: nat)
    requires j < |events| && (u, v) in EdgesInto(events[..j], events[j], readyMode)
    ensures WaitsFor(events, readyMode, i, j, a) && events[i].id == u && events[j].id == v
  {
    var prior, e := events[..j], events[j];
    if b: nat :| e.addr <= b < e.addr + e.size && WaitsOn(prior, e, b, readyMode) &&
                 u == LastWriter(prior, b).value.id {
      a := b;
      i := LastWriterFound(events, j, a);
      WrittenIff(events, j, e.addr);
    } else {
      a :| e.addr <= a < e.addr + e.size && WaitsOnReady(prior, e, a, readyMode) &&
           u == LastReadyChange(prior, a, readyMode).value.id;
      i := LastChangeFound(events, j, a);
    }
  }

  lemma {:induction false} EdgeHasSink(events: seq<Event>, readyMode: bool, u: nat, v: nat) returns (j: nat)
    requires (u, v) in MemoryEdges(events, readyMode)
    ensures j < |events| && (u, v) in EdgesInto(events[..j], events[j], readyMode)
    decreases |events|
  {
    var n := |events| - 1;
    if (u, v) in MemoryEdges(events[..n], readyMode) {
      j := EdgeHasSink(events[..n], readyMode, u, v);
      assert events[..n][..j] == events[..j];
    } else {
      j := n;
    }
  }

  /** There is a memory edge between two nodes if and only if an access of one waits for an access of the other. */
  lemma MemoryEdgeIff(events: seq<Event>, readyMode: bool, u: nat, v: nat)
    ensures (u, v) in MemoryEdges(events, readyMode) <==> NodeWaits(events, readyMode, u, v)
  {
    if (u, v) in MemoryEdges(events, readyMode) {
      var j := EdgeHasSink(events, readyMode, u, v);
      var i, a := EdgeIsWait(events, readyMode, j, u, v);
    }
    if i: nat, j: nat, a: nat :| WaitsFor(events, readyMode, i, j, a) && events[i].id == u && events[j].id == v {
      WaitIsEdge(events, readyMode, i, j, a);
      EdgesGrow(events, j, readyMode);
    }
  }

  /** In the edges of every trace, an access waits for the last one that wrote a byte it reads, be it a store, a
      transfer or a change of ready bits. */
  lemma AccessWaits(trace: seq<Record>, readyMode: bool, edges: map<I.Pair, nat>, i: nat, j: nat, a: nat)
    requires I.TraceEdges(trace, readyMode, edges)
    requires var mem := ParseAll(trace).mem; WaitsFor(mem, readyMode, i, j, a) && mem[i].id != mem[j].id
    ensures var mem := ParseAll(trace).mem; (mem[i].id, mem[j].id) in edges
  {
    var p := ParseAll(trace);
    var q := (p.mem[i].id, p.mem[j].id);
    MemoryEdgeIff(p.mem, readyMode, q.0, q.1);
    assert I.Kind(edges, R.RegisterEdges(p.reg), MemoryEdges(p.mem, readyMode), C.ControlEdges(p.insts), q);
  }

  /** And an edge marked as memory, unless it stands for the 255th operand, comes from such an access. */
  lemma MemoryMarkMeans(trace: seq<Record>, readyMode: bool, edges: map<I.Pair, nat>, q: I.Pair)
    requires I.TraceEdges(trace, readyMode, edges) && q in edges && edges[q] == 255
    ensures var p := ParseAll(trace);
      || (exists e :: e in R.RegisterEdges(p.reg) && e.src == q.0 && e.dst == q.1 && e.tag % 256 == 255)
      || NodeWaits(p.mem, readyMode, q.0, q.1)
  {
    var p := ParseAll(trace);
    assert I.Kind(edges, R.RegisterEdges(p.reg), MemoryEdges(p.mem, readyMode), C.ControlEdges(p.insts), q);
    if !I.IsRegisterPair(R.RegisterEdges(p.reg), q) {
      assert q in MemoryEdges(p.mem, readyMode) && q == (q.0, q.1);
      MemoryEdgeIff(p.mem, readyMode, q.0, q.1);
    }
  }
}
