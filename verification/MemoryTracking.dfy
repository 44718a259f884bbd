/** The memory part of the graph builder: last-writer and ready-bit tables, proved to produce
    exactly the declared memory dependences. */
module MemoryTracking {
  import opened Collections
  import opened ExecNodes
  import opened MemoryDependence

  function Range(start: nat, end: nat): set<nat> {
    if start >= end then {} else Range(start, end - 1) + {end - 1}
  }

  function RangeMap(start: nat, end: nat, id: nat): map<nat, nat> {
    if start >= end then map[] else RangeMap(start, end - 1, id)[end - 1 := id]
  }

  lemma {:induction false} RangeMembers(start: nat, end: nat, id: nat, a: nat)
    ensures a in Range(start, end) <==> start <= a < end
    ensures a in RangeMap(start, end, id) <==> start <= a < end
    ensures a in RangeMap(start, end, id) ==> RangeMap(start, end, id)[a] == id
  {
    if start < end {
      RangeMembers(start, end - 1, id, a);
    }
  }

  // ----- the tables as functions of the events

  function WriterTable(events: seq<Event>): map<nat, nat> {
    if events == [] then map[]
    else
      var t, e := WriterTable(events[..|events| - 1]), events[|events| - 1];
      if e.Store? then t[e.addr := e.id]
      else if e.HostLoad? || e.SetReady? then t + RangeMap(e.addr, e.addr + e.size, e.id)
      else t
  }

  function ReadyTable(events: seq<Event>, readyMode: bool): map<nat, nat> {
    if events == [] then map[]
    else
      var t, e := ReadyTable(events[..|events| - 1], readyMode), events[|events| - 1];
      if e.SetReady? then t + RangeMap(e.addr, e.addr + e.size, e.id)
      else if readyMode && e.HostLoad? then t - Range(e.addr, e.addr + e.size)
      else t
  }

  /** The tables hold the last writers and the last unconsumed ready-bit changes. */
  lemma {:induction false} TablesHoldLast(events: seq<Event>, readyMode: bool, a: nat)
    ensures a in WriterTable(events) <==> LastWriter(events, a).Some?
    ensures a in WriterTable(events) ==> WriterTable(events)[a] == LastWriter(events, a).value.id
    ensures a in ReadyTable(events, readyMode) <==> LastReadyChange(events, a, readyMode).Some?
    ensures a in ReadyTable(events, readyMode) ==>
              ReadyTable(events, readyMode)[a] == LastReadyChange(events, a, readyMode).value.id
  {
    if events != [] {
      TablesHoldLast(events[..|events| - 1], readyMode, a);
      var e := events[|events| - 1];
      RangeMembers(e.addr, e.addr + e.size, e.id, a);
    }
  }

  /** Edges into `sink` from the nodes that a table names for a byte range. */
  function RangeEdges(table: map<nat, nat>, start: nat, end: nat, sink: nat, skip: set<nat>): set<(nat, nat)> {
    set a: nat | start <= a < end && a in table && table[a] !in skip :: (table[a], sink)
  }

  ghost predicate EventsKnown(events: seq<Event>, nodes: map<nat, MicroOp>) {
    forall e :: e in events ==> e.id in nodes && (e.HostLoad? <==> IsHostLoad(nodes[e.id]))
  }

  /** The writers a load need not wait for. */
  ghost function Skipped(nodes: map<nat, MicroOp>, isLoad: bool, readyMode: bool): set<nat> {
    if isLoad && readyMode then set x | x in nodes && IsHostLoad(nodes[x]) else {}
  }

  /** Looking writers up in the table yields exactly the declared edges. */
  lemma WriterEdgesMatch(events: seq<Event>, nodes: map<nat, MicroOp>, e: Event, readyMode: bool)
    requires EventsKnown(events, nodes)
    requires e.Load? || e.HostStore? || (e.Store? && e.addr in WriterTable(events))
    ensures RangeEdges(WriterTable(events), e.addr, e.addr + e.size, e.id, Skipped(nodes, e.Load?, readyMode)) ==
            EdgesInto(events, e, readyMode)
  {
    var table, skip := WriterTable(events), Skipped(nodes, e.Load?, readyMode);
    TablesHoldLast(events, readyMode, e.addr);
    forall a: nat | e.addr <= a < e.addr + e.size
      ensures WaitsOn(events, e, a, readyMode) <==> a in table && table[a] !in skip
      ensures a in table ==> LastWriter(events, a).Some? && table[a] == LastWriter(events, a).value.id
    {
      TablesHoldLast(events, readyMode, a);
      if a in table { LastWriterInside(events, a); }
    }
  }

  lemma ReadyEdgesMatch(events: seq<Event>, e: Event)
    requires e.HostLoad?
    ensures RangeEdges(ReadyTable(events, true), e.addr, e.addr + e.size, e.id, {}) == EdgesInto(events, e, true)
  {
    forall a: nat | e.addr <= a < e.addr + e.size
      ensures WaitsOnReady(events, e, a, true) <==> a in ReadyTable(events, true)
      ensures a in ReadyTable(events, true) ==>
                LastReadyChange(events, a, true).Some? &&
                ReadyTable(events, true)[a] == LastReadyChange(events, a, true).value.id
    {
      TablesHoldLast(events, true, a);
    }
  }

  lemma NoEdges(events: seq<Event>, e: Event, readyMode: bool)
    requires e.SetReady? || (e.HostLoad? && !readyMode) || (e.Store? && e.addr !in WriterTable(events))
    ensures EdgesInto(events, e, readyMode) == {}
  {
    TablesHoldLast(events, readyMode, e.addr);
  }

  /** The edges an event adds, read off the tables. */
  ghost function AddedEdges(events: seq<Event>, nodes: map<nat, MicroOp>, e: Event, readyMode: bool): set<(nat, nat)> {
    match e
    case SetReady(_, _, _) => {}
    case HostLoad(id, addr, size) =>
      if readyMode then RangeEdges(ReadyTable(events, readyMode), addr, addr + size, id, {}) else {}
    case _ =>
      if e.Store? && e.addr !in WriterTable(events) then {}
      else RangeEdges(WriterTable(events), e.addr, e.addr + e.size, e.id, Skipped(nodes, e.Load?, readyMode))
  }

  /** How the tables and edges grow with one event. */
  lemma EventAppended(events: seq<Event>, nodes: map<nat, MicroOp>, e: Event, readyMode: bool)
    requires EventsKnown(events, nodes)
    ensures WriterTable(events + [e]) ==
              if e.Store? then WriterTable(events)[e.addr := e.id]
              else if e.HostLoad? || e.SetReady? then WriterTable(events) + RangeMap(e.addr, e.addr + e.size, e.id)
              else WriterTable(events)
    ensures ReadyTable(events + [e], readyMode) ==
              if e.SetReady? then ReadyTable(events, readyMode) + RangeMap(e.addr, e.addr + e.size, e.id)
              else if readyMode && e.HostLoad? then ReadyTable(events, readyMode) - Range(e.addr, e.addr + e.size)
              else ReadyTable(events, readyMode)
    ensures MemoryEdges(events + [e], readyMode) ==
              MemoryEdges(events, readyMode) + AddedEdges(events, nodes, e, readyMode)
  {
    assert (events + [e])[..|events|] == events;
    if e.SetReady? || (e.HostLoad? && !readyMode) || (e.Store? && e.addr !in WriterTable(events)) {
      NoEdges(events, e, readyMode);
    } else if e.HostLoad? {
      ReadyEdgesMatch(events, e);
    } else {
      WriterEdgesMatch(events, nodes, e, readyMode);
    }
  }

  lemma WritersKnown(events: seq<Event>, nodes: map<nat, MicroOp>)
    requires EventsKnown(events, nodes)
    ensures forall a :: a in WriterTable(events) ==> WriterTable(events)[a] in nodes
  {
    forall a | a in WriterTable(events) ensures WriterTable(events)[a] in nodes {
      TablesHoldLast(events, false, a);
      LastWriterInside(events, a);
    }
  }

  class MemoryTracker {
    const readyMode: bool
    var addressLastWritten: map<nat, nat>
    var readyBitsLastChanged: map<nat, nat>
    var edges: set<(nat, nat)>
    ghost var events: seq<Event>

    ghost predicate Valid()
      reads this
    {
      && addressLastWritten == WriterTable(events)
      && readyBitsLastChanged == ReadyTable(events, readyMode)
      && edges == MemoryEdges(events, readyMode)
    }

    constructor (ready: bool)
      ensures Valid() && readyMode == ready && events == []
    {
      readyMode := ready;
      addressLastWritten, readyBitsLastChanged, edges, events := map[], map[], {}, [];
    }

    /** Adds the edges from the last writers of a byte range; in ready mode loads do not wait for
        host loads. */
    method HandlePostWriteDependency(start: nat, size: nat, sink: nat, nodes: map<nat, MicroOp>)
      requires sink in nodes && forall a :: a in addressLastWritten ==> addressLastWritten[a] in nodes
      modifies this`edges
      ensures edges == old(edges) +
                RangeEdges(addressLastWritten, start, start + size, sink, Skipped(nodes, nodes[sink].Load?, readyMode))
    {
      var addr := start;
      while addr < start + size
        invariant start <= addr <= start + size
        invariant edges == old(edges) +
                    RangeEdges(addressLastWritten, start, addr, sink, Skipped(nodes, nodes[sink].Load?, readyMode))
      {
        if addr in addressLastWritten {
          var source := addressLastWritten[addr];
          if !(nodes[sink].Load? && IsHostLoad(nodes[source]) && readyMode) {
            edges := edges + {(source, sink)};
          }
        }
        addr := addr + 1;
      }
    }

    /** Consumes the ready-bit changes of a byte range. */
    method HandleReadyBitDependency(start: nat, size: nat, sink: nat)
      modifies this`edges, this`readyBitsLastChanged
      ensures edges == old(edges) + RangeEdges(old(readyBitsLastChanged), start, start + size, sink, {})
      ensures readyBitsLastChanged == old(readyBitsLastChanged) - Range(start, start + size)
    {
      var addr := start;
      var sources: set<nat> := {};
      ghost var table := readyBitsLastChanged;
      while addr < start + size
        invariant start <= addr <= start + size
        invariant edges == old(edges)
        invariant forall u :: u in sources <==> (u, sink) in RangeEdges(table, start, addr, sink, {})
        invariant readyBitsLastChanged == table - Range(start, addr)
      {
        RangeMembers(start, addr, sink, addr);
        if addr in readyBitsLastChanged {
          sources := sources + {readyBitsLastChanged[addr]};
          readyBitsLastChanged := readyBitsLastChanged - {addr};
        }
        addr := addr + 1;
      }
      edges := edges + set u | u in sources :: (u, sink);
    }

    /** Records the node as the last writer of every byte of a range. */
    method RecordWriter(start: nat, size: nat, id: nat)
      modifies this`addressLastWritten
      ensures addressLastWritten == old(addressLastWritten) + RangeMap(start, start + size, id)
    {
      var addr := start;
      while addr < start + size
        invariant start <= addr <= start + size
        invariant addressLastWritten == old(addressLastWritten) + RangeMap(start, addr, id)
      {
        addressLastWritten := addressLastWritten[addr := id];
        addr := addr + 1;
      }
    }

    method RecordReadyChange(start: nat, size: nat, id: nat)
      modifies this`readyBitsLastChanged
      ensures readyBitsLastChanged == old(readyBitsLastChanged) + RangeMap(start, start + size, id)
    {
      var addr := start;
      while addr < start + size
        invariant start <= addr <= start + size
        invariant readyBitsLastChanged == old(readyBitsLastChanged) + RangeMap(start, addr, id)
      {
        readyBitsLastChanged := readyBitsLastChanged[addr := id];
        addr := addr + 1;
      }
    }

    /** A load waits for the last writers of its bytes. */
    method RecordLoad(addr: nat, size: nat, id: nat, nodes: map<nat, MicroOp>)
      requires Valid() && EventsKnown(events, nodes) && id in nodes && nodes[id].Load?
      modifies this
      ensures Valid() && events == old(events) + [Event.Load(id, addr, size)]
    {
      EventAppended(events, nodes, Event.Load(id, addr, size), readyMode);
      WritersKnown(events, nodes);
      HandlePostWriteDependency(addr, size, id, nodes);
      events := events + [Event.Load(id, addr, size)];
    }

    /** So does a host store, which reads the accelerator's memory. */
    method RecordHostStore(addr: nat, size: nat, id: nat, nodes: map<nat, MicroOp>)
      requires Valid() && EventsKnown(events, nodes) && id in nodes && IsHostStore(nodes[id])
      modifies this
      ensures Valid() && events == old(events) + [Event.HostStore(id, addr, size)]
    {
      EventAppended(events, nodes, Event.HostStore(id, addr, size), readyMode);
      WritersKnown(events, nodes);
      HandlePostWriteDependency(addr, size, id, nodes);
      events := events + [Event.HostStore(id, addr, size)];
    }

    /** A store waits for earlier writers when its first byte has one, and becomes its last writer. */
    method RecordStore(addr: nat, size: nat, id: nat, nodes: map<nat, MicroOp>)
      requires Valid() && EventsKnown(events, nodes) && id in nodes && nodes[id].Store?
      modifies this
      ensures Valid() && events == old(events) + [Event.Store(id, addr, size)]
    {
      EventAppended(events, nodes, Event.Store(id, addr, size), readyMode);
      if addr in addressLastWritten {
        WritersKnown(events, nodes);
        HandlePostWriteDependency(addr, size, id, nodes);
      }
      addressLastWritten := addressLastWritten[addr := id];
      events := events + [Event.Store(id, addr, size)];
    }

    /** A host load becomes the last writer of its bytes and consumes their ready-bit changes. */
    method RecordHostLoad(addr: nat, size: nat, id: nat, nodes: map<nat, MicroOp>)
      requires Valid() && EventsKnown(events, nodes)
      modifies this
      ensures Valid() && events == old(events) + [Event.HostLoad(id, addr, size)]
    {
      EventAppended(events, nodes, Event.HostLoad(id, addr, size), readyMode);
      RecordWriter(addr, size, id);
      if readyMode {
        HandleReadyBitDependency(addr, size, id);
      }
      events := events + [Event.HostLoad(id, addr, size)];
    }

    /** Setting ready bits counts as a write and leaves a ready-bit change behind. */
    method RecordReadyBits(addr: nat, size: nat, id: nat, nodes: map<nat, MicroOp>)
      requires Valid() && EventsKnown(events, nodes)
      modifies this
      ensures Valid() && events == old(events) + [Event.SetReady(id, addr, size)]
    {
      EventAppended(events, nodes, Event.SetReady(id, addr, size), readyMode);
      RecordWriter(addr, size, id);
      RecordReadyChange(addr, size, id);
      events := events + [Event.SetReady(id, addr, size)];
    }
  }
}
