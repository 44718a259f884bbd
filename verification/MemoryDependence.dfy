/** Memory dependences of a trace, stated over its memory events. A store is remembered by its
    start address only; host loads and ready-bit changes by every byte of their range. */
module MemoryDependence {
  import opened Collections

  datatype Event =
    | Load(id: nat, addr: nat, size: nat)
    | Store(id: nat, addr: nat, size: nat)
    | HostLoad(id: nat, addr: nat, size: nat)
    | HostStore(id: nat, addr: nat, size: nat)
    | SetReady(id: nat, addr: nat, size: nat)
  {
    predicate Covers(a: nat) { addr <= a < addr + size }

    predicate Writes(a: nat) {
      if Store? then a == addr else (HostLoad? || SetReady?) && Covers(a)
    }
  }

  /** The last event that wrote byte `a`. */
  function LastWriter(events: seq<Event>, a: nat): Option<Event> {
    if events == [] then None
    else if events[|events| - 1].Writes(a) then Some(events[|events| - 1])
    else LastWriter(events[..|events| - 1], a)
  }

  /** The last ready-bit change of byte `a` that no host load has consumed since. */
  function LastReadyChange(events: seq<Event>, a: nat, readyMode: bool): Option<Event> {
    if events == [] then None
    else
      var e := events[|events| - 1];
      if e.SetReady? && e.Covers(a) then Some(e)
      else if readyMode && e.HostLoad? && e.Covers(a) then None
      else LastReadyChange(events[..|events| - 1], a, readyMode)
  }

  /** Bytes whose last writer the event waits for. A store waits only when its first byte was written. */
  predicate WaitsOn(prior: seq<Event>, e: Event, a: nat, readyMode: bool) {
    && e.Covers(a)
    && LastWriter(prior, a).Some?
    && match e
       case Load(_, _, _) => !(readyMode && LastWriter(prior, a).value.HostLoad?)
       case Store(_, addr, _) => LastWriter(prior, addr).Some?
       case HostStore(_, _, _) => true
       case HostLoad(_, _, _) => false
       case SetReady(_, _, _) => false
  }

  /** In ready mode a host load also waits for the ready-bit changes it consumes. */
  predicate WaitsOnReady(prior: seq<Event>, e: Event, a: nat, readyMode: bool) {
    readyMode && e.HostLoad? && e.Covers(a) && LastReadyChange(prior, a, readyMode).Some?
  }

  function EdgesInto(prior: seq<Event>, e: Event, readyMode: bool): set<(nat, nat)> {
    (set a: nat | e.addr <= a < e.addr + e.size && WaitsOn(prior, e, a, readyMode) ::
       (LastWriter(prior, a).value.id, e.id)) +
    (set a: nat | e.addr <= a < e.addr + e.size && WaitsOnReady(prior, e, a, readyMode) ::
       (LastReadyChange(prior, a, readyMode).value.id, e.id))
  }

  function MemoryEdges(events: seq<Event>, readyMode: bool): set<(nat, nat)> {
    if events == [] then {}
    else
      var n := |events| - 1;
      MemoryEdges(events[..n], readyMode) + EdgesInto(events[..n], events[n], readyMode)
  }

  ghost predicate IsChain(edges: set<(nat, nat)>, p: seq<nat>) {
    && |p| >= 2
    && (forall k :: 0 <= k < |p| - 1 ==> (p[k], p[k + 1]) in edges)
  }

  ghost predicate Reaches(edges: set<(nat, nat)>, u: nat, v: nat) {
    exists p :: IsChain(edges, p) && p[0] == u && p[|p| - 1] == v
  }

  lemma EdgeReaches(edges: set<(nat, nat)>, u: nat, v: nat)
    requires (u, v) in edges
    ensures Reaches(edges, u, v)
  {
    var p := [u, v];
    assert IsChain(edges, p) && p[0] == u && p[|p| - 1] == v;
  }

  lemma ReachesStep(edges: set<(nat, nat)>, u: nat, w: nat, v: nat)
    requires Reaches(edges, u, w) && (w, v) in edges
    ensures Reaches(edges, u, v)
  {
    var p :| IsChain(edges, p) && p[0] == u && p[|p| - 1] == w;
    var q := p + [v];
    assert IsChain(edges, q) && q[0] == u && q[|q| - 1] == v;
  }

  lemma {:induction false} EdgesGrow(events: seq<Event>, k: nat, readyMode: bool)
    requires k < |events|
    ensures EdgesInto(events[..k], events[k], readyMode) <= MemoryEdges(events, readyMode)
  {
    var n := |events| - 1;
    if k < n {
      EdgesGrow(events[..n], k, readyMode);
      assert events[..n][..k] == events[..k];
    }
  }

  /** Accesses that wait for the last write of byte `a`: those that read it, and stores that start there. */
  predicate Waits(e: Event, a: nat) {
    e.Covers(a) && (e.Load? || e.HostStore? || (e.Store? && e.addr == a))
  }

  /** Since event `i`, byte `a` was written by stores of at least one byte only: no transfer and no change of
      ready bits came between. */
  predicate StoresOnly(events: seq<Event>, i: nat, j: nat, a: nat)
    requires j <= |events|
  {
    forall k :: i < k < j && events[k].Writes(a) ==> events[k].Store? && events[k].size > 0
  }

  lemma {:induction false} LastWriterAfter(events: seq<Event>, i: nat, a: nat) returns (k: nat)
    requires i < |events| && events[i].Writes(a)
    ensures i <= k < |events| && events[k].Writes(a) && LastWriter(events, a) == Some(events[k])
    decreases |events|
  {
    var n := |events| - 1;
    if events[n].Writes(a) {
      k := n;
    } else {
      k := LastWriterAfter(events[..n], i, a);
    }
  }

  /** An access is ordered, by memory edges, after every earlier store whose start address it waits for. */
  lemma {:induction false} SameAddressOrdered(events: seq<Event>, i: nat, j: nat, readyMode: bool)
    requires i < j < |events| && events[i].Store? && Waits(events[j], events[i].addr)
    requires StoresOnly(events, i, j, events[i].addr)
    ensures Reaches(MemoryEdges(events, readyMode), events[i].id, events[j].id)
    decreases j
  {
    var a := events[i].addr;
    var prior := events[..j];
    var k := LastWriterAfter(prior, i, a);
    assert WaitsOn(prior, events[j], a, readyMode);
    assert (events[k].id, events[j].id) in EdgesInto(prior, events[j], readyMode);
    EdgesGrow(events, j, readyMode);
    if k == i {
      EdgeReaches(MemoryEdges(events, readyMode), events[i].id, events[j].id);
    } else {
      SameAddressOrdered(events, i, k, readyMode);
      ReachesStep(MemoryEdges(events, readyMode), events[i].id, events[k].id, events[j].id);
    }
  }

  /** A transfer in between breaks the order: it overwrites the byte but, outside ready mode, waits for nothing. */
  lemma TransferInWaitsForNothing(prior: seq<Event>, e: Event)
    requires e.HostLoad?
    ensures EdgesInto(prior, e, false) == {}
  {
  }

  /** The failing case: a store, a transfer into its byte, a load of it. */
  lemma TransferHidesStore()
    ensures var events := [Store(0, 8, 1), HostLoad(1, 8, 1), Load(2, 8, 1)];
      !Reaches(MemoryEdges(events, false), 0, 2)
  {
    var events := [Store(0, 8, 1), HostLoad(1, 8, 1), Load(2, 8, 1)];
    var first, two := [Store(0, 8, 1)], [Store(0, 8, 1), HostLoad(1, 8, 1)];
    assert events[..2] == two && two[..1] == first && first[..0] == [];
    assert MemoryEdges(first, false) == {};
    assert MemoryEdges(two, false) == {} by { TransferInWaitsForNothing(first, two[1]); }
    assert LastWriter(two, 8) == Some(two[1]);
    forall e | e in MemoryEdges(events, false) ensures e == (1, 2) {}
    if p :| IsChain(MemoryEdges(events, false), p) && p[0] == 0 && p[|p| - 1] == 2 {
      assert (p[0], p[0 + 1]) in MemoryEdges(events, false);
    }
  }

  predicate IdsGrow(events: seq<Event>) {
    forall i, j :: 0 <= i < j < |events| ==> events[i].id <= events[j].id
  }

  lemma {:induction false} LastWriterInside(events: seq<Event>, a: nat)
    requires LastWriter(events, a).Some?
    ensures LastWriter(events, a).value in events
  {
    if !events[|events| - 1].Writes(a) {
      LastWriterInside(events[..|events| - 1], a);
    }
  }

  lemma {:induction false} LastReadyInside(events: seq<Event>, a: nat, readyMode: bool)
    requires LastReadyChange(events, a, readyMode).Some?
    ensures LastReadyChange(events, a, readyMode).value in events
  {
    var e := events[|events| - 1];
    if !(e.SetReady? && e.Covers(a)) {
      LastReadyInside(events[..|events| - 1], a, readyMode);
    }
  }

  /** Memory edges join recorded events and never go back in the trace. */
  lemma {:induction false} MemoryEdgesForward(events: seq<Event>, readyMode: bool, u: nat, v: nat)
    requires IdsGrow(events) && (u, v) in MemoryEdges(events, readyMode)
    ensures u <= v
    ensures exists x, y :: x in events && y in events && x.id == u && y.id == v
    decreases |events|
  {
    var n := |events| - 1;
    var prior, e := events[..n], events[n];
    if (u, v) in MemoryEdges(prior, readyMode) {
      MemoryEdgesForward(prior, readyMode, u, v);
      var x, y :| x in prior && y in prior && x.id == u && y.id == v;
      assert x in events && y in events;
    } else if a: nat :| e.addr <= a < e.addr + e.size && WaitsOn(prior, e, a, readyMode) &&
                        u == LastWriter(prior, a).value.id {
      LastWriterInside(prior, a);
      assert LastWriter(prior, a).value in events && e in events;
    } else {
      var a: nat :| e.addr <= a < e.addr + e.size && WaitsOnReady(prior, e, a, readyMode) &&
                    u == LastReadyChange(prior, a, readyMode).value.id;
      LastReadyInside(prior, a, readyMode);
      assert LastReadyChange(prior, a, readyMode).value in events && e in events;
    }
  }
}
