/** Register dependences of a trace: every read waits for the last write of its register. */
module RegisterDependence {

  datatype DynFunction = DynFunction(name: string, iteration: int)
  datatype Register = Register(func: DynFunction, name: string)

  /** A write records the node that produced the value, which for a forwarded argument is older
      than the call. */
  datatype Event = Write(reg: Register, id: nat) | Read(reg: Register, id: nat, tag: nat)

  datatype RegEdge = RegEdge(src: nat, dst: nat, tag: nat)

  function Writers(events: seq<Event>): map<Register, nat> {
    if events == [] then map[]
    else
      var e := events[|events| - 1];
      var w := Writers(events[..|events| - 1]);
      if e.Write? then w[e.reg := e.id] else w
  }

  function RegisterEdges(events: seq<Event>): seq<RegEdge> {
    if events == [] then []
    else
      var n := |events| - 1;
      var e, w := events[n], Writers(events[..n]);
      RegisterEdges(events[..n]) +
      (if e.Read? && e.reg in w then [RegEdge(w[e.reg], e.id, e.tag)] else [])
  }

  /** `k` is the last write of `reg` before position `n`. */
  ghost predicate IsLastWrite(events: seq<Event>, n: nat, reg: Register, k: nat) {
    && k < n <= |events| && events[k].Write? && events[k].reg == reg
    && (forall j :: k < j < n ==> !(events[j].Write? && events[j].reg == reg))
  }

  lemma {:induction false} WritersAreLast(events: seq<Event>, n: nat, reg: Register, k: nat)
    requires IsLastWrite(events, n, reg, k)
    ensures reg in Writers(events[..n]) && Writers(events[..n])[reg] == events[k].id
    decreases n
  {
    var p := events[..n];
    assert p[..|p| - 1] == events[..n - 1];
    if k < n - 1 {
      WritersAreLast(events, n - 1, reg, k);
    }
  }

  /** Every read of a written register gets an edge from its last writer. */
  lemma {:induction false} ReadsWaitForLastWrite(events: seq<Event>, n: nat, k: nat)
    requires n < |events| && events[n].Read? && IsLastWrite(events, n, events[n].reg, k)
    ensures RegEdge(events[k].id, events[n].id, events[n].tag) in RegisterEdges(events)
    decreases |events|
  {
    var m := |events| - 1;
    if n == m {
      WritersAreLast(events, n, events[n].reg, k);
    } else {
      assert IsLastWrite(events[..m], n, events[n].reg, k);
      ReadsWaitForLastWrite(events[..m], n, k);
    }
  }

  /** No other register edges exist. */
  lemma {:induction false} RegisterEdgeOrigin(events: seq<Event>, e: RegEdge) returns (n: nat, k: nat)
    requires e in RegisterEdges(events)
    ensures n < |events| && events[n].Read? && IsLastWrite(events, n, events[n].reg, k)
    ensures e == RegEdge(events[k].id, events[n].id, events[n].tag)
    decreases |events|
  {
    var m := |events| - 1;
    if e in RegisterEdges(events[..m]) {
      n, k := RegisterEdgeOrigin(events[..m], e);
      assert IsLastWrite(events, n, events[n].reg, k);
    } else {
      n := m;
      k := WriterPosition(events, m, events[m].reg);
    }
  }

  lemma {:induction false} WriterPosition(events: seq<Event>, n: nat, reg: Register) returns (k: nat)
    requires n <= |events| && reg in Writers(events[..n])
    ensures IsLastWrite(events, n, reg, k) && Writers(events[..n])[reg] == events[k].id
    decreases n
  {
    var p := events[..n];
    assert p[..|p| - 1] == events[..n - 1];
    if events[n - 1].Write? && events[n - 1].reg == reg {
      k := n - 1;
    } else {
      k := WriterPosition(events, n - 1, reg);
    }
  }

  /** Reads carry the newest id seen so far. */
  predicate ReadsNewest(events: seq<Event>) {
    forall i, j :: 0 <= i < j < |events| && events[j].Read? ==> events[i].id <= events[j].id
  }

  lemma RegisterEdgesForward(events: seq<Event>, e: RegEdge)
    requires ReadsNewest(events) && e in RegisterEdges(events)
    ensures e.src <= e.dst
  {
    var n, k := RegisterEdgeOrigin(events, e);
  }
}
