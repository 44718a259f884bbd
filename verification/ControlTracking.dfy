/** The control part of the graph builder: fence and return trackers, updated instruction by
    instruction, proved to produce exactly the declared control dependences. */
module ControlTracking {
  import opened Collections
  import opened ExecNodes
  import opened ControlDependence

  // ----- how one more instruction extends the control dependences

  ghost function SinceBoundary(insts: seq<Inst>): set<nat> {
    set i | 0 <= i < |insts| && !IsDma(insts[i].op) && !IsBoundary(insts[i].op) &&
            NoBoundary(insts, i, |insts|) :: insts[i].id
  }

  ghost function LatestBoundary(insts: seq<Inst>): set<nat> {
    set i | 0 <= i < |insts| && IsBoundary(insts[i].op) && NoBoundary(insts, i, |insts|) :: insts[i].id
  }

  ghost function SinceFence(insts: seq<Inst>): set<nat> {
    set i | 0 <= i < |insts| && IsTransfer(insts[i].op) && NoFence(insts, i, |insts|) :: insts[i].id
  }

  ghost function LatestFence(insts: seq<Inst>): set<nat> {
    set i | 0 <= i < |insts| && insts[i].op.DmaFence? && NoFence(insts, i, |insts|) :: insts[i].id
  }

  function Into(sources: set<nat>, sink: nat): set<(nat, nat)> {
    set u | u in sources :: (u, sink)
  }

  ghost function BoundarySources(insts: seq<Inst>, op: MicroOp): set<nat> {
    if IsBoundary(op) then SinceBoundary(insts) + LatestBoundary(insts) else {}
  }

  ghost function FenceSources(insts: seq<Inst>, op: MicroOp): set<nat> {
    if op.DmaFence? then SinceFence(insts) else if IsTransfer(op) then LatestFence(insts) else {}
  }

  /** The nodes a new instruction waits for. */
  ghost function NewSources(insts: seq<Inst>, op: MicroOp): set<nat> {
    BoundarySources(insts, op) + FenceSources(insts, op)
  }

  lemma IntoUnion(a: set<nat>, b: set<nat>, sink: nat)
    ensures Into(a + b, sink) == Into(a, sink) + Into(b, sink)
  {
  }

  lemma WindowShift(insts: seq<Inst>, x: Inst, i: int)
    requires 0 <= i < |insts|
    ensures forall j :: 0 <= j < |insts| ==> (Depends(insts + [x], i, j) <==> Depends(insts, i, j))
    ensures NoBoundary(insts + [x], i, |insts|) <==> NoBoundary(insts, i, |insts|)
    ensures NoFence(insts + [x], i, |insts|) <==> NoFence(insts, i, |insts|)
    ensures NoBoundary(insts + [x], i, |insts| + 1) <==> NoBoundary(insts, i, |insts|) && !IsBoundary(x.op)
    ensures NoFence(insts + [x], i, |insts| + 1) <==> NoFence(insts, i, |insts|) && !x.op.DmaFence?
  {
    var more := insts + [x];
    assert forall k :: 0 <= k < |insts| ==> more[k] == insts[k];
    assert more[|insts|] == x;
    forall j | 0 <= j < |insts| ensures Depends(more, i, j) <==> Depends(insts, i, j) {
      assert NoBoundary(more, i, j) <==> NoBoundary(insts, i, j);
      assert NoFence(more, i, j) <==> NoFence(insts, i, j);
    }
  }

  lemma ControlEdgesExtend(insts: seq<Inst>, x: Inst)
    ensures ControlEdges(insts + [x]) == ControlEdges(insts) + Into(NewSources(insts, x.op), x.id)
  {
    var more, n := insts + [x], |insts|;
    forall i | 0 <= i < n ensures Depends(more, i, n) ==> insts[i].id in NewSources(insts, x.op) {
      WindowShift(insts, x, i);
    }
    forall u | u in NewSources(insts, x.op) ensures exists i :: 0 <= i < n && insts[i].id == u && Depends(more, i, n) {
      var i :| 0 <= i < n && insts[i].id == u &&
               ((IsBoundary(x.op) && !IsDma(insts[i].op) && NoBoundary(insts, i, n)) ||
                (x.op.DmaFence? && IsTransfer(insts[i].op) && NoFence(insts, i, n)) ||
                (IsTransfer(x.op) && insts[i].op.DmaFence? && NoFence(insts, i, n)));
      WindowShift(insts, x, i);
      assert Depends(more, i, n);
    }
    forall p | p in ControlEdges(more) ensures p in ControlEdges(insts) + Into(NewSources(insts, x.op), x.id) {
      var i, j :| 0 <= i < |more| && 0 <= j < |more| && Depends(more, i, j) && p == (more[i].id, more[j].id);
      if j < n { WindowShift(insts, x, i); }
    }
    forall p | p in ControlEdges(insts) ensures p in ControlEdges(more) {
      var i, j :| 0 <= i < n && 0 <= j < n && Depends(insts, i, j) && p == (insts[i].id, insts[j].id);
      WindowShift(insts, x, i);
      assert Depends(more, i, j) && p == (more[i].id, more[j].id);
    }
    forall p | p in Into(NewSources(insts, x.op), x.id) ensures p in ControlEdges(more) {
      var u :| u in NewSources(insts, x.op) && p == (u, x.id);
      var i :| 0 <= i < n && insts[i].id == u && Depends(more, i, n);
      assert p == (more[i].id, more[n].id);
    }
  }

  lemma SinceBoundaryExtends(insts: seq<Inst>, x: Inst)
    ensures SinceBoundary(insts + [x]) ==
              if IsBoundary(x.op) then {} else SinceBoundary(insts) + (if IsDma(x.op) then {} else {x.id})
  {
    var more, n := insts + [x], |insts|;
    assert more[n] == x;
    forall i | 0 <= i < n ensures NoBoundary(more, i, n + 1) <==> NoBoundary(insts, i, n) && !IsBoundary(x.op) {
      WindowShift(insts, x, i);
    }
    forall u | u in SinceBoundary(insts) && !IsBoundary(x.op) ensures u in SinceBoundary(more) {
      var i :| 0 <= i < n && !IsDma(insts[i].op) && !IsBoundary(insts[i].op) && NoBoundary(insts, i, n) &&
               insts[i].id == u;
      assert more[i].id == u;
    }
    if !IsDma(x.op) && !IsBoundary(x.op) {
      assert more[n].id in SinceBoundary(more);
    }
  }

  lemma LastBoundaryExtends(insts: seq<Inst>, x: Inst)
    ensures LatestBoundary(insts + [x]) == if IsBoundary(x.op) then {x.id} else LatestBoundary(insts)
  {
    var more, n := insts + [x], |insts|;
    assert more[n] == x;
    forall i | 0 <= i < n ensures NoBoundary(more, i, n + 1) <==> NoBoundary(insts, i, n) && !IsBoundary(x.op) {
      WindowShift(insts, x, i);
    }
    forall u | u in LatestBoundary(insts) && !IsBoundary(x.op) ensures u in LatestBoundary(more) {
      var i :| 0 <= i < n && IsBoundary(insts[i].op) && NoBoundary(insts, i, n) && insts[i].id == u;
      assert more[i].id == u;
    }
    if IsBoundary(x.op) {
      assert more[n].id in LatestBoundary(more);
    }
  }

  lemma SinceFenceExtends(insts: seq<Inst>, x: Inst)
    ensures SinceFence(insts + [x]) ==
              if x.op.DmaFence? then {} else SinceFence(insts) + (if IsTransfer(x.op) then {x.id} else {})
  {
    var more, n := insts + [x], |insts|;
    assert more[n] == x;
    forall i | 0 <= i < n ensures NoFence(more, i, n + 1) <==> NoFence(insts, i, n) && !x.op.DmaFence? {
      WindowShift(insts, x, i);
    }
    forall u | u in SinceFence(insts) && !x.op.DmaFence? ensures u in SinceFence(more) {
      var i :| 0 <= i < n && IsTransfer(insts[i].op) && NoFence(insts, i, n) && insts[i].id == u;
      assert more[i].id == u;
    }
    if IsTransfer(x.op) {
      assert more[n].id in SinceFence(more);
    }
  }

  lemma LastFenceExtends(insts: seq<Inst>, x: Inst)
    ensures LatestFence(insts + [x]) == if x.op.DmaFence? then {x.id} else LatestFence(insts)
  {
    var more, n := insts + [x], |insts|;
    assert more[n] == x;
    forall i | 0 <= i < n ensures NoFence(more, i, n + 1) <==> NoFence(insts, i, n) && !x.op.DmaFence? {
      WindowShift(insts, x, i);
    }
    forall u | u in LatestFence(insts) && !x.op.DmaFence? ensures u in LatestFence(more) {
      var i :| 0 <= i < n && insts[i].op.DmaFence? && NoFence(insts, i, n) && insts[i].id == u;
      assert more[i].id == u;
    }
    if x.op.DmaFence? {
      assert more[n].id in LatestFence(more);
    }
  }

  function Ids(o: Option<nat>): set<nat> {
    if o.Some? then {o.value} else {}
  }

  class ControlTracker {
    var nodesSinceLastRet: seq<nat>
    var lastRet: Option<nat>
    var lastDmaNodes: seq<nat>
    var lastDmaFence: Option<nat>
    var edges: set<(nat, nat)>
    ghost var insts: seq<Inst>

    ghost predicate Valid()
      reads this
    {
      && edges == ControlEdges(insts)
      && Elements(nodesSinceLastRet) == SinceBoundary(insts) && Ids(lastRet) == LatestBoundary(insts)
      && Elements(lastDmaNodes) == SinceFence(insts) && Ids(lastDmaFence) == LatestFence(insts)
    }

    constructor ()
      ensures Valid() && insts == []
    {
      nodesSinceLastRet, lastRet, lastDmaNodes, lastDmaFence := [], None, [], None;
      edges, insts := {}, [];
    }

    method InsertControlDependences(sources: seq<nat>, sink: nat)
      modifies this`edges
      ensures edges == old(edges) + Into(Elements(sources), sink)
    {
      for k := 0 to |sources|
        invariant edges == old(edges) + Into(Elements(sources[..k]), sink)
      {
        assert Elements(sources[..k + 1]) == Elements(sources[..k]) + {sources[k]};
        edges := edges + {(sources[k], sink)};
      }
      assert sources[..|sources|] == sources;
    }

    /** A call or return waits for all nodes since the last one, and for that one. */
    method EnforceBoundary(id: nat, op: MicroOp)
      requires Elements(nodesSinceLastRet) == SinceBoundary(insts) && Ids(lastRet) == LatestBoundary(insts)
      modifies this`edges, this`nodesSinceLastRet, this`lastRet
      ensures edges == old(edges) + Into(BoundarySources(insts, op), id)
      ensures Elements(nodesSinceLastRet) == SinceBoundary(insts + [Inst(id, op)])
      ensures Ids(lastRet) == LatestBoundary(insts + [Inst(id, op)])
    {
      SinceBoundaryExtends(insts, Inst(id, op));
      LastBoundaryExtends(insts, Inst(id, op));
      if op.Ret? || op.Call? {
        InsertControlDependences(nodesSinceLastRet, id);
        nodesSinceLastRet := [];
        if lastRet.Some? {
          edges := edges + {(lastRet.value, id)};
        }
        lastRet := Some(id);
      } else if !IsDma(op) {
        nodesSinceLastRet := nodesSinceLastRet + [id];
      }
    }

    /** A fence waits for the transfers since the last fence; a transfer waits for the last fence. */
    method EnforceFence(id: nat, op: MicroOp)
      requires Elements(lastDmaNodes) == SinceFence(insts) && Ids(lastDmaFence) == LatestFence(insts)
      modifies this`edges, this`lastDmaNodes, this`lastDmaFence
      ensures edges == old(edges) + Into(FenceSources(insts, op), id)
      ensures Elements(lastDmaNodes) == SinceFence(insts + [Inst(id, op)])
      ensures Ids(lastDmaFence) == LatestFence(insts + [Inst(id, op)])
    {
      SinceFenceExtends(insts, Inst(id, op));
      LastFenceExtends(insts, Inst(id, op));
      if op.DmaFence? {
        lastDmaFence := Some(id);
        InsertControlDependences(lastDmaNodes, id);
        lastDmaNodes := [];
      } else if op.DmaLoad? || op.DmaStore? || op.SetReadyBits? {
        if lastDmaFence.Some? {
          edges := edges + {(lastDmaFence.value, id)};
        }
        lastDmaNodes := lastDmaNodes + [id];
      }
    }

    /** Tracks the next instruction. */
    method Track(id: nat, op: MicroOp)
      requires Valid()
      modifies this
      ensures Valid() && insts == old(insts) + [Inst(id, op)]
    {
      ControlEdgesExtend(insts, Inst(id, op));
      IntoUnion(BoundarySources(insts, op), FenceSources(insts, op), id);
      EnforceBoundary(id, op);
      EnforceFence(id, op);
      insts := insts + [Inst(id, op)];
    }
  }
}
