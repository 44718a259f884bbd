/** Control dependences of a trace, stated over the instructions alone, and exactly what they order: calls
    and returns wait for everything before them but hold back nothing after them, and DMA fences order
    transfers exactly when no two fences stand next to each other. */
module ControlDependence {
  import opened ExecNodes

  datatype Inst = Inst(id: nat, op: MicroOp)

  predicate IsBoundary(op: MicroOp) { op.Call? || op.Ret? }

  /** Operations that the function-boundary rule leaves alone. */
  predicate IsDma(op: MicroOp) { op.DmaLoad? || op.DmaStore? || op.DmaFence? || op.SetReadyBits? }

  predicate IsTransfer(op: MicroOp) { op.DmaLoad? || op.DmaStore? || op.SetReadyBits? }

  predicate NoBoundary(insts: seq<Inst>, i: int, j: int) {
    forall k :: 0 <= k < |insts| && i < k < j ==> !IsBoundary(insts[k].op)
  }

  predicate NoFence(insts: seq<Inst>, i: int, j: int) {
    forall k :: 0 <= k < |insts| && i < k < j ==> insts[k].op != DmaFence
  }

  /** Instruction `j` waits for the earlier instruction `i`. */
  predicate Depends(insts: seq<Inst>, i: int, j: int)
    requires 0 <= i < |insts| && 0 <= j < |insts|
  {
    i < j &&
    var a, b := insts[i].op, insts[j].op;
    || (IsBoundary(b) && !IsDma(a) && NoBoundary(insts, i, j))
    || (b.DmaFence? && IsTransfer(a) && NoFence(insts, i, j))
    || (IsTransfer(b) && a.DmaFence? && NoFence(insts, i, j))
  }

  /** All control edges, as pairs of node ids. */
  ghost function ControlEdges(insts: seq<Inst>): set<(nat, nat)> {
    set i, j | 0 <= i < |insts| && 0 <= j < |insts| && Depends(insts, i, j) :: (insts[i].id, insts[j].id)
  }

  ghost predicate IsChain(insts: seq<Inst>, p: seq<int>) {
    && |p| >= 2
    && (forall k :: 0 <= k < |p| ==> 0 <= p[k] < |insts|)
    && (forall k :: 0 <= k < |p| - 1 ==> Depends(insts, p[k], p[k + 1]))
  }

  /** A nonempty chain of control dependences leads from `i` to `j`. */
  ghost predicate Ordered(insts: seq<Inst>, i: int, j: int) {
    exists p :: IsChain(insts, p) && p[0] == i && p[|p| - 1] == j
  }

  lemma DependsOrders(insts: seq<Inst>, i: int, j: int)
    requires 0 <= i < |insts| && 0 <= j < |insts| && Depends(insts, i, j)
    ensures Ordered(insts, i, j)
  {
    var p := [i, j];
    assert IsChain(insts, p) && p[0] == i && p[|p| - 1] == j;
  }

  lemma OrderedStep(insts: seq<Inst>, i: int, k: int, j: int)
    requires Ordered(insts, i, k) && 0 <= k < |insts| && 0 <= j < |insts| && Depends(insts, k, j)
    ensures Ordered(insts, i, j)
  {
    var p :| IsChain(insts, p) && p[0] == i && p[|p| - 1] == k;
    var q := p + [j];
    assert IsChain(insts, q) && q[0] == i && q[|q| - 1] == j;
  }

  /** Every call or return waits, directly or through earlier ones, for every earlier non-DMA node. */
  lemma {:induction false} BoundaryIsBarrier(insts: seq<Inst>, i: int, j: int)
    requires 0 <= i < j < |insts| && IsBoundary(insts[j].op) && !IsDma(insts[i].op)
    ensures Ordered(insts, i, j)
    decreases j
  {
    if NoBoundary(insts, i, j) {
      DependsOrders(insts, i, j);
    } else {
      var k := LastBoundary(insts, i, j);
      BoundaryIsBarrier(insts, i, k);
      OrderedStep(insts, i, k, j);
    }
  }

  lemma {:induction false} ChainEnds(insts: seq<Inst>, p: seq<int>)
    requires IsChain(insts, p)
    ensures p[0] < p[|p| - 1]
    ensures IsDma(insts[p[0]].op) <==> IsDma(insts[p[|p| - 1]].op)
    ensures !IsDma(insts[p[|p| - 1]].op) ==> IsBoundary(insts[p[|p| - 1]].op)
    decreases |p|
  {
    var n := |p| - 1;
    assert Depends(insts, p[n - 1], p[n - 1 + 1]);
    if n > 1 {
      var q := p[..n];
      forall k | 0 <= k < |q| - 1 ensures Depends(insts, q[k], q[k + 1]) { assert Depends(insts, p[k], p[k + 1]); }
      ChainEnds(insts, q);
    }
  }

  lemma OrderedEnds(insts: seq<Inst>, i: int, j: int)
    requires Ordered(insts, i, j)
    ensures 0 <= i < j < |insts|
    ensures IsDma(insts[i].op) <==> IsDma(insts[j].op)
    ensures !IsDma(insts[j].op) ==> IsBoundary(insts[j].op)
  {
    var p :| IsChain(insts, p) && p[0] == i && p[|p| - 1] == j;
    ChainEnds(insts, p);
  }

  /** What a call or return waits for: every earlier node except DMA nodes, and nothing else. */
  lemma BoundaryWaitsIff(insts: seq<Inst>, i: int, j: int)
    requires 0 <= i < |insts| && 0 <= j < |insts| && insts[j].op in {Call, Ret}
    ensures Ordered(insts, i, j) <==> i < j && insts[i].op !in {DmaLoad, DmaStore, DmaFence, SetReadyBits}
  {
    if Ordered(insts, i, j) { OrderedEnds(insts, i, j); }
    if i < j && !IsDma(insts[i].op) { BoundaryIsBarrier(insts, i, j); }
  }

  /** What waits for a call or return: only later calls and returns. */
  lemma BoundaryHoldsBackIff(insts: seq<Inst>, i: int, j: int)
    requires 0 <= i < |insts| && 0 <= j < |insts| && insts[i].op in {Call, Ret}
    ensures Ordered(insts, i, j) <==> i < j && insts[j].op in {Call, Ret}
  {
    if Ordered(insts, i, j) { OrderedEnds(insts, i, j); }
    if i < j && IsBoundary(insts[j].op) { BoundaryIsBarrier(insts, i, j); }
  }

  /** Any other node that is not DMA waits, over control edges, for nothing. */
  lemma OthersWaitForNothing(insts: seq<Inst>, i: int, j: int)
    requires 0 <= j < |insts| && insts[j].op !in {Call, Ret, DmaLoad, DmaStore, DmaFence, SetReadyBits}
    ensures !Ordered(insts, i, j)
  {
    if Ordered(insts, i, j) { OrderedEnds(insts, i, j); }
  }

  /** So the body of a function may start before the call: the failing case. */
  lemma CallDoesNotHoldBack()
    ensures !Ordered([Inst(0, Call), Inst(1, Add)], 0, 1)
  {
    BoundaryHoldsBackIff([Inst(0, Call), Inst(1, Add)], 0, 1);
  }

  lemma {:induction false} LastBoundary(insts: seq<Inst>, i: int, j: int) returns (k: int)
    requires 0 <= i < j <= |insts| && !NoBoundary(insts, i, j)
    ensures i < k < j && IsBoundary(insts[k].op) && NoBoundary(insts, k, j)
    decreases j
  {
    k := j - 1;
    if !IsBoundary(insts[j - 1].op) {
      k := LastBoundary(insts, i, j - 1);
    }
  }

  lemma {:induction false} LastFence(insts: seq<Inst>, i: int, j: int) returns (k: int)
    requires 0 <= i < j <= |insts| && !NoFence(insts, i, j)
    ensures i < k < j && insts[k].op.DmaFence? && NoFence(insts, k, j)
    decreases j
  {
    k := j - 1;
    if !insts[j - 1].op.DmaFence? {
      k := LastFence(insts, i, j - 1);
    }
  }

  // ----- fences

  predicate SomeTransfer(insts: seq<Inst>, i: int, j: int) {
    exists k :: 0 <= k < |insts| && i < k < j && insts[k].op in {DmaLoad, DmaStore, SetReadyBits}
  }

  /** Two fences in sequence, with no fence between them. */
  predicate NextFences(insts: seq<Inst>, f: int, f': int)
    requires 0 <= f < |insts| && 0 <= f' < |insts|
  {
    f < f' && insts[f].op.DmaFence? && insts[f'].op.DmaFence? && NoFence(insts, f, f')
  }

  /** There is a fence between `d` and `e`, and a transfer between any two successive ones. */
  predicate FencesHold(insts: seq<Inst>, d: int, e: int) {
    && !NoFence(insts, d, e)
    && (forall f, f' :: 0 <= f < |insts| && 0 <= f' < |insts| && d < f && f' < e && NextFences(insts, f, f') ==>
          SomeTransfer(insts, f, f'))
  }

  lemma {:induction false} FencesOrder(insts: seq<Inst>, d: int, e: int)
    requires 0 <= d < e < |insts| && IsTransfer(insts[d].op) && IsTransfer(insts[e].op)
    requires FencesHold(insts, d, e)
    ensures Ordered(insts, d, e)
    decreases e
  {
    var f := LastFence(insts, d, e);
    if NoFence(insts, d, f) {
      DependsOrders(insts, d, f);
    } else {
      var f0 := LastFence(insts, d, f);
      assert NextFences(insts, f0, f);
      var x :| 0 <= x < |insts| && f0 < x < f && IsTransfer(insts[x].op);
      FencesOrder(insts, d, x);
      OrderedStep(insts, d, x, f);
    }
    OrderedStep(insts, d, f, e);
  }

  lemma {:induction false} OrderNeedsFences(insts: seq<Inst>, p: seq<int>)
    requires IsChain(insts, p) && IsTransfer(insts[p[0]].op) && IsTransfer(insts[p[|p| - 1]].op)
    ensures FencesHold(insts, p[0], p[|p| - 1])
    decreases |p|
  {
    var n := |p|;
    assert Depends(insts, p[n - 2], p[n - 2 + 1]);
    var d, f, e := p[0], p[n - 2], p[n - 1];
    assert n > 2;
    assert Depends(insts, p[n - 3], p[n - 3 + 1]);
    var x := p[n - 3];
    if n > 3 {
      OrderNeedsFences(insts, p[..n - 2]);
    }
    forall g, g' | 0 <= g < |insts| && 0 <= g' < |insts| && d < g && g' < e && NextFences(insts, g, g')
      ensures SomeTransfer(insts, g, g')
    {
      if g' == f {
        assert g < x < f;
      } else {
        assert g' < x;
      }
    }
  }

  /** A transfer after a fence waits for a transfer before it exactly when the fences between them
      are separated by transfers: two fences in a row order nothing across them. */
  lemma FencedTransfersOrderedIff(insts: seq<Inst>, d: int, e: int)
    requires 0 <= d < e < |insts|
    requires insts[d].op in {DmaLoad, DmaStore, SetReadyBits} && insts[e].op in {DmaLoad, DmaStore, SetReadyBits}
    ensures Ordered(insts, d, e) <==> FencesHold(insts, d, e)
  {
    if FencesHold(insts, d, e) {
      FencesOrder(insts, d, e);
    }
    if Ordered(insts, d, e) {
      var p :| IsChain(insts, p) && p[0] == d && p[|p| - 1] == e;
      OrderNeedsFences(insts, p);
    }
  }

  /** The failing case: load, fence, fence, store. */
  lemma BackToBackFencesDoNotOrder()
    ensures var insts := [Inst(0, DmaLoad), Inst(1, DmaFence), Inst(2, DmaFence), Inst(3, DmaStore)];
            !Ordered(insts, 0, 3)
  {
    var insts := [Inst(0, DmaLoad), Inst(1, DmaFence), Inst(2, DmaFence), Inst(3, DmaStore)];
    assert NextFences(insts, 1, 2) && !SomeTransfer(insts, 1, 2);
    FencedTransfersOrderedIff(insts, 0, 3);
  }
}
