/** Who gets a port: within a cycle, accesses of one partition are served in the order of the executing queue,
    and stores that were woken in one cycle lead that queue in the next. */
module SchedulerPriority {
  import opened Collections
  import opened ExecNodes
  import opened DependenceGraph
  import opened Scheduler
  import opened SchedulerStructure
  import opened SchedulerRun
  import opened SchedulerPorts

  // ----- the queue at the start of a cycle

  /** The nodes of a queue that are among `keep`, in order. */
  function Only(q: seq<nat>, keep: set<nat>): seq<nat> {
    if q == [] then []
    else if q[|q| - 1] in keep then Only(q[..|q| - 1], keep) + [q[|q| - 1]]
    else Only(q[..|q| - 1], keep)
  }

  function StoresIn(g: Graph, q: seq<nat>): seq<nat> {
    Only(q, set v | 0 <= v < |g.nodes| && g.nodes[v].op == Store)
  }

  function OthersIn(g: Graph, q: seq<nat>): seq<nat> {
    Only(q, set v | 0 <= v < |g.nodes| && g.nodes[v].op != Store)
  }

  lemma OnlyBack(q: seq<nat>, x: nat, keep: set<nat>)
    ensures Only(q + [x], keep) == if x in keep then Only(q, keep) + [x] else Only(q, keep)
  {
    assert (q + [x])[..|q|] == q;
  }

  lemma {:induction false} OnlyFront(q: seq<nat>, x: nat, keep: set<nat>)
    ensures Only([x] + q, keep) == if x in keep then [x] + Only(q, keep) else Only(q, keep)
    decreases |q|
  {
    if q == [] {
      OnlyBack([], x, keep);
      assert [x] + q == [] + [x];
    } else {
      var p, y := q[..|q| - 1], q[|q| - 1];
      OnlyFront(p, x, keep);
      OnlyBack(p, y, keep);
      OnlyBack([x] + p, y, keep);
      assert q == p + [y];
      assert [x] + q == ([x] + p) + [y];
    }
  }

  function Backwards(q: seq<nat>): seq<nat> {
    if q == [] then [] else [q[|q| - 1]] + Backwards(q[..|q| - 1])
  }

  lemma BackwardsBack(q: seq<nat>, x: nat)
    ensures Backwards(q + [x]) == [x] + Backwards(q)
  {
    assert (q + [x])[..|q|] == q;
  }

  lemma FilterBack(g: Graph, q: seq<nat>, x: nat)
    requires x < |g.nodes|
    ensures StoresIn(g, q + [x]) == if g.nodes[x].op == Store then StoresIn(g, q) + [x] else StoresIn(g, q)
    ensures OthersIn(g, q + [x]) == if g.nodes[x].op == Store then OthersIn(g, q) else OthersIn(g, q) + [x]
  {
    OnlyBack(q, x, set v | 0 <= v < |g.nodes| && g.nodes[v].op == Store);
    OnlyBack(q, x, set v | 0 <= v < |g.nodes| && g.nodes[v].op != Store);
  }

  lemma {:induction false} CopyLast(g: Graph, executing: seq<nat>, ready: seq<nat>, x: nat)
    requires x < |g.nodes| && forall k :: 0 <= k < |ready| ==> ready[k] < |g.nodes|
    ensures var before := CopyReady(g, executing, ready);
      CopyReady(g, executing, ready + [x]) == if g.nodes[x].op == Store then [x] + before else before + [x]
    decreases |ready|
  {
    if ready == [] {
      assert [x][1..] == [];
    } else {
      assert (ready + [x])[1..] == ready[1..] + [x];
      var next := if g.nodes[ready[0]].op.Store? then [ready[0]] + executing else executing + [ready[0]];
      CopyLast(g, next, ready[1..], x);
    }
  }

  lemma CopyAround(g: Graph, executing: seq<nat>, q: seq<nat>, x: nat, front: seq<nat>, back: seq<nat>)
    requires x < |g.nodes| && forall k :: 0 <= k < |q| ==> q[k] < |g.nodes|
    requires CopyReady(g, executing, q) == front + executing + back
    ensures CopyReady(g, executing, q + [x]) ==
      if g.nodes[x].op == Store then ([x] + front) + executing + back else front + executing + (back + [x])
  {
    CopyLast(g, executing, q, x);
    var middle := front + executing + back;
    assert [x] + middle == ([x] + front) + executing + back;
    assert middle + [x] == front + executing + (back + [x]);
  }

  /** Copying the ready queue over puts its stores in front, the last of them first, and the rest at the end. */
  lemma {:induction false} CopyReadyIs(g: Graph, executing: seq<nat>, ready: seq<nat>)
    requires forall k :: 0 <= k < |ready| ==> ready[k] < |g.nodes|
    ensures CopyReady(g, executing, ready) == Backwards(StoresIn(g, ready)) + executing + OthersIn(g, ready)
    decreases |ready|
  {
    if ready == [] {
      assert [] + executing + [] == executing;
    } else {
      var q, x := ready[..|ready| - 1], ready[|ready| - 1];
      assert ready == q + [x];
      CopyReadyIs(g, executing, q);
      var stores, others := StoresIn(g, q), OthersIn(g, q);
      CopyAround(g, executing, q, x, Backwards(stores), others);
      FilterBack(g, q, x);
      BackwardsBack(stores, x);
    }
  }

  /** The ready queue after these nodes were woken, one by one. */
  function WokenQueue(g: Graph, woken: seq<nat>): (q: seq<nat>)
    requires forall k :: 0 <= k < |woken| ==> woken[k] < |g.nodes|
    ensures forall k :: 0 <= k < |q| ==> q[k] < |g.nodes|
  {
    if woken == [] then []
    else
      var v := woken[|woken| - 1];
      JoinReady(WokenQueue(g, woken[..|woken| - 1]), v, Deferred(0), g.nodes[v].op.Store?)
  }

  lemma FilterFront(g: Graph, q: seq<nat>, x: nat)
    requires x < |g.nodes|
    ensures StoresIn(g, [x] + q) == if g.nodes[x].op == Store then [x] + StoresIn(g, q) else StoresIn(g, q)
    ensures OthersIn(g, [x] + q) == if g.nodes[x].op == Store then OthersIn(g, q) else [x] + OthersIn(g, q)
  {
    OnlyFront(q, x, set v | 0 <= v < |g.nodes| && g.nodes[v].op == Store);
    OnlyFront(q, x, set v | 0 <= v < |g.nodes| && g.nodes[v].op != Store);
  }

  lemma {:induction false} BackwardsFront(q: seq<nat>, x: nat)
    ensures Backwards([x] + q) == Backwards(q) + [x]
    decreases |q|
  {
    if q == [] {
      assert [x] + q == [] + [x];
      BackwardsBack([], x);
    } else {
      var p, y := q[..|q| - 1], q[|q| - 1];
      assert q == p + [y] && [x] + q == ([x] + p) + [y];
      BackwardsFront(p, x);
      BackwardsBack([x] + p, y);
      BackwardsBack(p, y);
    }
  }

  lemma JoinedQueueIs(g: Graph, q: seq<nat>, v: nat)
    requires v < |g.nodes| && forall k :: 0 <= k < |q| ==> q[k] < |g.nodes|
    ensures var joined := JoinReady(q, v, Deferred(0), g.nodes[v].op.Store?);
      && (forall k :: 0 <= k < |joined| ==> joined[k] < |g.nodes|)
      && (if g.nodes[v].op == Store then
            Backwards(StoresIn(g, joined)) == Backwards(StoresIn(g, q)) + [v] && OthersIn(g, joined) == OthersIn(g, q)
          else
            StoresIn(g, joined) == StoresIn(g, q) && OthersIn(g, joined) == OthersIn(g, q) + [v])
  {
    if g.nodes[v].op == Store {
      FilterFront(g, q, v);
      BackwardsFront(StoresIn(g, q), v);
    } else {
      FilterBack(g, q, v);
    }
  }

  lemma {:induction false} WokenQueueIs(g: Graph, woken: seq<nat>)
    requires forall k :: 0 <= k < |woken| ==> woken[k] < |g.nodes|
    ensures Backwards(StoresIn(g, WokenQueue(g, woken))) == StoresIn(g, woken)
    ensures OthersIn(g, WokenQueue(g, woken)) == OthersIn(g, woken)
    decreases |woken|
  {
    if woken != [] {
      var w, v := woken[..|woken| - 1], woken[|woken| - 1];
      assert woken == w + [v];
      WokenQueueIs(g, w);
      FilterBack(g, w, v);
      JoinedQueueIs(g, WokenQueue(g, w), v);
    }
  }

  /** The two reversals cancel: of the nodes woken in a cycle, the stores go before everything in the executing
      queue and the others behind it, both in the order in which they were woken. */
  lemma StoresOvertake(g: Graph, executing: seq<nat>, woken: seq<nat>)
    requires forall k :: 0 <= k < |woken| ==> woken[k] < |g.nodes|
    ensures CopyReady(g, executing, WokenQueue(g, woken)) == StoresIn(g, woken) + executing + OthersIn(g, woken)
  {
    CopyReadyIs(g, executing, WokenQueue(g, woken));
    WokenQueueIs(g, woken);
  }

  // ----- the order of waking

  /** The queue holds targets of these edges, in the order of the edges. */
  predicate InEdgeOrder(q: seq<nat>, es: seq<Edge>) {
    if q == [] then true
    else if es == [] then false
    else if q[0] == es[0].dst then InEdgeOrder(q[1..], es[1..])
    else InEdgeOrder(q, es[1..])
  }

  lemma {:induction false} InOrderTargets(q: seq<nat>, es: seq<Edge>, v: nat)
    requires InEdgeOrder(q, es) && v in q
    ensures exists k :: 0 <= k < |es| && es[k].dst == v
    decreases |es|
  {
    var rest := if q[0] == es[0].dst then q[1..] else q;
    assert q == [q[0]] + q[1..];
    if v != es[0].dst {
      InOrderTargets(rest, es[1..], v);
      var k :| 0 <= k < |es[1..]| && es[1..][k].dst == v;
      assert es[k + 1].dst == v;
    }
  }

  lemma SkipEdge(q: seq<nat>, es: seq<Edge>)
    requires es != [] && InEdgeOrder(q, es[1..]) && forall j, k :: 0 <= j < k < |es| ==> es[j].dst != es[k].dst
    ensures InEdgeOrder(q, es)
  {
    if q != [] {
      InOrderTargets(q, es[1..], q[0]);
      var k :| 0 <= k < |es[1..]| && es[1..][k].dst == q[0];
      assert es[k + 1].dst == q[0];
    }
  }

  /** The children that a completion sends to the executing queue join it in the order of the node's edges. */
  lemma {:induction false} WokenInEdgeOrder(g: Graph, cfg: Config, s: State, u: nat, es: seq<Edge>, after: nat)
    requires Shape(g, s) && u < |g.nodes| && (forall k :: 0 <= k < |es| ==> es[k].dst < |g.nodes|)
    requires forall j, k :: 0 <= j < k < |es| ==> es[j].dst != es[k].dst
    ensures var r := UpdateChildren(g, cfg, s, u, es, after);
      s.executing <= r.executing && InEdgeOrder(r.executing[|s.executing|..], es)
    decreases |es|
  {
    if es != [] {
      var m := UpdateChild(g, cfg, s, u, es[0], after);
      WokenInEdgeOrder(g, cfg, m, u, es[1..], after);
      var r := UpdateChildren(g, cfg, m, u, es[1..], after);
      var rest := r.executing[|m.executing|..];
      if m.executing == s.executing {
        SkipEdge(rest, es);
      } else {
        assert m.executing == s.executing + [es[0].dst];
        assert r.executing[|s.executing|..] == [es[0].dst] + rest;
        assert ([es[0].dst] + rest)[1..] == rest;
      }
    }
  }

  /** A run begins with the nodes without parents, in the order of their ids. */
  lemma {:induction false} RootsInOrder(g: Graph, n: nat, i: nat, j: nat)
    requires n <= |g.nodes| && i < j < |Roots(g, n)|
    ensures Roots(g, n)[i] < Roots(g, n)[j] < n
    decreases n
  {
    RootsBelow(g, n, j);
    if n > 0 && j < |Roots(g, n - 1)| {
      RootsInOrder(g, n - 1, i, j);
    } else if n > 0 {
      RootsBelow(g, n - 1, i);
    }
  }

  lemma {:induction false} RootsBelow(g: Graph, n: nat, i: nat)
    requires n <= |g.nodes| && i < |Roots(g, n)|
    ensures Roots(g, n)[i] < n
    decreases n
  {
    if n > 0 && i < |Roots(g, n - 1)| { RootsBelow(g, n - 1, i); }
  }

  // ----- served in order

  /** Once a partition has no port left it serves nothing more in the cycle. */
  lemma {:induction false} FullServesNothing(g: Graph, cfg: Config, s: State, i: nat, slot: Slot, y: nat)
    requires Structure(g, s, {}) && i <= |s.executing| && !CanService(cfg, s, slot)
    requires y < |g.nodes| && Uses(g.nodes[y], slot)
    ensures Pass(g, cfg, s, i).complete[y] == s.complete[y]
    decreases |g.nodes| - s.executed, |s.executing| - i
  {
    if i < |s.executing| {
      VisitAdvances(g, cfg, s, i);
      VisitFull(g, cfg, s, i, slot, y);
      var r := Visit(g, cfg, s, i);
      FullServesNothing(g, cfg, r.state, if r.executed then i else i + 1, slot, y);
    }
  }

  lemma VisitFull(g: Graph, cfg: Config, s: State, i: nat, slot: Slot, y: nat)
    requires Structure(g, s, {}) && i < |s.executing| && s.executing[i] < |g.nodes| && !CanService(cfg, s, slot)
    requires y < |g.nodes| && Uses(g.nodes[y], slot)
    ensures var r := Visit(g, cfg, s, i).state; !CanService(cfg, r, slot) && r.complete[y] == s.complete[y]
  {
    FinishEffect(g, cfg, Dispatch(g, s, s.executing[i]), i);
  }

  lemma VisitKeepsDone(g: Graph, cfg: Config, s: State, i: nat, x: nat)
    requires Structure(g, s, {}) && i < |s.executing| && s.executing[i] < |g.nodes| && x < |g.nodes|
    ensures s.complete[x] >= 0 ==> Visit(g, cfg, s, i).state.complete[x] >= 0
  {
    FinishEffect(g, cfg, Dispatch(g, s, s.executing[i]), i);
  }

  lemma {:induction false} PassKeepsDone(g: Graph, cfg: Config, s: State, i: nat, x: nat)
    requires Structure(g, s, {}) && i <= |s.executing| && x < |g.nodes| && s.complete[x] >= 0
    ensures Pass(g, cfg, s, i).complete[x] >= 0
    decreases |g.nodes| - s.executed, |s.executing| - i
  {
    if i < |s.executing| {
      VisitAdvances(g, cfg, s, i);
      VisitKeepsDone(g, cfg, s, i, x);
      var r := Visit(g, cfg, s, i);
      PassKeepsDone(g, cfg, r.state, if r.executed then i else i + 1, x);
    }
  }

  /** What a visit makes of the nodes behind the one visited. */
  lemma VisitShifts(g: Graph, cfg: Config, s: State, i: nat, p: nat)
    requires Structure(g, s, {}) && i < p < |s.executing| && s.executing[i] < |g.nodes|
    ensures var r := Visit(g, cfg, s, i);
      var k := if r.executed then p - 1 else p;
      k < |r.state.executing| && r.state.executing[k] == s.executing[p]
  {
    FinishEffect(g, cfg, Dispatch(g, s, s.executing[i]), i);
  }

  /** An access that is visited while its partition has a port left completes. */
  lemma VisitServes(g: Graph, cfg: Config, s: State, i: nat, slot: Slot)
    requires Structure(g, s, {}) && i < |s.executing| && s.executing[i] < |g.nodes|
    requires Uses(g.nodes[s.executing[i]], slot) && CanService(cfg, s, slot)
    ensures Visit(g, cfg, s, i).state.complete[s.executing[i]] == s.cycle
  {
    FinishEffect(g, cfg, Dispatch(g, s, s.executing[i]), i);
  }

  /** The access visited now is served, or no other one that is not served yet is. */
  lemma ServedOrFull(g: Graph, cfg: Config, s: State, i: nat, slot: Slot, y: nat)
    requires Structure(g, s, {}) && i < |s.executing| && s.executing[i] < |g.nodes| && y in s.executing && y < |g.nodes|
    requires Uses(g.nodes[s.executing[i]], slot) && Uses(g.nodes[y], slot)
    ensures var t := Pass(g, cfg, s, i); t.complete[s.executing[i]] >= 0 || t.complete[y] < 0
  {
    if CanService(cfg, s, slot) {
      VisitAdvances(g, cfg, s, i);
      VisitServes(g, cfg, s, i, slot);
      var r := Visit(g, cfg, s, i);
      PassKeepsDone(g, cfg, r.state, if r.executed then i else i + 1, s.executing[i]);
    } else {
      FullServesNothing(g, cfg, s, i, slot, y);
      assert OnePhase(g, s, y);
    }
  }

  /** Of two accesses of one partition, the later one in the queue is served only if the earlier one is. */
  lemma {:induction false} ServedInOrder(g: Graph, cfg: Config, s: State, i: nat, p: nat, q: nat, slot: Slot)
    requires Structure(g, s, {}) && i <= p < q < |s.executing|
    requires s.executing[p] < |g.nodes| && s.executing[q] < |g.nodes|
    requires Uses(g.nodes[s.executing[p]], slot) && Uses(g.nodes[s.executing[q]], slot)
    ensures Pass(g, cfg, s, i).complete[s.executing[q]] >= 0 ==> Pass(g, cfg, s, i).complete[s.executing[p]] >= 0
    decreases |g.nodes| - s.executed, |s.executing| - i
  {
    if i == p {
      ServedOrFull(g, cfg, s, i, slot, s.executing[q]);
    } else {
      VisitAdvances(g, cfg, s, i);
      VisitShifts(g, cfg, s, i, p);
      VisitShifts(g, cfg, s, i, q);
      var r := Visit(g, cfg, s, i);
      if r.executed {
        ServedInOrder(g, cfg, r.state, i, p - 1, q - 1, slot);
      } else {
        ServedInOrder(g, cfg, r.state, i + 1, p, q, slot);
      }
    }
  }

  lemma {:induction false} BackwardsHolds(q: seq<nat>, x: nat)
    requires x in q
    ensures x in Backwards(q)
  {
    var p, y := q[..|q| - 1], q[|q| - 1];
    assert q == p + [y];
    if x != y { BackwardsHolds(p, x); }
  }

  /** Every node of a queue is among its stores or among the others. */
  lemma {:induction false} Sorted(g: Graph, q: seq<nat>, x: nat)
    requires (forall k :: 0 <= k < |q| ==> q[k] < |g.nodes|) && x in q
    ensures x < |g.nodes| && (if g.nodes[x].op == Store then x in StoresIn(g, q) else x in OthersIn(g, q))
  {
    var p, y := q[..|q| - 1], q[|q| - 1];
    assert q == p + [y];
    FilterBack(g, p, y);
    if x != y { Sorted(g, p, x); }
  }

  /** A store that was woken in one cycle takes precedence in the next over every access of its partition that was
      waiting already, and over the loads woken with it: none of them gets a port unless the store does. */
  lemma StoresGoFirst(g: Graph, cfg: Config, s: State, slot: Slot, x: nat, y: nat)
    requires Structure(g, s, {}) && x < |g.nodes| && y < |g.nodes|
    requires x in s.ready && g.nodes[x].op == Store && Uses(g.nodes[x], slot) && Uses(g.nodes[y], slot)
    requires y in s.executing || (y in s.ready && g.nodes[y].op != Store)
    ensures var t := Pass(g, cfg, EndCycle(g, s), 0); t.complete[y] >= 0 ==> t.complete[x] >= 0
  {
    var n := EndCycle(g, s);
    var p, q := StoreInFront(g, s, n.executing, x, y);
    ServedInOrder(g, cfg, n, 0, p, q, slot);
  }

  lemma StoreInFront(g: Graph, s: State, queue: seq<nat>, x: nat, y: nat) returns (p: nat, q: nat)
    requires Structure(g, s, {}) && x in s.ready && x < |g.nodes| && y < |g.nodes| && g.nodes[x].op == Store
    requires y in s.executing || (y in s.ready && g.nodes[y].op != Store)
    requires queue == CopyReady(g, s.executing, s.ready)
    ensures p < q < |queue| && queue[p] == x && queue[q] == y
  {
    var front, back := Backwards(StoresIn(g, s.ready)), OthersIn(g, s.ready);
    CopyReadyIs(g, s.executing, s.ready);
    Sorted(g, s.ready, x);
    BackwardsHolds(StoresIn(g, s.ready), x);
    p :| p < |front| && front[p] == x;
    var rest := s.executing + back;
    assert y in rest by { if y in s.ready { Sorted(g, s.ready, y); } }
    var k: nat :| k < |rest| && rest[k] == y;
    q := |front| + k;
    assert queue == front + rest;
  }
}
