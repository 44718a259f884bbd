/** Queue discipline of the scheduler: in every state the connected nodes split into waiting,
    ready, executing and completed, and a waiting node counts its uncompleted parents. */
module SchedulerStructure {
  import opened Collections
  import opened ExecNodes
  import opened DependenceGraph
  import opened Scheduler

  ghost predicate Queues(g: Graph, s: State) {
    && NoDuplicates(s.executing) && NoDuplicates(s.ready)
    && (forall v :: v in s.executing ==> v < |g.nodes| && v !in s.ready)
    && (forall k :: 0 <= k < |s.ready| ==> s.ready[k] < |g.nodes|)
  }

  ghost predicate Waiting(s: State, v: nat)
    requires v < |s.numParents|
  {
    s.numParents[v] > 0
  }

  ghost predicate Completed(s: State, v: nat)
    requires v < |s.complete|
  {
    s.complete[v] >= 0
  }

  /** Exactly one of the four phases holds of a connected node, none of any other node. */
  ghost predicate OnePhase(g: Graph, s: State, v: nat)
    requires Shape(g, s) && v < |g.nodes|
  {
    var w, e, r, d := Waiting(s, v), v in s.executing, v in s.ready, Completed(s, v);
    && (Connected(g, v) <==> w || e || r || d)
    && (w ==> !e && !r && !d) && (e ==> !r && !d) && (r ==> !d)
  }

  /** `pending` holds the children that a completion under way has not reached yet. */
  ghost predicate Counted(g: Graph, s: State, pending: set<nat>, v: nat)
    requires Shape(g, s) && v < |g.nodes|
  {
    && (Waiting(s, v) ==> s.numParents[v] == |Parents(g, v) - Done(s)| + (if v in pending then 1 else 0))
    && (!Waiting(s, v) ==> Parents(g, v) <= Done(s) && v !in pending)
  }

  ghost predicate Structure(g: Graph, s: State, pending: set<nat>) {
    && Shape(g, s)
    && Queues(g, s)
    && (forall v :: 0 <= v < |g.nodes| ==> OnePhase(g, s, v))
    && (forall v :: 0 <= v < |g.nodes| ==> Counted(g, s, pending, v))
    && s.executed == |Done(s)|
  }

  // ----- waking the children of a completed node

  lemma DecrementKeeps(g: Graph, s: State, s': State, v: nat, pending: set<nat>)
    requires Structure(g, s, pending) && Shape(g, s') && v in pending && v < |g.nodes|
    requires s.numParents[v] > 1 && s'.numParents == s.numParents[v := s.numParents[v] - 1]
    requires s'.executing == s.executing && s'.ready == s.ready
    requires s'.complete == s.complete && s'.executed == s.executed
    ensures Structure(g, s', pending - {v})
  {
    assert Done(s') == Done(s);
    forall w | 0 <= w < |g.nodes| ensures OnePhase(g, s', w) && Counted(g, s', pending - {v}, w) {
      assert OnePhase(g, s, w) && Counted(g, s, pending, w);
    }
  }

  /** `s'` is `s` with the waiting node `v` moved to one of the queues. */
  ghost predicate Enqueued(g: Graph, s: State, s': State, v: nat) {
    && Shape(g, s) && Shape(g, s') && v < |g.nodes|
    && s.numParents[v] == 1 && s'.numParents == s.numParents[v := -1]
    && s'.complete == s.complete && s'.executed == s.executed
    && (|| (s'.executing == s.executing + [v] && s'.ready == s.ready)
        || (s'.executing == s.executing && (s'.ready == s.ready + [v] || s'.ready == [v] + s.ready)))
  }

  lemma EnqueueKeeps(g: Graph, s: State, s': State, v: nat, pending: set<nat>)
    requires Structure(g, s, pending) && Enqueued(g, s, s', v) && v in pending
    ensures Structure(g, s', pending - {v})
  {
    assert Done(s') == Done(s);
    assert OnePhase(g, s, v) && Counted(g, s, pending, v);
    assert Parents(g, v) - Done(s) == {};
    EnqueuedMembers(g, s, s', v);
    forall w | 0 <= w < |g.nodes| ensures OnePhase(g, s', w) && Counted(g, s', pending - {v}, w) {
      assert OnePhase(g, s, w) && Counted(g, s, pending, w);
      if w == v {
        forall p | p in Parents(g, v) ensures p in Done(s) {
          assert p !in Parents(g, v) - Done(s);
        }
      }
    }
  }

  lemma EnqueuedMembers(g: Graph, s: State, s': State, v: nat)
    requires Enqueued(g, s, s', v) && Queues(g, s) && v !in s.executing && v !in s.ready
    ensures Queues(g, s')
    ensures forall w :: w in s'.executing || w in s'.ready <==> w in s.executing || w in s.ready || w == v
    ensures forall w :: w != v ==> (w in s'.executing <==> w in s.executing)
  {
  }

  lemma UpdateChildEffect(g: Graph, cfg: Config, s: State, u: nat, e: Edge, after: nat)
    requires Shape(g, s) && u < |g.nodes| && e.dst < |g.nodes| && s.numParents[e.dst] > 0
    ensures var s' := UpdateChild(g, cfg, s, u, e, after);
            && Shape(g, s') && s'.complete == s.complete && s'.executed == s.executed
            && (s.numParents[e.dst] == 1 ==> Enqueued(g, s, s', e.dst))
            && (s.numParents[e.dst] > 1 ==>
                  && s'.numParents == s.numParents[e.dst := s.numParents[e.dst] - 1]
                  && s'.executing == s.executing && s'.ready == s.ready)
  {
  }

  lemma UpdateChildKeeps(g: Graph, cfg: Config, s: State, u: nat, e: Edge, after: nat, pending: set<nat>, s': State)
    requires Structure(g, s, pending) && u < |g.nodes| && e.dst in pending && e.dst < |g.nodes|
    requires s' == UpdateChild(g, cfg, s, u, e, after)
    ensures Structure(g, s', pending - {e.dst})
  {
    assert Counted(g, s, pending, e.dst);
    UpdateChildEffect(g, cfg, s, u, e, after);
    if s.numParents[e.dst] > 1 {
      DecrementKeeps(g, s, s', e.dst, pending);
    } else {
      EnqueueKeeps(g, s, s', e.dst, pending);
    }
  }

  lemma {:induction false} UpdateChildrenKeeps(g: Graph, cfg: Config, s: State, u: nat, es: seq<Edge>, after: nat)
    requires Structure(g, s, Targets(es)) && u < |g.nodes|
    requires forall k :: 0 <= k < |es| ==> es[k].dst < |g.nodes|
    requires forall j, k :: 0 <= j < k < |es| ==> es[j].dst != es[k].dst
    ensures Structure(g, UpdateChildren(g, cfg, s, u, es, after), {})
    decreases |es|
  {
    if es == [] {
      assert Targets(es) == {};
    } else {
      assert es[0] in es;
      var s' := UpdateChild(g, cfg, s, u, es[0], after);
      UpdateChildKeeps(g, cfg, s, u, es[0], after, Targets(es), s');
      TargetsTail(es);
      UpdateChildrenKeeps(g, cfg, s', u, es[1..], after);
    }
  }

  lemma TargetsTail(es: seq<Edge>)
    requires es != []
    requires forall j, k :: 0 <= j < k < |es| ==> es[j].dst != es[k].dst
    ensures Targets(es[1..]) == Targets(es) - {es[0].dst}
  {
    assert es == [es[0]] + es[1..];
    forall d | d in Targets(es[1..]) ensures d in Targets(es) - {es[0].dst} {
      var e :| e in es[1..] && e.dst == d;
      var k :| 0 <= k < |es[1..]| && es[1..][k] == e;
      assert es[k + 1] == e && es[0].dst != es[k + 1].dst;
    }
  }

  /** `s1` is `s` after the node at position `i` of the executing queue is marked completed. */
  ghost predicate Retired(g: Graph, s: State, i: nat, s1: State) {
    && Shape(g, s) && Shape(g, s1) && i < |s.executing|
    && var u := s.executing[i];
    && u < |g.nodes|
    && s1.executing == RemoveAt(s.executing, i) && s1.ready == s.ready
    && s1.numParents == s.numParents
    && s1.executed == s.executed + 1 && s1.complete == s.complete[u := s.cycle]
  }

  lemma RetirePhases(g: Graph, s: State, i: nat, s1: State, w: nat)
    requires Structure(g, s, {}) && Retired(g, s, i, s1) && w < |g.nodes|
    ensures OnePhase(g, s1, w)
  {
    assert s.executing[i] in s.executing;
    assert OnePhase(g, s, w);
    RemoveAtMembers(s.executing, i);
  }

  lemma RetireCounts(g: Graph, s: State, i: nat, s1: State, w: nat)
    requires Structure(g, s, {}) && Retired(g, s, i, s1) && w < |g.nodes|
    ensures Counted(g, s1, Targets(g.out[s.executing[i]]), w)
  {
    var u := s.executing[i];
    assert u in s.executing;
    assert OnePhase(g, s, u) && Counted(g, s, {}, w);
    RetireDone(g, s, i, s1);
    OneFewer(Parents(g, w), Done(s), Done(s1), u);
    assert u in Parents(g, w) <==> HasEdge(g, u, w);
  }

  lemma OneFewer(parents: set<nat>, done: set<nat>, done1: set<nat>, u: nat)
    requires done1 == done + {u} && u !in done
    ensures |parents - done1| == |parents - done| - if u in parents then 1 else 0
  {
    if u in parents {
      assert parents - done1 == (parents - done) - {u};
    } else {
      assert parents - done1 == parents - done;
    }
  }

  lemma RetireDone(g: Graph, s: State, i: nat, s1: State)
    requires Structure(g, s, {}) && Retired(g, s, i, s1)
    ensures Done(s1) == Done(s) + {s.executing[i]} && s.executing[i] !in Done(s)
  {
    assert s.executing[i] in s.executing;
    assert OnePhase(g, s, s.executing[i]);
  }

  /** Marking a node completed leaves its children pending. */
  lemma RetireKeeps(g: Graph, s: State, i: nat, s1: State)
    requires Structure(g, s, {}) && Retired(g, s, i, s1)
    ensures Structure(g, s1, Targets(g.out[s.executing[i]]))
  {
    RetireDone(g, s, i, s1);
    RemoveAtMembers(s.executing, i);
    forall w | 0 <= w < |g.nodes|
      ensures OnePhase(g, s1, w) && Counted(g, s1, Targets(g.out[s.executing[i]]), w)
    {
      RetirePhases(g, s, i, s1, w);
      RetireCounts(g, s, i, s1, w);
    }
  }

  lemma RemoveAtMembers(q: seq<nat>, i: nat)
    requires NoDuplicates(q) && i < |q|
    ensures NoDuplicates(RemoveAt(q, i))
    ensures forall v :: v in RemoveAt(q, i) <==> v in q && v != q[i]
  {
    var r := RemoveAt(q, i);
    forall v ensures v in r <==> v in q && v != q[i] {
      if v in q && v != q[i] {
        var k :| 0 <= k < |q| && q[k] == v;
        assert r[if k < i then k else k - 1] == v;
      }
    }
  }

  lemma FinishKeeps(g: Graph, cfg: Config, s: State, i: nat)
    requires Structure(g, s, {}) && i < |s.executing|
    requires s.executing[i] < |g.nodes|
    ensures Structure(g, Finish(g, cfg, s, i), {})
  {
    var u := s.executing[i];
    RetireKeeps(g, s, i, Retire(s, i));
    UpdateChildrenKeeps(g, cfg, Retire(s, i), u, g.out[u], TimeAfter(g, cfg, s, u));
  }

  /** Changing only times, in-flight counters and ports keeps the queue discipline. */
  lemma SameQueues(g: Graph, s: State, s': State)
    requires Structure(g, s, {}) && Shape(g, s')
    requires s'.executing == s.executing && s'.ready == s.ready && s'.numParents == s.numParents
    requires s'.complete == s.complete && s'.executed == s.executed
    ensures Structure(g, s', {})
  {
    assert Done(s') == Done(s);
    forall v | 0 <= v < |g.nodes| ensures OnePhase(g, s', v) && Counted(g, s', {}, v) {
      assert OnePhase(g, s, v) && Counted(g, s, {}, v);
    }
  }

  lemma InQueueInGraph(g: Graph, s: State, i: nat)
    requires Structure(g, s, {}) && i < |s.executing|
    ensures s.executing[i] < |g.nodes|
  {
    assert s.executing[i] in s.executing;
  }

  lemma VisitKeeps(g: Graph, cfg: Config, s: State, i: nat)
    requires Structure(g, s, {}) && i < |s.executing|
    requires s.executing[i] < |g.nodes|
    ensures Structure(g, Visit(g, cfg, s, i).state, {})
  {
    var v := s.executing[i];
    if Blocked(cfg, s, g.nodes[v]) {
    } else if StaysInFlight(s, g.nodes[v], v) {
      SameQueues(g, s, Advance(g, s, v));
    } else {
      SameQueues(g, s, Dispatch(g, s, v));
      FinishKeeps(g, cfg, Dispatch(g, s, v), i);
    }
  }
}
