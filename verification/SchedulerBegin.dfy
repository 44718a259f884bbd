/** When a node can begin: the latest time at which one of its parents is done, a function of the cycles in
    which its ancestors complete. */
module SchedulerBegin {
  import opened ExecNodes
  import opened DependenceGraph
  import opened Scheduler
  import opened SchedulerStructure
  import opened SchedulerRun
  import opened SchedulerTiming
  import opened SchedulerLiveness

  /** The earliest time a child of `u` can begin, `u` having begun by `begin` and completed in `cycle`. */
  function DoneBy(u: Node, cfg: Config, begin: nat, cycle: nat): nat {
    if u.IsMemory() || u.IsFp() then At(cfg, cycle + 1)
    else FuLatency(u.op, cfg.cycleTime) + if begin > At(cfg, cycle) then begin else At(cfg, cycle)
  }

  ghost function DoneAt(g: Graph, cfg: Config, s: State, u: nat): nat
    requires Shape(g, s) && u < |g.nodes| && s.complete[u] >= 0
  {
    DoneBy(g.nodes[u], cfg, s.timeBefore[u], s.complete[u])
  }

  /** Parent `p` of `v` is completed, and its completion has reached `v`; that of `x` has not reached `pending`. */
  ghost predicate Counts(g: Graph, s: State, x: nat, pending: set<nat>, p: nat, v: nat)
    requires Shape(g, s) && v < |g.nodes|
  {
    p < |g.nodes| && p in Parents(g, v) && s.complete[p] >= 0 && !(p == x && v in pending)
  }

  /** The begin time of `v` is the latest among the parents that count, 0 without any. */
  ghost predicate Latest(g: Graph, cfg: Config, s: State, x: nat, pending: set<nat>, v: nat)
    requires Shape(g, s) && v < |g.nodes|
  {
    && (forall p: nat :: Counts(g, s, x, pending, p, v) ==> DoneAt(g, cfg, s, p) <= s.timeBefore[v])
    && (s.timeBefore[v] != 0 ==>
          exists p: nat :: Counts(g, s, x, pending, p, v) && DoneAt(g, cfg, s, p) == s.timeBefore[v])
  }

  ghost predicate AllLatest(g: Graph, cfg: Config, s: State, x: nat, pending: set<nat>) {
    Shape(g, s) && forall v: nat :: v < |g.nodes| ==> Latest(g, cfg, s, x, pending, v)
  }

  /** What only changes elsewhere leaves a begin time alone. */
  lemma LatestKept(g: Graph, cfg: Config, s: State, r: State, x: nat, from: set<nat>, y: nat, to: set<nat>, v: nat)
    requires Shape(g, s) && Shape(g, r) && v < |g.nodes| && Latest(g, cfg, s, x, from, v)
    requires r.timeBefore[v] == s.timeBefore[v]
    requires forall p: nat :: p < |g.nodes| ==> (Counts(g, r, y, to, p, v) <==> Counts(g, s, x, from, p, v))
    requires forall p: nat :: Counts(g, s, x, from, p, v) ==>
      r.complete[p] == s.complete[p] && r.timeBefore[p] == s.timeBefore[p]
    ensures Latest(g, cfg, r, y, to, v)
  {
  }

  lemma SameBegin(g: Graph, cfg: Config, s: State, r: State)
    requires AllLatest(g, cfg, s, 0, {}) && Shape(g, r) && r.complete == s.complete && r.timeBefore == s.timeBefore
    ensures AllLatest(g, cfg, r, 0, {})
  {
    forall v: nat | v < |g.nodes| ensures Latest(g, cfg, r, 0, {}, v) { LatestKept(g, cfg, s, r, 0, {}, 0, {}, v); }
  }

  /** Completing a node leaves its children to be told. */
  lemma RetireLatest(g: Graph, cfg: Config, s: State, i: nat)
    requires Structure(g, s, {}) && AllLatest(g, cfg, s, 0, {}) && i < |s.executing| && s.executing[i] < |g.nodes|
    ensures AllLatest(g, cfg, Retire(s, i), s.executing[i], Targets(g.out[s.executing[i]]))
  {
    var u, r := s.executing[i], Retire(s, i);
    assert u in s.executing && OnePhase(g, s, u);
    forall v: nat | v < |g.nodes| ensures Latest(g, cfg, r, u, Targets(g.out[u]), v) {
      assert u in Parents(g, v) <==> v in Targets(g.out[u]);
      LatestKept(g, cfg, s, r, 0, {}, u, Targets(g.out[u]), v);
    }
  }

  /** Telling one child. */
  lemma UpdateChildLatest(g: Graph, cfg: Config, s: State, u: nat, e: Edge, pending: set<nat>)
    requires Structure(g, s, pending) && AllLatest(g, cfg, s, u, pending) && u < |g.nodes| && s.complete[u] >= 0
    requires e.dst < |g.nodes| && e.dst in pending && HasEdge(g, u, e.dst)
    ensures AllLatest(g, cfg, UpdateChild(g, cfg, s, u, e, DoneAt(g, cfg, s, u)), u, pending - {e.dst})
  {
    var x, after := e.dst, DoneAt(g, cfg, s, u);
    var r := UpdateChild(g, cfg, s, u, e, after);
    assert Counted(g, s, pending, x) && OnePhase(g, s, x);
    assert Shape(g, r);
    forall v: nat | v < |g.nodes| ensures Latest(g, cfg, r, u, pending - {x}, v) {
      if v == x {
        ToldLatest(g, cfg, s, r, u, x, pending);
      } else {
        LatestKept(g, cfg, s, r, u, pending, u, pending - {x}, v);
      }
    }
  }

  lemma ToldLatest(g: Graph, cfg: Config, s: State, r: State, u: nat, x: nat, pending: set<nat>)
    requires Shape(g, s) && Shape(g, r) && u < |g.nodes| && x < |g.nodes| && s.complete[u] >= 0 && HasEdge(g, u, x)
    requires Latest(g, cfg, s, u, pending, x) && x in pending && s.complete[x] < 0 && r.complete == s.complete
    requires forall v: nat :: v < |g.nodes| && v != x ==> r.timeBefore[v] == s.timeBefore[v]
    requires var after := DoneAt(g, cfg, s, u);
      r.timeBefore[x] == if s.timeBefore[x] < after then after else s.timeBefore[x]
    ensures Latest(g, cfg, r, u, pending - {x}, x)
  {
    EdgeEndsConnected(g, u, x);
    forall p: nat | Counts(g, r, u, pending - {x}, p, x) ensures DoneAt(g, cfg, r, p) <= r.timeBefore[x] {
      if p != u { assert Counts(g, s, u, pending, p, x); }
    }
    assert Counts(g, r, u, pending - {x}, u, x);
    if r.timeBefore[x] == s.timeBefore[x] != 0 {
      var p: nat :| Counts(g, s, u, pending, p, x) && DoneAt(g, cfg, s, p) == s.timeBefore[x];
      assert Counts(g, r, u, pending - {x}, p, x) && DoneAt(g, cfg, r, p) == r.timeBefore[x];
    }
  }

  lemma {:induction false} UpdateChildrenLatest(g: Graph, cfg: Config, s: State, u: nat, es: seq<Edge>)
    requires Structure(g, s, Targets(es)) && AllLatest(g, cfg, s, u, Targets(es)) && u < |g.nodes| && s.complete[u] >= 0
    requires forall k :: 0 <= k < |es| ==> es[k].dst < |g.nodes| && HasEdge(g, u, es[k].dst)
    requires forall j, k :: 0 <= j < k < |es| ==> es[j].dst != es[k].dst
    ensures AllLatest(g, cfg, UpdateChildren(g, cfg, s, u, es, DoneAt(g, cfg, s, u)), u, {})
    decreases |es|
  {
    if es == [] {
      assert Targets(es) == {};
    } else {
      var after := DoneAt(g, cfg, s, u);
      var m := UpdateChild(g, cfg, s, u, es[0], after);
      assert es[0] in es;
      assert Counted(g, s, Targets(es), es[0].dst) && OnePhase(g, s, es[0].dst);
      UpdateChildLatest(g, cfg, s, u, es[0], Targets(es));
      UpdateChildKeeps(g, cfg, s, u, es[0], after, Targets(es), m);
      TargetsTail(es);
      assert DoneAt(g, cfg, m, u) == after;
      UpdateChildrenLatest(g, cfg, m, u, es[1..]);
    }
  }

  lemma FinishLatest(g: Graph, cfg: Config, s: State, i: nat)
    requires Structure(g, s, {}) && AllLatest(g, cfg, s, 0, {}) && i < |s.executing| && s.executing[i] < |g.nodes|
    ensures AllLatest(g, cfg, Finish(g, cfg, s, i), 0, {})
  {
    var u := s.executing[i];
    var t := Retire(s, i);
    RetireLatest(g, cfg, s, i);
    RetireKeeps(g, s, i, t);
    forall k | 0 <= k < |g.out[u]| ensures HasEdge(g, u, g.out[u][k].dst) { assert g.out[u][k] in g.out[u]; }
    assert DoneAt(g, cfg, t, u) == TimeAfter(g, cfg, s, u);
    UpdateChildrenLatest(g, cfg, t, u, g.out[u]);
    NoneLeft(g, cfg, Finish(g, cfg, s, i), u);
  }

  lemma NoneLeft(g: Graph, cfg: Config, s: State, u: nat)
    requires AllLatest(g, cfg, s, u, {})
    ensures AllLatest(g, cfg, s, 0, {})
  {
    forall v: nat | v < |g.nodes| ensures Latest(g, cfg, s, 0, {}, v) { LatestKept(g, cfg, s, s, u, {}, 0, {}, v); }
  }

  lemma VisitLatest(g: Graph, cfg: Config, s: State, i: nat)
    requires Structure(g, s, {}) && AllLatest(g, cfg, s, 0, {}) && i < |s.executing| && s.executing[i] < |g.nodes|
    ensures AllLatest(g, cfg, Visit(g, cfg, s, i).state, 0, {})
  {
    var v := s.executing[i];
    if Blocked(cfg, s, g.nodes[v]) {
    } else if StaysInFlight(s, g.nodes[v], v) {
      SameBegin(g, cfg, s, Advance(g, s, v));
    } else {
      var d := Dispatch(g, s, v);
      SameBegin(g, cfg, s, d);
      SameQueues(g, s, d);
      FinishLatest(g, cfg, d, i);
    }
  }

  lemma {:induction false} PassLatest(g: Graph, cfg: Config, s: State, i: nat)
    requires Structure(g, s, {}) && AllLatest(g, cfg, s, 0, {}) && i <= |s.executing|
    ensures AllLatest(g, cfg, Pass(g, cfg, s, i), 0, {})
    decreases |g.nodes| - s.executed, |s.executing| - i
  {
    if i < |s.executing| {
      VisitAdvances(g, cfg, s, i);
      VisitLatest(g, cfg, s, i);
      var r := Visit(g, cfg, s, i);
      PassLatest(g, cfg, r.state, if r.executed then i else i + 1);
    }
  }

  lemma {:induction false} RunLatest(g: Graph, cfg: Config, s: State)
    requires Structure(g, s, {}) && Acyclic(g) && s.ready == [] && AllLatest(g, cfg, s, 0, {})
    ensures AllLatest(g, cfg, Run(g, cfg, s), 0, {})
    decreases Fuel(g, cfg, s)
  {
    var p, t := Pass(g, cfg, s, 0), Step(g, cfg, s);
    StepBurnsFuel(g, cfg, s);
    PassLatest(g, cfg, s, 0);
    SameBegin(g, cfg, p, t);
    if !Finished(g, t) { RunLatest(g, cfg, t); }
  }

  // ----- as a function of completion cycles

  ghost function Ancestors(g: Graph, v: nat): set<nat> {
    set u | 0 <= u < |g.out| && Leads(g, u, v)
  }

  lemma ParentHasFewer(g: Graph, u: nat, v: nat)
    requires Acyclic(g) && HasEdge(g, u, v)
    ensures Ancestors(g, u) < Ancestors(g, v)
  {
    EdgeEndsConnected(g, u, v);
    forall w | w in Ancestors(g, u) ensures w in Ancestors(g, v) {
      var p :| IsPath(g, p) && |p| >= 2 && p[0] == w && p[|p| - 1] == u;
      var q := p + [v];
      forall i | 0 <= i < |q| - 1 ensures HasEdge(g, q[i], q[i + 1]) {
        if i < |p| - 1 { assert HasEdge(g, p[i], p[i + 1]); }
      }
      assert IsPath(g, q) && q[0] == w && q[|q| - 1] == v;
    }
    var p := [u, v];
    assert IsPath(g, p) && p[0] == u && p[|p| - 1] == v;
    assert u in Ancestors(g, v) && u !in Ancestors(g, u);
  }

  /** Every connected node has completed. */
  ghost predicate AllComplete(g: Graph, complete: seq<int>) {
    |complete| == |g.nodes| && forall v :: 0 <= v < |g.nodes| && Connected(g, v) ==> complete[v] >= 0
  }

  /** When `v` can begin: once the last of its parents is done. */
  ghost function EarliestBegin(g: Graph, cfg: Config, complete: seq<int>, v: nat): nat
    requires Acyclic(g) && AllComplete(g, complete) && v < |g.nodes|
    decreases Ancestors(g, v), |g.nodes| + 2
  {
    LatestOf(g, cfg, complete, v, |g.nodes|)
  }

  /** Over the parents below `k`. */
  ghost function LatestOf(g: Graph, cfg: Config, complete: seq<int>, v: nat, k: nat): nat
    requires Acyclic(g) && AllComplete(g, complete) && v < |g.nodes| && k <= |g.nodes|
    decreases Ancestors(g, v), k + 1
  {
    if k == 0 then 0
    else
      var rest := LatestOf(g, cfg, complete, v, k - 1);
      if !HasEdge(g, k - 1, v) || ParentDone(g, cfg, complete, v, k - 1) < rest then rest
      else ParentDone(g, cfg, complete, v, k - 1)
  }

  ghost function ParentDone(g: Graph, cfg: Config, complete: seq<int>, v: nat, u: nat): nat
    requires Acyclic(g) && AllComplete(g, complete) && v < |g.nodes| && HasEdge(g, u, v)
    decreases Ancestors(g, v), 0
  {
    EdgeEndsConnected(g, u, v);
    ParentHasFewer(g, u, v);
    DoneBy(g.nodes[u], cfg, EarliestBegin(g, cfg, complete, u), complete[u])
  }

  lemma {:induction false} LatestIsLargest(g: Graph, cfg: Config, complete: seq<int>, v: nat, k: nat, u: nat)
    requires Acyclic(g) && AllComplete(g, complete) && v < |g.nodes| && k <= |g.nodes| && u < k && HasEdge(g, u, v)
    ensures ParentDone(g, cfg, complete, v, u) <= LatestOf(g, cfg, complete, v, k)
    decreases k
  {
    if u < k - 1 { LatestIsLargest(g, cfg, complete, v, k - 1, u); }
  }

  lemma {:induction false} LatestIsAttained(g: Graph, cfg: Config, complete: seq<int>, v: nat, k: nat) returns (u: nat)
    requires Acyclic(g) && AllComplete(g, complete) && v < |g.nodes| && k <= |g.nodes|
    ensures LatestOf(g, cfg, complete, v, k) != 0 ==>
      u < k && HasEdge(g, u, v) && ParentDone(g, cfg, complete, v, u) == LatestOf(g, cfg, complete, v, k)
    decreases k
  {
    u := 0;
    if k > 0 {
      u := LatestIsAttained(g, cfg, complete, v, k - 1);
      if HasEdge(g, k - 1, v) && ParentDone(g, cfg, complete, v, k - 1) >= LatestOf(g, cfg, complete, v, k - 1) {
        u := k - 1;
      }
    }
  }

  /** The scheduler's begin times are these, in every state in which all connected nodes have completed. */
  lemma {:induction false} BeginDetermined(g: Graph, cfg: Config, s: State, v: nat)
    requires AllLatest(g, cfg, s, 0, {}) && Acyclic(g) && AllComplete(g, s.complete) && v < |g.nodes|
    ensures s.timeBefore[v] == EarliestBegin(g, cfg, s.complete, v)
    decreases Ancestors(g, v), 1
  {
    assert Latest(g, cfg, s, 0, {}, v);
    if s.timeBefore[v] != 0 {
      var p: nat :| Counts(g, s, 0, {}, p, v) && DoneAt(g, cfg, s, p) == s.timeBefore[v];
      ParentDetermined(g, cfg, s, v, p);
      LatestIsLargest(g, cfg, s.complete, v, |g.nodes|, p);
    }
    var u := LatestIsAttained(g, cfg, s.complete, v, |g.nodes|);
    if EarliestBegin(g, cfg, s.complete, v) != 0 {
      ParentDetermined(g, cfg, s, v, u);
      assert Counts(g, s, 0, {}, u, v);
    }
  }

  lemma {:induction false} ParentDetermined(g: Graph, cfg: Config, s: State, v: nat, u: nat)
    requires AllLatest(g, cfg, s, 0, {}) && Acyclic(g) && AllComplete(g, s.complete) && v < |g.nodes|
    requires HasEdge(g, u, v)
    ensures u < |g.nodes| && u in Parents(g, v) && s.complete[u] >= 0
    ensures DoneAt(g, cfg, s, u) == ParentDone(g, cfg, s.complete, v, u)
    decreases Ancestors(g, v), 0
  {
    EdgeEndsConnected(g, u, v);
    ParentHasFewer(g, u, v);
    BeginDetermined(g, cfg, s, u);
  }
}
