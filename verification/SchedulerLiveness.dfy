/** Every run on an acyclic graph ends, each connected node having completed exactly once, within
    a number of cycles bounded by the node count and the multi-cycle latencies. */
module SchedulerLiveness {
  import opened Collections
  import opened ExecNodes
  import opened DependenceGraph
  import opened Scheduler
  import opened SchedulerStructure
  import opened SchedulerRun
  import opened SchedulerTiming

  // ----- the prepared state

  lemma {:induction false} RootsMembers(g: Graph, k: nat)
    requires k <= |g.nodes|
    ensures NoDuplicates(Roots(g, k))
    ensures forall v: nat :: v in Roots(g, k) <==> v < k && Connected(g, v) && Parents(g, v) == {}
  {
    if k > 0 {
      RootsMembers(g, k - 1);
    }
  }

  /** A state in which nothing has started yet. */
  ghost predicate Initial(g: Graph, s: State) {
    && Structure(g, s, {}) && Timing(g, s, 0)
    && s.ready == [] && s.cycle == 0 && s.inflight == map[]
    && (forall v :: 0 <= v < |g.nodes| ==> s.complete[v] == -1 && !s.entry[v].Packed?)
  }

  lemma PreparedState(g: Graph, busy: map<Slot, nat>, loads: map<Slot, nat>, stores: map<Slot, nat>)
    ensures Initial(g, Prepare(g, busy, loads, stores))
  {
    var s := Prepare(g, busy, loads, stores);
    RootsMembers(g, |g.nodes|);
    assert Done(s) == {};
    forall v | 0 <= v < |g.nodes| ensures OnePhase(g, s, v) && Counted(g, s, {}, v) && NodeTimes(g, s, v) {
      assert Parents(g, v) - Done(s) == Parents(g, v);
    }
    forall k | 0 <= k < |s.executing| ensures s.executing[k] < |g.nodes| && Remaining(g, s, 0, k) {
      assert s.executing[k] in s.executing;
    }
  }

  // ----- progress

  /** Visits still needed by a node: one, plus its latency when it is multi-cycle. */
  function Weight(g: Graph, s: State, v: nat): nat
    requires |s.complete| == |g.nodes| && v < |g.nodes|
  {
    if s.complete[v] >= 0 || !Connected(g, v) then 0
    else if v in s.inflight then s.inflight[v]
    else 1 + Duration(g.nodes[v])
  }

  function Potential(g: Graph, s: State, k: nat): nat
    requires |s.complete| == |g.nodes| && k <= |g.nodes|
  {
    if k == 0 then 0 else Potential(g, s, k - 1) + Weight(g, s, k - 1)
  }

  lemma {:induction false} PotentialFalls(g: Graph, s: State, r: State, k: nat, v: nat)
    requires |s.complete| == |r.complete| == |g.nodes| && k <= |g.nodes|
    requires forall w :: 0 <= w < |g.nodes| ==> Weight(g, r, w) <= Weight(g, s, w)
    requires v < |g.nodes| && Weight(g, r, v) < Weight(g, s, v)
    ensures Potential(g, r, k) + (if v < k then 1 else 0) <= Potential(g, s, k)
  {
    if k > 0 {
      PotentialFalls(g, s, r, k - 1, v);
    }
  }

  lemma {:induction false} PotentialSame(g: Graph, s: State, r: State, k: nat)
    requires |s.complete| == |r.complete| == |g.nodes| && k <= |g.nodes|
    requires r.complete == s.complete && r.inflight == s.inflight
    ensures Potential(g, r, k) == Potential(g, s, k)
  {
    if k > 0 {
      PotentialSame(g, s, r, k - 1);
    }
  }

  /** A visit that is not blocked at the ports uses up potential. */
  lemma VisitProgress(g: Graph, cfg: Config, s: State, i: nat)
    requires Structure(g, s, {}) && i < |s.executing| && s.executing[i] < |g.nodes|
    ensures var r := Visit(g, cfg, s, i).state;
            Potential(g, r, |g.nodes|) + (if Blocked(cfg, s, g.nodes[s.executing[i]]) then 0 else 1)
              <= Potential(g, s, |g.nodes|)
  {
    var v := s.executing[i];
    if !Blocked(cfg, s, g.nodes[v]) {
      var r := Visit(g, cfg, s, i).state;
      assert v in s.executing && OnePhase(g, s, v);
      if !StaysInFlight(s, g.nodes[v], v) {
        FinishEffect(g, cfg, Dispatch(g, s, v), i);
      }
      forall w | 0 <= w < |g.nodes| ensures Weight(g, r, w) + (if w == v then 1 else 0) <= Weight(g, s, w) {}
      PotentialFalls(g, s, r, |g.nodes|, v);
    }
  }

  lemma {:induction false} PassProgress(g: Graph, cfg: Config, s: State, i: nat)
    requires Structure(g, s, {}) && i <= |s.executing|
    ensures Potential(g, Pass(g, cfg, s, i), |g.nodes|) <= Potential(g, s, |g.nodes|)
    ensures i < |s.executing| && s.executing[i] < |g.nodes| && !Blocked(cfg, s, g.nodes[s.executing[i]]) ==>
              Potential(g, Pass(g, cfg, s, i), |g.nodes|) < Potential(g, s, |g.nodes|)
    decreases |g.nodes| - s.executed, |s.executing| - i
  {
    if i < |s.executing| {
      VisitAdvances(g, cfg, s, i);
      VisitProgress(g, cfg, s, i);
      var r := Visit(g, cfg, s, i);
      PassProgress(g, cfg, r.state, if r.executed then i else i + 1);
    }
  }

  ghost predicate PortsFree(cfg: Config, s: State) {
    forall slot :: slot in s.busy ==> CanService(cfg, s, slot)
  }

  lemma NodesLeft(g: Graph, s: State)
    requires Structure(g, s, {}) && !Finished(g, s)
    ensures Total(g) - Done(s) != {}
  {
    DoneFits(g, s);
    assert !(Total(g) <= Done(s));
    var v :| v in Total(g) && v !in Done(s);
    assert v in Total(g) - Done(s);
  }

  /** While nodes are left, the executing queue of an acyclic graph is not empty. */
  lemma QueueNotEmpty(g: Graph, s: State)
    requires Structure(g, s, {}) && Acyclic(g) && s.ready == [] && !Finished(g, s)
    ensures s.executing != []
  {
    NodesLeft(g, s);
    var left := Total(g) - Done(s);
    var v := SourceExists(g, left);
    assert OnePhase(g, s, v) && Counted(g, s, {}, v);
    forall u | u in Parents(g, v) ensures u in Done(s) {
      EdgeEndsConnected(g, u, v);
      assert u !in Parents(g, v) * left;
    }
    assert Parents(g, v) - Done(s) == {};
  }

  lemma StepProgress(g: Graph, cfg: Config, s: State)
    requires Structure(g, s, {}) && Acyclic(g) && s.ready == [] && !Finished(g, s)
    ensures var r := Step(g, cfg, s);
            && r.ready == []
            && (!Finished(g, r) ==> PortsFree(cfg, r))
            && Potential(g, r, |g.nodes|) <= Potential(g, s, |g.nodes|)
            && (PortsFree(cfg, s) ==> Potential(g, r, |g.nodes|) < Potential(g, s, |g.nodes|))
  {
    QueueNotEmpty(g, s);
    InQueueInGraph(g, s, 0);
    var p := Pass(g, cfg, s, 0);
    PassProgress(g, cfg, s, 0);
    EndCycleEffect(g, p);
    PotentialSame(g, p, EndCycle(g, p), |g.nodes|);
  }

  lemma {:induction false} NothingLeft(g: Graph, s: State, k: nat)
    requires Structure(g, s, {}) && Finished(g, s) && k <= |g.nodes|
    ensures Potential(g, s, k) == 0
  {
    if k > 0 {
      NothingLeft(g, s, k - 1);
      DoneFits(g, s);
      assert k - 1 in Total(g) ==> k - 1 in Done(s);
    }
  }

  lemma {:induction false} SomethingLeft(g: Graph, s: State, k: nat)
    requires Structure(g, s, {}) && !Finished(g, s) && k <= |g.nodes|
    requires forall v :: v in Total(g) - Done(s) ==> v < k
    ensures Potential(g, s, k) > 0
  {
    NodesLeft(g, s);
    var v :| v in Total(g) - Done(s);
    if Weight(g, s, k - 1) == 0 {
      SomethingLeft(g, s, k - 1);
    }
  }

  // ----- whole runs

  ghost function Fuel(g: Graph, cfg: Config, s: State): nat
    requires Shape(g, s)
  {
    Potential(g, s, |g.nodes|) + (if PortsFree(cfg, s) then 0 else 1)
  }

  lemma StepBurnsFuel(g: Graph, cfg: Config, s: State)
    requires Structure(g, s, {}) && Acyclic(g) && s.ready == []
    ensures var r := Step(g, cfg, s);
            && r.ready == []
            && (!Finished(g, r) ==> Fuel(g, cfg, r) < Fuel(g, cfg, s) && Fuel(g, cfg, r) > 0)
  {
    var r := Step(g, cfg, s);
    if !Finished(g, s) {
      StepProgress(g, cfg, s);
    } else {
      StepStaysFinished(g, cfg, s);
    }
    if !Finished(g, r) {
      SomethingLeft(g, r, |g.nodes|);
    }
  }

  lemma {:induction false} PassExecuted(g: Graph, cfg: Config, s: State, i: nat)
    requires Structure(g, s, {}) && i <= |s.executing|
    ensures Pass(g, cfg, s, i).executed >= s.executed
    decreases |g.nodes| - s.executed, |s.executing| - i
  {
    if i < |s.executing| {
      VisitAdvances(g, cfg, s, i);
      var r := Visit(g, cfg, s, i);
      PassExecuted(g, cfg, r.state, if r.executed then i else i + 1);
    }
  }

  lemma StepStaysFinished(g: Graph, cfg: Config, s: State)
    requires Structure(g, s, {}) && Finished(g, s)
    ensures Finished(g, Step(g, cfg, s))
  {
    PassExecuted(g, cfg, s, 0);
    DoneFits(g, Step(g, cfg, s));
  }

  /** Steps until every connected node has executed. */
  function Run(g: Graph, cfg: Config, s: State): (r: State)
    requires Structure(g, s, {}) && Acyclic(g) && s.ready == []
    ensures Structure(g, r, {}) && Finished(g, r) && r.ready == []
    decreases Fuel(g, cfg, s)
  {
    var t := Step(g, cfg, s);
    StepBurnsFuel(g, cfg, s);
    if Finished(g, t) then t else Run(g, cfg, t)
  }

  /** One unfolding of `Run`. */
  lemma RunStep(g: Graph, cfg: Config, s: State)
    requires Structure(g, s, {}) && Acyclic(g) && s.ready == []
    ensures var t := Step(g, cfg, s);
            && t.ready == []
            && (Finished(g, t) ==> Run(g, cfg, s) == t)
            && (!Finished(g, t) ==> Run(g, cfg, s) == Run(g, cfg, t) && Fuel(g, cfg, t) < Fuel(g, cfg, s))
  {
    StepBurnsFuel(g, cfg, s);
  }

  function Max(a: int, b: int): int {
    if a < b then b else a
  }

  lemma {:induction false} RunBound(g: Graph, cfg: Config, s: State)
    requires Structure(g, s, {}) && Timing(g, s, 0) && Acyclic(g) && s.ready == []
    ensures var r := Run(g, cfg, s);
            && Timing(g, r, 0)
            && s.cycle < r.cycle <= s.cycle + Max(1, Fuel(g, cfg, s))
    decreases Fuel(g, cfg, s)
  {
    StepBurnsFuel(g, cfg, s);
    StepTiming(g, cfg, s);
    var t := Step(g, cfg, s);
    if !Finished(g, t) {
      RunBound(g, cfg, t);
    }
  }

  /** Sum of the latencies of the connected multi-cycle nodes below `k`. */
  function LatencySum(g: Graph, k: nat): nat
    requires k <= |g.nodes|
  {
    if k == 0 then 0 else LatencySum(g, k - 1) + (if Connected(g, k - 1) then Duration(g.nodes[k - 1]) else 0)
  }

  function ConnectedBelow(g: Graph, k: nat): set<nat>
    requires k <= |g.nodes|
  {
    set v | 0 <= v < k && Connected(g, v)
  }

  lemma ConnectedStep(g: Graph, k: nat)
    requires k < |g.nodes|
    ensures |ConnectedBelow(g, k + 1)| == |ConnectedBelow(g, k)| + if Connected(g, k) then 1 else 0
  {
    assert ConnectedBelow(g, k + 1) == ConnectedBelow(g, k) + if Connected(g, k) then {k} else {};
  }

  lemma {:induction false} PreparedPotential(g: Graph, s: State, k: nat)
    requires |s.complete| == |g.nodes| && s.inflight == map[] && k <= |g.nodes|
    requires forall v :: 0 <= v < |g.nodes| ==> s.complete[v] == -1
    ensures Potential(g, s, k) == |ConnectedBelow(g, k)| + LatencySum(g, k)
  {
    if k > 0 {
      PreparedPotential(g, s, k - 1);
      ConnectedStep(g, k - 1);
    }
  }

  lemma FinishedCompletes(g: Graph, s: State, v: nat)
    requires Structure(g, s, {}) && Finished(g, s) && v < |g.nodes|
    ensures Connected(g, v) <==> s.complete[v] >= 0
  {
    DoneFits(g, s);
    assert v in Total(g) <==> v in Done(s);
  }

  lemma RunCompletes(g: Graph, cfg: Config, s: State)
    requires Structure(g, s, {}) && Acyclic(g) && s.ready == []
    ensures var r := Run(g, cfg, s);
            && (forall v :: 0 <= v < |g.nodes| ==> (Connected(g, v) <==> r.complete[v] >= 0))
            && r.executed == |Total(g)|
  {
    var r := Run(g, cfg, s);
    forall v | 0 <= v < |g.nodes| ensures Connected(g, v) <==> r.complete[v] >= 0 {
      FinishedCompletes(g, r, v);
    }
  }

  lemma PreparedFuel(g: Graph, cfg: Config, s: State)
    requires Initial(g, s)
    ensures Fuel(g, cfg, s) == |Total(g)| + LatencySum(g, |g.nodes|) + (if PortsFree(cfg, s) then 0 else 1)
  {
    PreparedPotential(g, s, |g.nodes|);
    assert ConnectedBelow(g, |g.nodes|) == Total(g);
  }

  /** The main liveness result. A run that starts with free ports takes at most
      max(1, connected nodes + multi-cycle latencies) cycles; ports left occupied by an earlier
      invocation cost at most one more. Every connected node is completed, and the completion
      counter shows that none was completed twice. */
  lemma EveryRunCompletes(g: Graph, cfg: Config, s: State)
    requires Acyclic(g) && Initial(g, s)
    ensures var r := Run(g, cfg, s);
            && (forall v :: 0 <= v < |g.nodes| ==> (Connected(g, v) <==> r.complete[v] >= 0))
            && r.executed == |Total(g)|
            && 1 <= r.cycle <= Max(1, |Total(g)| + LatencySum(g, |g.nodes|) + (if PortsFree(cfg, s) then 0 else 1))
  {
    RunCompletes(g, cfg, s);
    PreparedBound(g, cfg, s, |Total(g)| + LatencySum(g, |g.nodes|) + (if PortsFree(cfg, s) then 0 else 1));
  }

  lemma PreparedBound(g: Graph, cfg: Config, s: State, bound: int)
    requires Acyclic(g) && Initial(g, s)
    requires bound == |Total(g)| + LatencySum(g, |g.nodes|) + (if PortsFree(cfg, s) then 0 else 1)
    ensures 1 <= Run(g, cfg, s).cycle <= Max(1, bound)
  {
    PreparedFuel(g, cfg, s);
    RunWithin(g, cfg, s, bound);
  }

  lemma RunWithin(g: Graph, cfg: Config, s: State, fuel: int)
    requires Acyclic(g) && Initial(g, s) && fuel == Fuel(g, cfg, s)
    ensures 1 <= Run(g, cfg, s).cycle <= Max(1, fuel)
  {
    RunBound(g, cfg, s);
  }
}
