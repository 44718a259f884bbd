/** The length of a schedule: the run ends in the cycle of its last completion. */
module SchedulerLength {
  import opened ExecNodes
  import opened DependenceGraph
  import opened Scheduler
  import opened SchedulerStructure
  import opened SchedulerRun
  import opened SchedulerTiming
  import opened SchedulerLiveness

  lemma VisitCompletes(g: Graph, cfg: Config, s: State, i: nat, v: nat)
    requires Shape(g, s) && i < |s.executing| && s.executing[i] < |g.nodes| && v < |g.nodes|
    ensures var r := Visit(g, cfg, s, i).state;
      (r.complete[v] == s.complete[v] || r.complete[v] == s.cycle) && r.cycle == s.cycle
  {
    FinishEffect(g, cfg, Dispatch(g, s, s.executing[i]), i);
  }

  /** A completion cycle set in a pass is the current one. */
  lemma {:induction false} PassCompletes(g: Graph, cfg: Config, s: State, i: nat, v: nat)
    requires Structure(g, s, {}) && i <= |s.executing| && v < |g.nodes|
    ensures var r := Pass(g, cfg, s, i);
      (r.complete[v] == s.complete[v] || r.complete[v] == s.cycle) && r.cycle == s.cycle
    decreases |g.nodes| - s.executed, |s.executing| - i
  {
    if i < |s.executing| {
      VisitAdvances(g, cfg, s, i);
      VisitCompletes(g, cfg, s, i, v);
      var r := Visit(g, cfg, s, i);
      PassCompletes(g, cfg, r.state, if r.executed then i else i + 1, v);
    }
  }

  /** The cycle in which the run finishes completes a node. */
  lemma LastStepCompletes(g: Graph, cfg: Config, s: State) returns (v: nat)
    requires Structure(g, s, {}) && !Finished(g, s) && Finished(g, Step(g, cfg, s))
    ensures v < |g.nodes| && Step(g, cfg, s).complete[v] == s.cycle
  {
    var p := Pass(g, cfg, s, 0);
    EndCycleEffect(g, p);
    DoneFits(g, s);
    DoneFits(g, p);
    assert Done(p) == Total(g) && Done(s) < Total(g);
    v :| v in Total(g) && v !in Done(s);
    assert v in Done(p);
    PassCompletes(g, cfg, s, 0, v);
  }

  lemma {:induction false} RunEndsWithLast(g: Graph, cfg: Config, s: State) returns (v: nat)
    requires Structure(g, s, {}) && Timing(g, s, 0) && Acyclic(g) && s.ready == [] && !Finished(g, s)
    ensures v < |g.nodes| && Run(g, cfg, s).complete[v] + 1 == Run(g, cfg, s).cycle
    decreases Fuel(g, cfg, s)
  {
    var t := Step(g, cfg, s);
    RunStep(g, cfg, s);
    StepTiming(g, cfg, s);
    if Finished(g, t) {
      v := LastStepCompletes(g, cfg, s);
    } else {
      v := RunEndsWithLast(g, cfg, t);
    }
  }

  /** With anything to schedule, the schedule is one cycle longer than the last completion. */
  lemma LengthIsLastCompletion(g: Graph, cfg: Config, s: State) returns (v: nat)
    requires Initial(g, s) && Acyclic(g) && Total(g) != {}
    ensures v < |g.nodes| && Run(g, cfg, s).complete[v] + 1 == Run(g, cfg, s).cycle
  {
    DoneFits(g, s);
    assert Done(s) == {};
    v := RunEndsWithLast(g, cfg, s);
  }
}
