/** What the scheduler is told: every visit carries its answer, and the answers are tied to the steps of the
    transfer they are about. */
module DmaAnswers {
  import opened Collections
  import opened DmaProtocol

  datatype Action = Visit(node: nat, answer: bool) | Fire | Complete(node: nat)

  /** The scheduler visits no node that it has seen complete. */
  ghost predicate Acts(s: State, t: State, pipelined: bool, a: Action) {
    match a
    case Visit(n, answer) => n !in s.finished && t == Visited(s, n) && answer == VisitCompletes(s, n)
    case Fire => Fires(s, t, pipelined)
    case Complete(n) => Completes(s, t, n)
  }

  /** A run from the start, action by action. */
  ghost predicate ActionRun(run: seq<State>, acts: seq<Action>, pipelined: bool) {
    && |run| == |acts| + 1 && run[0] == Start()
    && forall i :: 0 <= i < |acts| ==> Acts(run[i], run[i + 1], pipelined, acts[i])
  }

  /** Every such run is a run of the protocol, so that all that is known of those holds of it. */
  lemma ActionsAreSteps(run: seq<State>, acts: seq<Action>, pipelined: bool)
    requires ActionRun(run, acts, pipelined)
    ensures IsRun(run, pipelined)
  {
    forall i | 0 <= i < |run| - 1 ensures Step(run[i], run[i + 1], pipelined) {
      assert Acts(run[i], run[i + 1], pipelined, acts[i]);
    }
  }

  ghost predicate Did(acts: seq<Action>, i: int, a: Action) {
    exists j :: 0 <= j < i && j < |acts| && acts[j] == a
  }

  lemma DidNext(acts: seq<Action>, i: nat, a: Action)
    requires i < |acts|
    ensures Did(acts, i + 1, a) <==> Did(acts, i, a) || acts[i] == a
  {
    if Did(acts, i + 1, a) {
      var j :| 0 <= j < i + 1 && j < |acts| && acts[j] == a;
      assert j < i ==> Did(acts, i, a);
    }
  }

  /** Where a node is in its life, told by the actions so far. */
  ghost predicate Stage(s: State, acts: seq<Action>, i: nat, n: nat) {
    && (n in s.finished <==> Did(acts, i, Visit(n, true)))
    && (Did(acts, i, Complete(n)) <==> n in s.finished || (n in s.inflight && s.inflight[n] == Returned))
    && (n in s.inflight || n in s.finished ==> Did(acts, i, Visit(n, false)))
  }

  /** A firing turns no node in flight into one that returned, takes none off and adds none. */
  lemma {:induction false} SentAllStatus(s: State, batch: seq<nat>, n: nat)
    requires Elements(batch) <= s.inflight.Keys
    ensures var t := SentAll(s, batch);
      && t.finished == s.finished && t.inflight.Keys == s.inflight.Keys
      && (n in s.inflight ==> t.inflight[n] == if n in batch then WaitingFromDma else s.inflight[n])
    decreases |batch|
  {
    if batch != [] {
      var p, b := batch[..|batch| - 1], batch[|batch| - 1];
      assert batch == p + [b];
      assert b in Elements(batch) && Elements(p) <= Elements(batch);
      SentAllStatus(s, p, n);
    }
  }

  /** What a firing sends was being set up. */
  lemma FiringStatus(s: State, t: State, pipelined: bool, n: nat)
    requires Invariant(s, pipelined) && Fires(s, t, pipelined)
    ensures t.finished == s.finished && t.inflight.Keys == s.inflight.Keys
    ensures n in s.inflight ==> (s.inflight[n] == Returned <==> t.inflight[n] == Returned)
  {
    var batch :| Batch(s, pipelined, batch) && t == SentAll(SetUp(s), batch);
    BatchContents(s, pipelined, batch);
    SetUpKeeps(s);
    forall b | b in Elements(batch) ensures b in s.inflight && s.inflight[b] == WaitingForSetup {
      assert NodeOk(SetUp(s), b);
    }
    SentAllStatus(SetUp(s), batch, n);
    assert n in batch <==> n in Elements(batch);
  }

  lemma StageKept(s: State, t: State, pipelined: bool, acts: seq<Action>, i: nat, n: nat)
    requires i < |acts| && Invariant(s, pipelined) && Stage(s, acts, i, n) && Acts(s, t, pipelined, acts[i])
    ensures Stage(t, acts, i + 1, n)
  {
    DidNext(acts, i, Visit(n, true));
    DidNext(acts, i, Visit(n, false));
    DidNext(acts, i, Complete(n));
    assert NodeOk(s, n);
    if acts[i].Fire? { FiringStatus(s, t, pipelined, n); }
  }

  lemma {:induction false} EveryStage(run: seq<State>, acts: seq<Action>, pipelined: bool, n: nat, i: nat)
    requires ActionRun(run, acts, pipelined) && i <= |acts|
    ensures Invariant(run[i], pipelined) && Stage(run[i], acts, i, n)
    decreases i
  {
    ActionsAreSteps(run, acts, pipelined);
    RunKeeps(run, pipelined, i);
    if i > 0 {
      EveryStage(run, acts, pipelined, n, i - 1);
      assert Acts(run[i - 1], run[i], pipelined, acts[i - 1]);
      StageKept(run[i - 1], run[i], pipelined, acts, i - 1, n);
    }
  }

  /** A visit is answered with true exactly when the node's transfer has completed. */
  lemma AnsweredIffCompleted(run: seq<State>, acts: seq<Action>, pipelined: bool, i: nat, n: nat, answer: bool)
    requires ActionRun(run, acts, pipelined) && i < |acts| && acts[i] == Visit(n, answer)
    ensures answer <==> exists j :: 0 <= j < i && acts[j] == Complete(n)
  {
    EveryStage(run, acts, pipelined, n, i);
    assert Acts(run[i], run[i + 1], pipelined, acts[i]);
    if Did(acts, i, Complete(n)) { var j :| 0 <= j < i && acts[j] == Complete(n); }
    if j :| 0 <= j < i && acts[j] == Complete(n) { assert Did(acts, i, Complete(n)); }
  }

  /** The scheduler is told once at most that a node is complete, and does not visit it again: that is what
      its not visiting finished nodes comes to. */
  lemma AnsweredOnce(run: seq<State>, acts: seq<Action>, pipelined: bool, i: nat, k: nat, n: nat, answer: bool)
    requires ActionRun(run, acts, pipelined) && i < |acts| && k < |acts|
    requires acts[i] == Visit(n, true) && acts[k] == Visit(n, answer)
    ensures k <= i
  {
    EveryStage(run, acts, pipelined, n, k);
    assert Acts(run[k], run[k + 1], pipelined, acts[k]);
    assert i < k ==> Did(acts, k, Visit(n, true));
  }

  /** A transfer completes once at most, after a visit that was answered with false. */
  lemma CompletedOnce(run: seq<State>, acts: seq<Action>, pipelined: bool, i: nat, k: nat, n: nat)
    requires ActionRun(run, acts, pipelined) && i < |acts| && k < |acts|
    requires acts[i] == Complete(n) && acts[k] == Complete(n)
    ensures i == k && exists j :: 0 <= j < i && acts[j] == Visit(n, false)
  {
    EveryStage(run, acts, pipelined, n, i);
    EveryStage(run, acts, pipelined, n, k);
    assert Acts(run[i], run[i + 1], pipelined, acts[i]) && Acts(run[k], run[k + 1], pipelined, acts[k]);
    assert NodeOk(run[i], n) && NodeOk(run[k], n);
    assert i < k ==> Did(acts, k, Complete(n));
    assert k < i ==> Did(acts, i, Complete(n));
  }

  /** A node is taken on by the first visit that finds fewer than 100 nodes in flight; every visit before that
      changes nothing, and is answered with false. */
  lemma TakenOnIff(run: seq<State>, acts: seq<Action>, pipelined: bool, i: nat, n: nat, answer: bool)
    requires ActionRun(run, acts, pipelined) && i < |acts| && acts[i] == Visit(n, answer) && n !in run[i].inflight
    ensures !answer && |run[i].inflight| <= 100
    ensures if |run[i].inflight| < 100 then run[i + 1].waiting == run[i].waiting + [n] && run[i + 1].scheduled
            else run[i + 1] == run[i]
  {
    EveryStage(run, acts, pipelined, n, i);
    assert Acts(run[i], run[i + 1], pipelined, acts[i]);
  }

  /** The scheduler has been told of every transfer that completed and is no longer in flight, and of no other. */
  lemma FinishedIffAnswered(run: seq<State>, acts: seq<Action>, pipelined: bool, n: nat)
    requires ActionRun(run, acts, pipelined)
    ensures n in run[|acts|].finished <==> Visit(n, true) in acts
  {
    EveryStage(run, acts, pipelined, n, |acts|);
    if Visit(n, true) in acts {
      var j :| 0 <= j < |acts| && acts[j] == Visit(n, true);
      assert Did(acts, |acts|, Visit(n, true));
    }
  }
}
