/** How DMA nodes are set up, issued and completed. The steps are visits by the scheduler, firings of
    the setup event and completion callbacks, in any order the environment chooses. */
module DmaProtocol {
  import opened Collections

  const MAX_INFLIGHT := 100

  /** A node that is not in flight has no status. `Invalid` only lasts within one visit. */
  datatype Status = Invalid | WaitingForSetup | WaitingFromDma | Returned

  /** `issued` and `finished` record what was sent to memory and what the scheduler saw complete. */
  datatype State = State(inflight: map<nat, Status>, waiting: seq<nat>, issueQueue: set<nat>, scheduled: bool,
                         issued: seq<nat>, finished: seq<nat>)

  function Start(): State {
    State(map[], [], {}, false, [], [])
  }

  ghost predicate Ascending(s: seq<nat>) {
    forall i, j :: 0 <= i < j < |s| ==> s[i] < s[j]
  }

  // ----- the steps

  /** The scheduler visits a node that it has not seen complete; the answer is whether it completed. */
  function Visited(s: State, n: nat): State {
    if n !in s.inflight then
      if |s.inflight| < MAX_INFLIGHT then
        s.(inflight := s.inflight[n := WaitingForSetup], waiting := s.waiting + [n], scheduled := true)
      else s
    else if s.inflight[n] == Returned then
      s.(inflight := s.inflight - {n}, finished := s.finished + [n])
    else s
  }

  function VisitCompletes(s: State, n: nat): bool {
    n in s.inflight && s.inflight[n] == Returned
  }

  function Sent(s: State, n: nat): State {
    s.(inflight := s.inflight[n := WaitingFromDma], issueQueue := s.issueQueue - {n}, issued := s.issued + [n])
  }

  function SentAll(s: State, batch: seq<nat>): State {
    if batch == [] then s else Sent(SentAll(s, batch[..|batch| - 1]), batch[|batch| - 1])
  }

  /** The front of the waiting queue moved to the issue queue, and the event scheduled for the next. */
  function SetUp(s: State): State
    requires s.waiting != []
  {
    s.(waiting := s.waiting[1..], issueQueue := s.issueQueue + {s.waiting[0]}, scheduled := |s.waiting| > 1)
  }

  /** What a firing sends: the node just set up, or, when the queue has run empty, all that were set up. */
  ghost predicate Batch(s: State, pipelined: bool, batch: seq<nat>)
    requires s.waiting != []
  {
    if pipelined then batch == [s.waiting[0]]
    else if |s.waiting| > 1 then batch == []
    else Ascending(batch) && Elements(batch) == SetUp(s).issueQueue
  }

  ghost predicate Fires(s: State, t: State, pipelined: bool) {
    s.scheduled && s.waiting != [] && exists batch :: Batch(s, pipelined, batch) && t == SentAll(SetUp(s), batch)
  }

  /** The callback of the last piece of a node's transfer. */
  ghost predicate Completes(s: State, t: State, n: nat) {
    n in s.inflight && s.inflight[n] == WaitingFromDma && t == s.(inflight := s.inflight[n := Returned])
  }

  ghost predicate Step(s: State, t: State, pipelined: bool) {
    || (exists n: nat :: n !in s.finished && t == Visited(s, n))
    || Fires(s, t, pipelined)
    || (exists n: nat :: Completes(s, t, n))
  }

  // ----- what every step keeps

  /** A node in setup is in exactly one of the two queues; one past its setup, and no other, has been
      sent; one that is finished is no longer in flight. */
  ghost predicate NodeOk(s: State, n: nat) {
    && (n in s.inflight && s.inflight[n] == WaitingForSetup <==> n in s.waiting || n in s.issueQueue)
    && !(n in s.waiting && n in s.issueQueue)
    && (n in s.issued <==> n in s.finished || (n in s.inflight && s.inflight[n] != WaitingForSetup))
    && (n in s.inflight ==> s.inflight[n] != Invalid && n !in s.finished)
  }

  /** No queue or log holds a node twice. */
  ghost predicate Once(s: State) {
    NoDuplicates(s.waiting) && NoDuplicates(s.issued) && NoDuplicates(s.finished)
  }

  /** Holds at all times, also while a firing is under way. */
  ghost predicate Midway(s: State) {
    && (s.scheduled <==> s.waiting != [])
    && |s.inflight| <= 100
    && Once(s) && (forall n: nat :: NodeOk(s, n))
  }

  /** Holds between steps: nodes that were set up are held back only while others still wait. */
  ghost predicate Invariant(s: State, pipelined: bool) {
    Midway(s) && (s.waiting == [] || pipelined ==> s.issueQueue == {})
  }

  lemma SizeOfKeys(m: map<nat, Status>)
    ensures |m| == |m.Keys|
  {
  }

  lemma AdmissionKeeps(s: State, n: nat)
    requires Midway(s) && n !in s.finished && n !in s.inflight && |s.inflight| < MAX_INFLIGHT
    ensures Midway(Visited(s, n))
  {
    var t := Visited(s, n);
    assert t.inflight.Keys == s.inflight.Keys + {n};
    SizeOfKeys(s.inflight);
    SizeOfKeys(t.inflight);
    assert NodeOk(s, n);
    forall k: nat ensures NodeOk(t, k) { assert NodeOk(s, k); }
  }

  lemma RetirementKeeps(s: State, n: nat)
    requires Midway(s) && VisitCompletes(s, n)
    ensures Midway(Visited(s, n))
  {
    var t := Visited(s, n);
    assert t.inflight.Keys == s.inflight.Keys - {n};
    SizeOfKeys(s.inflight);
    SizeOfKeys(t.inflight);
    assert NodeOk(s, n);
    forall k: nat ensures NodeOk(t, k) { assert NodeOk(s, k); }
  }

  lemma VisitKeeps(s: State, n: nat, pipelined: bool)
    requires Invariant(s, pipelined) && n !in s.finished
    ensures Invariant(Visited(s, n), pipelined) && Visited(s, n).issued == s.issued
  {
    if VisitCompletes(s, n) {
      RetirementKeeps(s, n);
    } else if n !in s.inflight && |s.inflight| < MAX_INFLIGHT {
      AdmissionKeeps(s, n);
    }
  }

  lemma CompletionKeeps(s: State, t: State, n: nat, pipelined: bool)
    requires Invariant(s, pipelined) && Completes(s, t, n)
    ensures Invariant(t, pipelined)
  {
    assert t.inflight.Keys == s.inflight.Keys;
    SizeOfKeys(s.inflight);
    SizeOfKeys(t.inflight);
    forall k: nat ensures NodeOk(t, k) { assert NodeOk(s, k); }
  }

  lemma SetUpKeeps(s: State)
    requires Midway(s) && s.waiting != []
    ensures Midway(SetUp(s))
  {
    var t := SetUp(s);
    assert s.waiting == [s.waiting[0]] + t.waiting;
    assert s.waiting[0] !in t.waiting;
    forall k: nat ensures NodeOk(t, k) { assert NodeOk(s, k); }
  }

  lemma SendKeeps(s: State, n: nat)
    requires Midway(s) && n in s.issueQueue
    ensures Midway(Sent(s, n))
  {
    var t := Sent(s, n);
    assert NodeOk(s, n);
    assert t.inflight.Keys == s.inflight.Keys;
    SizeOfKeys(s.inflight);
    SizeOfKeys(t.inflight);
    forall k: nat ensures NodeOk(t, k) { assert NodeOk(s, k); }
  }

  lemma {:induction false} SendAllKeeps(s: State, batch: seq<nat>)
    requires Midway(s) && NoDuplicates(batch) && Elements(batch) <= s.issueQueue
    ensures Midway(SentAll(s, batch))
    decreases |batch|
  {
    if batch != [] {
      var p, n := batch[..|batch| - 1], batch[|batch| - 1];
      assert batch == p + [n] && n !in p;
      SendAllKeeps(s, p);
      SentAllQueues(s, p);
      SendKeeps(SentAll(s, p), n);
    }
  }

  lemma {:induction false} SentAllQueues(s: State, batch: seq<nat>)
    ensures var t := SentAll(s, batch);
      t.issueQueue == s.issueQueue - Elements(batch) && t.waiting == s.waiting && t.issued == s.issued + batch
    decreases |batch|
  {
    if batch != [] {
      var p, n := batch[..|batch| - 1], batch[|batch| - 1];
      assert batch == p + [n];
      assert Elements(batch) == Elements(p) + {n};
      SentAllQueues(s, p);
    }
  }

  /** What a batch holds and what it leaves behind. */
  lemma BatchContents(s: State, pipelined: bool, batch: seq<nat>)
    requires s.waiting != [] && Batch(s, pipelined, batch) && (pipelined ==> s.issueQueue == {})
    ensures NoDuplicates(batch) && Elements(batch) <= SetUp(s).issueQueue
    ensures pipelined || |s.waiting| == 1 ==> Elements(batch) == SetUp(s).issueQueue
  {
  }

  /** A firing keeps the invariant, sends a batch, and moves the queue on by one. */
  lemma FiringKeeps(s: State, t: State, pipelined: bool) returns (batch: seq<nat>)
    requires Invariant(s, pipelined) && Fires(s, t, pipelined)
    ensures Invariant(t, pipelined) && Batch(s, pipelined, batch)
    ensures t.waiting == s.waiting[1..] && t.issued == s.issued + batch
    ensures t.issueQueue == SetUp(s).issueQueue - Elements(batch)
  {
    batch :| Batch(s, pipelined, batch) && t == SentAll(SetUp(s), batch);
    SetUpKeeps(s);
    BatchContents(s, pipelined, batch);
    SendAllKeeps(SetUp(s), batch);
    SentAllQueues(SetUp(s), batch);
  }

  /** Every step keeps the invariant; unless pipelined, none sends while a node is still being set up. */
  lemma StepKeeps(s: State, t: State, pipelined: bool)
    requires Invariant(s, pipelined) && Step(s, t, pipelined)
    ensures Invariant(t, pipelined)
    ensures s.issued <= t.issued && (!pipelined && t.waiting != [] ==> t.issued == s.issued)
  {
    if Fires(s, t, pipelined) {
      var batch := FiringKeeps(s, t, pipelined);
    } else if n: nat :| n !in s.finished && t == Visited(s, n) {
      VisitKeeps(s, n, pipelined);
    } else {
      var n: nat :| Completes(s, t, n);
      CompletionKeeps(s, t, n, pipelined);
    }
  }

  // ----- whole runs

  ghost predicate IsRun(run: seq<State>, pipelined: bool) {
    && |run| > 0 && run[0] == Start()
    && forall i :: 0 <= i < |run| - 1 ==> Step(run[i], run[i + 1], pipelined)
  }

  /** In every reachable state of every interleaving the invariant holds. */
  lemma {:induction false} RunKeeps(run: seq<State>, pipelined: bool, i: nat)
    requires IsRun(run, pipelined) && i < |run|
    ensures Invariant(run[i], pipelined)
    decreases i
  {
    if i > 0 {
      RunKeeps(run, pipelined, i - 1);
      StepKeeps(run[i - 1], run[i], pipelined);
    }
  }

  lemma {:induction false} CountOnce(s: seq<nat>, n: nat)
    requires NoDuplicates(s)
    ensures multiset(s)[n] == if n in s then 1 else 0
  {
    if s != [] {
      var p := s[..|s| - 1];
      assert s == p + [s[|s| - 1]];
      CountOnce(p, n);
    }
  }

  /** Every node that the scheduler sees complete was sent exactly once, and no node twice. */
  lemma IssuedExactlyOnce(run: seq<State>, pipelined: bool, n: nat)
    requires IsRun(run, pipelined)
    ensures var s := run[|run| - 1];
      && multiset(s.issued)[n] <= 1
      && (n in s.finished ==> multiset(s.issued)[n] == 1)
      && multiset(s.finished)[n] <= 1
      && (n in s.waiting || n in s.issueQueue ==> multiset(s.issued)[n] == 0)
  {
    var s := run[|run| - 1];
    RunKeeps(run, pipelined, |run| - 1);
    assert NodeOk(s, n);
    CountOnce(s.issued, n);
    CountOnce(s.finished, n);
  }

  ghost predicate FiringRun(run: seq<State>, pipelined: bool) {
    |run| > 0 && forall i :: 0 <= i < |run| - 1 ==> Fires(run[i], run[i + 1], pipelined)
  }

  /** As many firings as nodes wait leave no node in setup: each of them has been sent. */
  lemma {:induction false} FiringsDrain(run: seq<State>, pipelined: bool, n: nat)
    requires FiringRun(run, pipelined) && Invariant(run[0], pipelined) && |run| == |run[0].waiting| + 1
    ensures var t := run[|run| - 1];
      && Invariant(t, pipelined) && t.waiting == [] && t.issueQueue == {} && !t.scheduled
      && (n in run[0].waiting || n in run[0].issueQueue || n in run[0].issued ==> n in t.issued)
    decreases |run|
  {
    if |run| > 1 {
      var s, t := run[0], run[1];
      var batch := FiringKeeps(s, t, pipelined);
      FiringsDrain(run[1..], pipelined, n);
      assert s.waiting == [s.waiting[0]] + t.waiting;
      assert n in batch <==> n in Elements(batch);
    }
  }

  // ----- setup ends, whatever else happens

  ghost predicate InSetup(s: State, n: nat) {
    n in s.waiting || n in s.issueQueue
  }

  /** A stretch of a run: visits, firings and completions in any order. */
  ghost predicate IsStretch(run: seq<State>, pipelined: bool) {
    |run| > 0 && forall i :: 0 <= i < |run| - 1 ==> Step(run[i], run[i + 1], pipelined)
  }

  /** Only a firing takes a node off the waiting queue. */
  predicate Fired(s: State, t: State) {
    |t.waiting| < |s.waiting|
  }

  function Firings(run: seq<State>, i: nat): nat
    requires i < |run|
  {
    if i == 0 then 0 else Firings(run, i - 1) + if Fired(run[i - 1], run[i]) then 1 else 0
  }

  lemma {:induction false} ElementsSize(s: seq<nat>)
    requires NoDuplicates(s)
    ensures |Elements(s)| == |s|
  {
    if s != [] {
      var p, x := s[..|s| - 1], s[|s| - 1];
      assert s == p + [x];
      ElementsSize(p);
      assert Elements(s) == Elements(p) + {x} && x !in p;
    }
  }

  /** The nodes in setup are all in flight. */
  lemma SetupFits(s: State)
    requires Midway(s)
    ensures |s.waiting| + |s.issueQueue| <= 100
  {
    var w := Elements(s.waiting);
    ElementsSize(s.waiting);
    forall n: nat | n in w + s.issueQueue ensures n in s.inflight.Keys { assert NodeOk(s, n); }
    forall n: nat | n in w ensures n !in s.issueQueue { assert NodeOk(s, n); }
    assert w !! s.issueQueue;
    SubsetSize(w + s.issueQueue, s.inflight.Keys);
    SizeOfKeys(s.inflight);
  }

  /** Every other step leaves those in setup where they are. */
  lemma QuietStep(s: State, t: State, pipelined: bool)
    requires Invariant(s, pipelined) && Step(s, t, pipelined) && !Fired(s, t)
    ensures s.waiting <= t.waiting && t.issueQueue == s.issueQueue
  {
    if Fires(s, t, pipelined) { var batch := FiringKeeps(s, t, pipelined); }
  }

  lemma FiredFires(s: State, t: State, pipelined: bool)
    requires Step(s, t, pipelined) && Fired(s, t)
    ensures Fires(s, t, pipelined)
  {
  }

  /** The firing for the last waiting node sends everything. */
  lemma LastFiringSends(s: State, t: State, n: nat)
    requires Invariant(s, false) && Fires(s, t, false) && InSetup(s, n) && |s.waiting| == 1
    ensures n in t.issued
  {
    var batch := FiringKeeps(s, t, false);
    BatchContents(s, false, batch);
    assert n in Elements(batch);
  }

  lemma FrontIsNotSetUp(s: State)
    requires Midway(s) && s.waiting != []
    ensures s.waiting[0] !in s.issueQueue
  {
    assert NodeOk(s, s.waiting[0]);
  }

  /** A firing that holds its node back makes the issue queue longer; one that does not sends everything. */
  lemma FiringHoldsOrSends(s: State, t: State, n: nat)
    requires Invariant(s, false) && Fires(s, t, false) && InSetup(s, n)
    ensures n in t.issued || (InSetup(t, n) && |t.issueQueue| == |s.issueQueue| + 1)
  {
    if |s.waiting| == 1 {
      LastFiringSends(s, t, n);
    } else {
      FrontIsNotSetUp(s);
      var batch := FiringKeeps(s, t, false);
      assert s.waiting == [s.waiting[0]] + t.waiting;
      assert t.issueQueue == s.issueQueue + {s.waiting[0]};
    }
  }

  lemma {:induction false} HeldBack(run: seq<State>, n: nat, i: nat)
    requires IsStretch(run, false) && Invariant(run[0], false) && InSetup(run[0], n) && i < |run|
    ensures Invariant(run[i], false)
    ensures n in run[i].issued || (InSetup(run[i], n) && |run[i].issueQueue| >= Firings(run, i))
    decreases i
  {
    if i > 0 {
      var s, t := run[i - 1], run[i];
      HeldBack(run, n, i - 1);
      assert Step(s, t, false);
      StepKeeps(s, t, false);
      if n in s.issued {
        assert n in t.issued;
      } else if Fired(s, t) {
        FiredFires(s, t, false);
        FiringHoldsOrSends(s, t, n);
      } else {
        QuietStep(s, t, false);
      }
    }
  }

  /** With pipelining a node moves up by one place with every firing. */
  lemma {:induction false} MovesUp(run: seq<State>, n: nat, i: nat) returns (k: int)
    requires IsStretch(run, true) && Invariant(run[0], true) && InSetup(run[0], n) && i < |run|
    ensures Invariant(run[i], true)
    ensures
      || n in run[i].issued
      || (0 <= k < |run[i].waiting| && run[i].waiting[k] == n && k + Firings(run, i) < 100)
    decreases i
  {
    if i == 0 {
      SetupFits(run[0]);
      k :| 0 <= k < |run[0].waiting| && run[0].waiting[k] == n;
    } else {
      var s, t := run[i - 1], run[i];
      k := MovesUp(run, n, i - 1);
      assert Step(s, t, true);
      StepKeeps(s, t, true);
      if n in s.issued {
        assert n in t.issued;
      } else if Fired(s, t) {
        FiredFires(s, t, true);
        var batch := FiringKeeps(s, t, true);
        if k == 0 { assert n in batch; }
        k := k - 1;
      } else {
        QuietStep(s, t, true);
      }
    }
  }

  /** However visits, firings and completions interleave, at most as many firings as nodes may be in flight
      send any node that is being set up. */
  lemma SetupEnds(run: seq<State>, pipelined: bool, n: nat)
    requires IsStretch(run, pipelined) && Invariant(run[0], pipelined) && InSetup(run[0], n)
    requires Firings(run, |run| - 1) >= 100
    ensures n in run[|run| - 1].issued
  {
    var t := run[|run| - 1];
    if pipelined {
      var k := MovesUp(run, n, |run| - 1);
    } else {
      HeldBack(run, n, |run| - 1);
      SetupFits(t);
    }
  }
}
