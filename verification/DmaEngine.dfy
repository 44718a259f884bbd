/** The event handlers of `HybridDatapath` that move DMA nodes along, over the maps and queues they update. */
module DmaEngines {
  import opened Collections
  import opened DmaProtocol

  lemma {:induction false} SmallestExists(s: set<nat>) returns (x: nat)
    requires s != {}
    ensures Smallest(x, s)
    decreases |s|
  {
    x :| x in s;
    var rest := s - {x};
    assert s == rest + {x};
    if rest != {} {
      var z := SmallestExists(rest);
      if z < x { x := z; }
    }
  }

  predicate Smallest(x: nat, s: set<nat>) {
    x in s && forall y :: y in s ==> x <= y
  }

  /** Part of a batch has been sent, smallest first. */
  ghost predicate Sending(s: State, t: State, batch: seq<nat>) {
    && t == SentAll(s, batch) && Ascending(batch)
    && Elements(batch) + t.issueQueue == s.issueQueue
    && (batch != [] ==> forall y :: y in t.issueQueue ==> batch[|batch| - 1] < y)
  }

  lemma SendStart(s: State)
    ensures Sending(s, s, [])
  {
  }

  lemma SentOneMore(s: State, batch: seq<nat>, n: nat)
    ensures SentAll(s, batch + [n]) == Sent(SentAll(s, batch), n)
  {
    assert (batch + [n])[..|batch|] == batch;
  }

  lemma SendNext(s: State, t: State, batch: seq<nat>, n: nat)
    requires Sending(s, t, batch) && Smallest(n, t.issueQueue)
    ensures Sending(s, Sent(t, n), batch + [n])
  {
    SentOneMore(s, batch, n);
    assert Elements(batch + [n]) == Elements(batch) + {n};
    var all := batch + [n];
    forall i, j | 0 <= i < j < |all| ensures all[i] < all[j] {
      if j == |batch| { assert batch[i] <= batch[|batch| - 1]; }
    }
  }

  lemma StillInFlight(s: State, t: State, batch: seq<nat>, n: nat)
    requires Midway(s) && Sending(s, t, batch) && n in t.issueQueue
    ensures n in t.inflight
  {
    SendAllKeeps(s, batch);
    assert NodeOk(t, n);
  }

  lemma SendDone(s: State, t: State, batch: seq<nat>)
    requires Sending(s, t, batch) && t.issueQueue == {}
    ensures Elements(batch) == s.issueQueue
  {
  }

  /** `Invalid` does not outlast a visit. */
  lemma StatusSet(s: State, n: nat)
    requires Midway(s) && n in s.inflight
    ensures s.inflight[n] != Invalid
  {
    assert NodeOk(s, n);
  }

  /** The answer of a visit tells whether the node leaves the flight and is logged as finished. */
  lemma AnswerTells(s: State, n: nat)
    ensures VisitCompletes(s, n) <==> Visited(s, n).finished == s.finished + [n]
    ensures VisitCompletes(s, n) <==> n in s.inflight && n !in Visited(s, n).inflight
  {
    assert s.finished != s.finished + [n] by { assert |s.finished + [n]| == |s.finished| + 1; }
  }

  class DmaEngine {
    const pipelined: bool
    var inflight: map<nat, Status>
    var waiting: seq<nat>
    var issueQueue: set<nat>
    /** Whether the setup event is scheduled. */
    var scheduled: bool
    ghost var issued: seq<nat>
    ghost var finished: seq<nat>

    ghost function S(): State
      reads this
    {
      State(inflight, waiting, issueQueue, scheduled, issued, finished)
    }

    ghost predicate Valid()
      reads this
    {
      Invariant(S(), pipelined)
    }

    constructor (pipelined: bool)
      ensures Valid() && S() == Start() && this.pipelined == pipelined
    {
      this.pipelined := pipelined;
      inflight, waiting, issueQueue, scheduled, issued, finished := map[], [], {}, false, [], [];
    }

    /** One visit by the scheduler. A fence completes at once and changes nothing. */
    method HandleDmaMemoryOp(n: nat, isFence: bool) returns (done: bool)
      requires Valid() && (!isFence ==> n !in finished)
      modifies this
      ensures Valid()
      ensures isFence ==> done && S() == old(S())
      ensures !isFence ==> S() == Visited(old(S()), n) && done == VisitCompletes(old(S()), n)
      ensures !isFence ==> (done <==> finished == old(finished) + [n])
      ensures !isFence ==> (done <==> n in old(inflight) && n !in inflight)
    {
      if isFence {
        return true;
      }
      VisitKeeps(S(), n, pipelined);
      AnswerTells(S(), n);
      var status := Invalid;
      if n !in inflight {
        if |inflight| < MAX_INFLIGHT {
          inflight := inflight[n := status];
        } else {
          return false;
        }
      } else {
        status := inflight[n];
        StatusSet(S(), n);
      }
      if status == Invalid {
        if !scheduled {
          scheduled := true;
        }
        inflight := inflight[n := WaitingForSetup];
        waiting := waiting + [n];
        done := false;
        assert inflight == old(inflight)[n := WaitingForSetup];
        assert S() == Visited(old(S()), n);
      } else if status == Returned {
        inflight := inflight - {n};
        finished := finished + [n];
        done := true;
        assert S() == Visited(old(S()), n);
      } else {
        done := false;
      }
    }

    method IssueDmaRequest(n: nat)
      requires n in inflight
      modifies this`inflight, this`issued
      ensures inflight == old(inflight)[n := WaitingFromDma] && issued == old(issued) + [n]
    {
      inflight := inflight[n := WaitingFromDma];
      issued := issued + [n];
    }

    /** Sends the smallest node in the issue queue. */
    method IssueNext(ghost s: State, ghost batch: seq<nat>) returns (ghost n: nat)
      requires Midway(s) && Sending(s, S(), batch) && issueQueue != {}
      modifies this`inflight, this`issued, this`issueQueue
      ensures n in old(issueQueue) && issueQueue == old(issueQueue) - {n} && Sending(s, S(), batch + [n])
    {
      ghost var least := SmallestExists(issueQueue);
      var next: nat :| next in issueQueue && Smallest(next, issueQueue);
      StillInFlight(s, S(), batch, next);
      SendNext(s, S(), batch, next);
      IssueDmaRequest(next);
      issueQueue := issueQueue - {next};
      n := next;
    }

    /** Sends every node that was set up, in ascending order. */
    method IssueAll(ghost s: State) returns (ghost batch: seq<nat>)
      requires S() == s && Midway(s)
      modifies this`inflight, this`issued, this`issueQueue
      ensures Sending(s, S(), batch) && issueQueue == {}
    {
      batch := [];
      SendStart(s);
      while issueQueue != {}
        invariant Sending(s, S(), batch)
        decreases issueQueue
      {
        var n := IssueNext(s, batch);
        batch := batch + [n];
      }
    }

    /** The setup event fires for the node at the front of the waiting queue. */
    method DelayedDmaIssue()
      requires Valid() && scheduled
      modifies this
      ensures Valid() && Fires(old(S()), S(), pipelined)
    {
      ghost var s := S();
      ghost var batch: seq<nat> := [];
      SetUpKeeps(s);
      scheduled := false;
      var n := waiting[0];
      waiting := waiting[1..];
      issueQueue := issueQueue + {n};
      if pipelined {
        assert NodeOk(s, n);
        SentOneMore(SetUp(s), [], n);
        IssueDmaRequest(n);
        issueQueue := issueQueue - {n};
        batch := [n];
      }
      if waiting != [] && !scheduled {
        scheduled := true;
      }
      if !pipelined && waiting == [] {
        batch := IssueAll(SetUp(s));
        SendDone(SetUp(s), S(), batch);
      }
      assert Batch(s, pipelined, batch) && S() == SentAll(SetUp(s), batch);
      var sent := FiringKeeps(s, S(), pipelined);
    }

    /** The last piece of the transfer of `n` is done. */
    method DmaCompleteCallback(n: nat)
      requires Valid() && n in inflight && inflight[n] == WaitingFromDma
      modifies this
      ensures Valid() && Completes(old(S()), S(), n)
    {
      ghost var s := S();
      inflight := inflight[n := Returned];
      CompletionKeeps(s, S(), n, pipelined);
    }
  }
}
