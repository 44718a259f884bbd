/** Every packet the TLB accepts completes once the events under way at that time have come, whatever
    requests come in between. */
module TlbProgress {
  import opened Collections
  import opened TlbProtocol

  /** A stretch of a run: requests, hit events and walk returns in any order. */
  ghost predicate IsStretch(run: seq<State>, limit: nat) {
    |run| > 0 && forall i :: 0 <= i < |run| - 1 ==> Step(run[i], run[i + 1], limit)
  }

  /** Only a hit event shortens the hit queue, only a walk return the walks. */
  predicate HitCame(s: State, t: State) {
    |t.hitQueue| < |s.hitQueue|
  }

  predicate WalkCame(s: State, t: State) {
    |t.walks| < |s.walks|
  }

  function Hits(run: seq<State>, i: nat): nat
    requires i < |run|
  {
    if i == 0 then 0 else Hits(run, i - 1) + if HitCame(run[i - 1], run[i]) then 1 else 0
  }

  function Returns(run: seq<State>, i: nat): nat
    requires i < |run|
  {
    if i == 0 then 0 else Returns(run, i - 1) + if WalkCame(run[i - 1], run[i]) then 1 else 0
  }

  function Drop(q: seq<nat>, n: nat): seq<nat> {
    if n <= |q| then q[n..] else []
  }

  /** How often a packet waits for one of the given pages. */
  function WaitingFor(q: seq<Miss>, pages: seq<nat>, packet: nat): nat {
    if pages == [] then 0 else Count(PacketsOf(q, pages[0]), packet) + WaitingFor(q, pages[1..], packet)
  }

  // ----- packets and pages

  lemma {:induction false} OthersPackets(q: seq<Miss>, vpn: nat, v: nat)
    requires v != vpn
    ensures PacketsOf(Others(q, vpn), v) == PacketsOf(q, v)
  {
    if q != [] {
      var p, m := q[..|q| - 1], q[|q| - 1];
      OthersPackets(p, vpn, v);
      if m.vpn == vpn {
        assert Others(q, vpn) == Others(p, vpn) && PacketsOf(q, v) == PacketsOf(p, v);
      } else {
        PacketsAppended(Others(p, vpn), m, v);
      }
    }
  }

  lemma PacketsAppended(q: seq<Miss>, m: Miss, v: nat)
    ensures PacketsOf(q + [m], v) == PacketsOf(q, v) + if m.vpn == v then [m.packet] else []
  {
    assert (q + [m])[..|q|] == q;
  }

  lemma {:induction false} OthersWaiting(q: seq<Miss>, vpn: nat, pages: seq<nat>, packet: nat)
    requires vpn !in pages
    ensures WaitingFor(Others(q, vpn), pages, packet) == WaitingFor(q, pages, packet)
  {
    if pages != [] {
      OthersPackets(q, vpn, pages[0]);
      OthersWaiting(q, vpn, pages[1..], packet);
    }
  }

  /** When the pages are all that are waited for, each once, nothing is missed. */
  lemma {:induction false} AllWait(q: seq<Miss>, pages: seq<nat>, packet: nat)
    requires NoDuplicates(pages) && forall v: nat :: Missing(q, v) ==> v in pages
    ensures WaitingFor(q, pages, packet) == Waiting(q, packet)
    decreases |pages|
  {
    if pages == [] {
      assert q != [] ==> Missing(q, q[0].vpn);
    } else {
      var v, rest := pages[0], pages[1..];
      forall x: nat | Missing(Others(q, v), x) ensures x in rest { OthersMissing(q, v, x); }
      AllWait(Others(q, v), rest, packet);
      OthersWaiting(q, v, rest, packet);
      WaitingSplit(q, v, packet);
    }
  }

  // ----- what remains of a state's packets

  /** After `h` hit events and `w` walk returns from `s`, the queues of `t` begin with what is left of those of
      `s`, and the packets waiting then still wait or have completed. */
  ghost predicate Remains(s: State, t: State, h: nat, w: nat, packet: nat) {
    && Drop(s.hitQueue, h) <= t.hitQueue && Drop(s.walks, w) <= t.walks
    && (forall v: nat :: v in Drop(s.walks, w) ==> StillWaits(s, t, v, packet))
    && Count(t.completed, packet) + Count(Drop(s.hitQueue, h), packet) +
      WaitingFor(s.missQueue, Drop(s.walks, w), packet)
         >= Count(s.accepted, packet)
  }

  ghost predicate StillWaits(s: State, t: State, v: nat, packet: nat) {
    Count(PacketsOf(t.missQueue, v), packet) >= Count(PacketsOf(s.missQueue, v), packet)
  }

  lemma RemainsAtFirst(s: State, limit: nat, packet: nat)
    requires Invariant(s, limit)
    ensures Remains(s, s, 0, 0, packet)
  {
    assert PacketOk(s, packet);
    forall v: nat | Missing(s.missQueue, v) ensures v in s.walks { assert PageOk(s, v); }
    AllWait(s.missQueue, s.walks, packet);
    assert s.hitQueue[0..] == s.hitQueue && s.walks[0..] == s.walks;
  }

  lemma StepKinds(s: State, t: State, limit: nat)
    requires Step(s, t, limit)
    ensures HitCame(s, t) ==> s.hitEvents > 0 && s.hitQueue != [] && t == Dequeued(s) && !WalkCame(s, t)
    ensures WalkCame(s, t) ==> s.walkEvents > 0 && s.walks != [] && t == WalkReturned(s) && !HitCame(s, t)
    ensures !HitCame(s, t) && !WalkCame(s, t) ==>
      exists packet: nat, vpn: nat, hit: bool :: t == Requested(s, packet, vpn, hit, limit)
  {
  }

  lemma RequestRemains(s: State, t: State, u: State, h: nat, w: nat, packet: nat, p: nat, vpn: nat, hit: bool,
                       limit: nat)
    requires Remains(s, t, h, w, packet) && u == Requested(t, p, vpn, hit, limit)
    ensures Remains(s, u, h, w, packet)
  {
    forall v: nat | v in Drop(s.walks, w) ensures StillWaits(s, u, v, packet) {
      assert StillWaits(s, t, v, packet);
      PacketsAppended(t.missQueue, Miss(vpn, p), v);
      CountAppended(PacketsOf(t.missQueue, v), p, packet);
      assert PacketsOf(t.missQueue, v) + [] == PacketsOf(t.missQueue, v);
    }
  }

  lemma DropNext(q: seq<nat>, n: nat, packet: nat)
    requires n < |q|
    ensures Drop(q, n) == [q[n]] + Drop(q, n + 1)
    ensures Count(Drop(q, n), packet) == Count(Drop(q, n + 1), packet) + if q[n] == packet then 1 else 0
  {
    CountConcat([q[n]], Drop(q, n + 1), packet);
    CountAppended([], q[n], packet);
  }

  lemma HitRemains(s: State, t: State, h: nat, w: nat, packet: nat)
    requires Remains(s, t, h, w, packet) && t.hitEvents > 0 && t.hitQueue != []
    ensures Remains(s, Dequeued(t), h + 1, w, packet)
  {
    var u := Dequeued(t);
    CountAppended(t.completed, t.hitQueue[0], packet);
    if h < |s.hitQueue| {
      DropNext(s.hitQueue, h, packet);
      assert t.hitQueue[0] == Drop(s.hitQueue, h)[0];
      assert t.hitQueue == [t.hitQueue[0]] + u.hitQueue;
    }
    forall v: nat | v in Drop(s.walks, w) ensures StillWaits(s, u, v, packet) { assert StillWaits(s, t, v, packet); }
  }

  lemma WalkRemains(s: State, t: State, h: nat, w: nat, packet: nat)
    requires Remains(s, t, h, w, packet) && NoDuplicates(s.walks) && t.walkEvents > 0 && t.walks != []
    ensures Remains(s, WalkReturned(t), h, w + 1, packet)
  {
    var u, front := WalkReturned(t), t.walks[0];
    CountConcat(t.completed, PacketsOf(t.missQueue, front), packet);
    if w < |s.walks| {
      assert Drop(s.walks, w) == [s.walks[w]] + Drop(s.walks, w + 1);
      assert front == Drop(s.walks, w)[0] && front in Drop(s.walks, w);
      assert StillWaits(s, t, front, packet);
      assert t.walks == [front] + u.walks;
      assert WaitingFor(s.missQueue, Drop(s.walks, w), packet) ==
        Count(PacketsOf(s.missQueue, front), packet) + WaitingFor(s.missQueue, Drop(s.walks, w)[1..], packet);
      assert Drop(s.walks, w)[1..] == Drop(s.walks, w + 1);
      WalkStillWaits(s, t, w, packet);
    }
  }

  lemma WalkStillWaits(s: State, t: State, w: nat, packet: nat)
    requires NoDuplicates(s.walks) && w < |s.walks| && t.walkEvents > 0 && t.walks != [] && t.walks[0] == s.walks[w]
    requires forall v: nat :: v in Drop(s.walks, w) ==> StillWaits(s, t, v, packet)
    ensures forall v: nat :: v in Drop(s.walks, w + 1) ==> StillWaits(s, WalkReturned(t), v, packet)
  {
    var front := t.walks[0];
    assert Drop(s.walks, w) == [front] + Drop(s.walks, w + 1);
    forall v: nat | v in Drop(s.walks, w + 1) ensures StillWaits(s, WalkReturned(t), v, packet) {
      assert v in Drop(s.walks, w) && StillWaits(s, t, v, packet);
      var k :| 0 <= k < |Drop(s.walks, w + 1)| && Drop(s.walks, w + 1)[k] == v;
      assert s.walks[w + 1 + k] == v;
      OthersPackets(t.missQueue, front, v);
    }
  }

  lemma StepRemains(s: State, t: State, u: State, h: nat, w: nat, limit: nat, packet: nat)
    requires Remains(s, t, h, w, packet) && NoDuplicates(s.walks) && Step(t, u, limit)
    ensures Remains(s, u, if HitCame(t, u) then h + 1 else h, if WalkCame(t, u) then w + 1 else w, packet)
  {
    StepKinds(t, u, limit);
    if HitCame(t, u) {
      HitRemains(s, t, h, w, packet);
    } else if WalkCame(t, u) {
      WalkRemains(s, t, h, w, packet);
    } else {
      var p: nat, vpn: nat, hit: bool :| u == Requested(t, p, vpn, hit, limit);
      RequestRemains(s, t, u, h, w, packet, p, vpn, hit, limit);
    }
  }

  lemma {:induction false} StretchRemains(run: seq<State>, limit: nat, i: nat, packet: nat)
    requires IsStretch(run, limit) && Invariant(run[0], limit) && i < |run|
    ensures Remains(run[0], run[i], Hits(run, i), Returns(run, i), packet)
    decreases i
  {
    if i == 0 {
      RemainsAtFirst(run[0], limit, packet);
    } else {
      StretchRemains(run, limit, i - 1, packet);
      StepRemains(run[0], run[i - 1], run[i], Hits(run, i - 1), Returns(run, i - 1), limit, packet);
    }
  }

  /** Once as many hit events and walk returns have come as were under way at first, every packet accepted by
      then has completed, in every interleaving with later requests. */
  lemma AcceptedComplete(run: seq<State>, limit: nat, packet: nat)
    requires IsStretch(run, limit) && Invariant(run[0], limit)
    requires Hits(run, |run| - 1) >= |run[0].hitQueue| && Returns(run, |run| - 1) >= |run[0].walks|
    ensures Count(run[|run| - 1].completed, packet) >= Count(run[0].accepted, packet)
  {
    StretchRemains(run, limit, |run| - 1, packet);
  }
}
