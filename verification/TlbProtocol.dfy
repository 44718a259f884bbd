/** Requests, hits and page walks of the TLB, as steps that the environment interleaves: requests,
    hit events and walk-return events, the latter in the order the walks were started. */
module TlbProtocol {
  import opened Collections

  datatype Miss = Miss(vpn: nat, packet: nat)

  /** `hitEvents` and `walkEvents` count scheduled events; `accepted` and `completed` are records. */
  datatype State = State(hitQueue: seq<nat>, missQueue: seq<Miss>, walks: seq<nat>, occupied: int,
                         hitEvents: nat, walkEvents: nat, accepted: seq<nat>, completed: seq<nat>)

  function Start(): State {
    State([], [], [], 0, 0, 0, [], [])
  }

  /** How often a packet is in a queue or record. */
  function Count(s: seq<nat>, packet: nat): nat {
    if s == [] then 0 else Count(s[..|s| - 1], packet) + if s[|s| - 1] == packet then 1 else 0
  }

  function Waiting(q: seq<Miss>, packet: nat): nat {
    if q == [] then 0 else Waiting(q[..|q| - 1], packet) + if q[|q| - 1].packet == packet then 1 else 0
  }

  function PacketsOf(q: seq<Miss>, vpn: nat): seq<nat> {
    if q == [] then []
    else PacketsOf(q[..|q| - 1], vpn) + if q[|q| - 1].vpn == vpn then [q[|q| - 1].packet] else []
  }

  function Others(q: seq<Miss>, vpn: nat): seq<Miss> {
    if q == [] then []
    else Others(q[..|q| - 1], vpn) + if q[|q| - 1].vpn == vpn then [] else [q[|q| - 1]]
  }

  predicate Missing(q: seq<Miss>, vpn: nat) {
    exists i :: 0 <= i < |q| && q[i].vpn == vpn
  }

  // ----- the steps

  predicate Accepts(s: State, vpn: nat, hit: bool, limit: nat) {
    hit || Missing(s.missQueue, vpn) || limit == 0 || |s.walks| < limit
  }

  /** A hit is queued for its event; a miss joins the walk of its page, or starts one. */
  function Requested(s: State, packet: nat, vpn: nat, hit: bool, limit: nat): State {
    if !Accepts(s, vpn, hit, limit) then s
    else if hit then
      s.(hitQueue := s.hitQueue + [packet], hitEvents := s.hitEvents + 1, accepted := s.accepted + [packet])
    else if Missing(s.missQueue, vpn) then
      s.(missQueue := s.missQueue + [Miss(vpn, packet)], accepted := s.accepted + [packet])
    else
      s.(missQueue := s.missQueue + [Miss(vpn, packet)], accepted := s.accepted + [packet],
         walks := s.walks + [vpn], occupied := s.occupied + 1, walkEvents := s.walkEvents + 1)
  }

  function Dequeued(s: State): State
    requires s.hitEvents > 0 && s.hitQueue != []
  {
    s.(completed := s.completed + [s.hitQueue[0]], hitQueue := s.hitQueue[1..], hitEvents := s.hitEvents - 1)
  }

  /** The oldest walk returns: every packet that waits for its page completes. */
  function WalkReturned(s: State): State
    requires s.walkEvents > 0 && s.walks != []
  {
    s.(completed := s.completed + PacketsOf(s.missQueue, s.walks[0]), missQueue := Others(s.missQueue, s.walks[0]),
       occupied := s.occupied - 1, walks := s.walks[1..], walkEvents := s.walkEvents - 1)
  }

  ghost predicate Service(s: State, t: State) {
    || (s.hitEvents > 0 && s.hitQueue != [] && t == Dequeued(s))
    || (s.walkEvents > 0 && s.walks != [] && t == WalkReturned(s))
  }

  ghost predicate Step(s: State, t: State, limit: nat) {
    || (exists packet: nat, vpn: nat, hit: bool :: t == Requested(s, packet, vpn, hit, limit))
    || Service(s, t)
  }

  // ----- what every step keeps

  /** Exactly the pages that packets wait for are being walked. */
  ghost predicate PageOk(s: State, v: nat) {
    v in s.walks <==> Missing(s.missQueue, v)
  }

  ghost predicate Counted(s: State, limit: nat) {
    && s.hitEvents == |s.hitQueue| && s.walkEvents == s.occupied == |s.walks|
    && (limit != 0 ==> |s.walks| <= limit)
  }

  /** Every accepted packet is waiting for a hit event, waiting for a walk, or completed. */
  ghost predicate PacketOk(s: State, packet: nat) {
    Count(s.accepted, packet) == Count(s.hitQueue, packet) + Waiting(s.missQueue, packet) + Count(s.completed, packet)
  }

  ghost predicate Invariant(s: State, limit: nat) {
    && Counted(s, limit) && NoDuplicates(s.walks)
    && (forall v: nat :: PageOk(s, v))
    && (forall packet: nat :: PacketOk(s, packet))
  }

  lemma CountAppended(s: seq<nat>, x: nat, packet: nat)
    ensures Count(s + [x], packet) == Count(s, packet) + if x == packet then 1 else 0
  {
    assert (s + [x])[..|s|] == s;
  }

  lemma {:induction false} CountConcat(a: seq<nat>, b: seq<nat>, packet: nat)
    ensures Count(a + b, packet) == Count(a, packet) + Count(b, packet)
    decreases |b|
  {
    if b == [] {
      assert a + b == a;
    } else {
      assert (a + b)[..|a + b| - 1] == a + b[..|b| - 1];
      CountConcat(a, b[..|b| - 1], packet);
    }
  }

  lemma MissAppended(q: seq<Miss>, m: Miss, v: nat)
    ensures Missing(q + [m], v) <==> Missing(q, v) || v == m.vpn
  {
    var all := q + [m];
    if i :| 0 <= i < |q| && q[i].vpn == v { assert all[i].vpn == v; }
    assert all[|q|] == m;
  }

  lemma WaitingAppended(q: seq<Miss>, m: Miss, packet: nat)
    ensures Waiting(q + [m], packet) == Waiting(q, packet) + if m.packet == packet then 1 else 0
  {
    assert (q + [m])[..|q|] == q;
  }

  lemma HitKeeps(s: State, packet: nat, vpn: nat, limit: nat)
    requires Invariant(s, limit)
    ensures Invariant(Requested(s, packet, vpn, true, limit), limit)
  {
    var t := Requested(s, packet, vpn, true, limit);
    forall v: nat ensures PageOk(t, v) { assert PageOk(s, v); }
    forall p: nat ensures PacketOk(t, p) {
      assert PacketOk(s, p);
      CountAppended(s.hitQueue, packet, p);
      CountAppended(s.accepted, packet, p);
    }
  }

  lemma MissKeeps(s: State, packet: nat, vpn: nat, limit: nat)
    requires Invariant(s, limit) && Accepts(s, vpn, false, limit)
    ensures Invariant(Requested(s, packet, vpn, false, limit), limit)
  {
    var t := Requested(s, packet, vpn, false, limit);
    assert PageOk(s, vpn);
    forall v: nat ensures PageOk(t, v) {
      assert PageOk(s, v);
      MissAppended(s.missQueue, Miss(vpn, packet), v);
    }
    forall p: nat ensures PacketOk(t, p) {
      assert PacketOk(s, p);
      WaitingAppended(s.missQueue, Miss(vpn, packet), p);
      CountAppended(s.accepted, packet, p);
    }
  }

  lemma RequestKeeps(s: State, packet: nat, vpn: nat, hit: bool, limit: nat)
    requires Invariant(s, limit)
    ensures Invariant(Requested(s, packet, vpn, hit, limit), limit)
  {
    if hit {
      HitKeeps(s, packet, vpn, limit);
    } else if Accepts(s, vpn, hit, limit) {
      MissKeeps(s, packet, vpn, limit);
    }
  }

  lemma DequeueKeeps(s: State, limit: nat)
    requires Invariant(s, limit) && s.hitEvents > 0
    ensures s.hitQueue != [] && Invariant(Dequeued(s), limit)
  {
    var t := Dequeued(s);
    forall v: nat ensures PageOk(t, v) { assert PageOk(s, v); }
    forall p: nat ensures PacketOk(t, p) {
      assert PacketOk(s, p);
      assert s.hitQueue == [s.hitQueue[0]] + t.hitQueue;
      CountConcat([s.hitQueue[0]], t.hitQueue, p);
      CountAppended(s.completed, s.hitQueue[0], p);
      CountAppended([], s.hitQueue[0], p);
    }
  }

  lemma {:induction false} OthersMissing(q: seq<Miss>, vpn: nat, v: nat)
    ensures Missing(Others(q, vpn), v) <==> Missing(q, v) && v != vpn
  {
    if q != [] {
      var p, m := q[..|q| - 1], q[|q| - 1];
      OthersMissing(p, vpn, v);
      assert q == p + [m];
      MissAppended(p, m, v);
      if m.vpn == vpn { assert Others(q, vpn) == Others(p, vpn); } else { MissAppended(Others(p, vpn), m, v); }
    }
  }

  /** The packets of one page and of the others are all packets. */
  lemma {:induction false} WaitingSplit(q: seq<Miss>, vpn: nat, packet: nat)
    ensures Waiting(q, packet) == Count(PacketsOf(q, vpn), packet) + Waiting(Others(q, vpn), packet)
  {
    if q != [] {
      var p, m := q[..|q| - 1], q[|q| - 1];
      WaitingSplit(p, vpn, packet);
      if m.vpn == vpn {
        assert Others(q, vpn) == Others(p, vpn);
        CountAppended(PacketsOf(p, vpn), m.packet, packet);
      } else {
        assert PacketsOf(q, vpn) == PacketsOf(p, vpn);
        WaitingAppended(Others(p, vpn), m, packet);
      }
    }
  }

  lemma {:induction false} SomePacket(q: seq<Miss>, vpn: nat)
    ensures Missing(q, vpn) <==> PacketsOf(q, vpn) != []
  {
    if q != [] {
      var p, m := q[..|q| - 1], q[|q| - 1];
      assert q == p + [m];
      SomePacket(p, vpn);
      MissAppended(p, m, vpn);
    }
  }

  /** A returning walk finds packets waiting, and leaves none for its page. */
  lemma WalkKeeps(s: State, limit: nat)
    requires Invariant(s, limit) && s.walkEvents > 0
    ensures s.walks != [] && PacketsOf(s.missQueue, s.walks[0]) != []
    ensures Invariant(WalkReturned(s), limit)
  {
    var vpn, t := s.walks[0], WalkReturned(s);
    assert PageOk(s, vpn);
    SomePacket(s.missQueue, vpn);
    assert s.walks == [vpn] + t.walks;
    forall v: nat ensures PageOk(t, v) {
      assert PageOk(s, v);
      OthersMissing(s.missQueue, vpn, v);
    }
    forall p: nat ensures PacketOk(t, p) {
      assert PacketOk(s, p);
      WaitingSplit(s.missQueue, vpn, p);
      CountConcat(s.completed, PacketsOf(s.missQueue, vpn), p);
    }
  }

  lemma ServiceKeeps(s: State, t: State, limit: nat)
    requires Invariant(s, limit) && Service(s, t)
    ensures Invariant(t, limit) && |t.hitQueue| + |t.walks| + 1 == |s.hitQueue| + |s.walks| && t.accepted == s.accepted
  {
    if s.hitEvents > 0 && s.hitQueue != [] && t == Dequeued(s) { DequeueKeeps(s, limit); } else { WalkKeeps(s, limit); }
  }

  lemma StepKeeps(s: State, t: State, limit: nat)
    requires Invariant(s, limit) && Step(s, t, limit)
    ensures Invariant(t, limit)
  {
    if Service(s, t) {
      ServiceKeeps(s, t, limit);
    } else {
      var packet: nat, vpn: nat, hit: bool :| t == Requested(s, packet, vpn, hit, limit);
      RequestKeeps(s, packet, vpn, hit, limit);
    }
  }

  // ----- whole runs

  ghost predicate IsRun(run: seq<State>, limit: nat) {
    && |run| > 0 && run[0] == Start()
    && forall i :: 0 <= i < |run| - 1 ==> Step(run[i], run[i + 1], limit)
  }

  /** In every reachable state of every interleaving the invariant holds. */
  lemma {:induction false} RunKeeps(run: seq<State>, limit: nat, i: nat)
    requires IsRun(run, limit) && i < |run|
    ensures Invariant(run[i], limit)
    decreases i
  {
    if i > 0 {
      RunKeeps(run, limit, i - 1);
      StepKeeps(run[i - 1], run[i], limit);
    }
  }

  /** No packet completes more often than it was accepted, and when no event is left every accepted
      packet has completed exactly as often. */
  lemma CompletedExactlyOnce(run: seq<State>, limit: nat, packet: nat)
    requires IsRun(run, limit)
    ensures var s := run[|run| - 1];
      && Count(s.completed, packet) <= Count(s.accepted, packet)
      && (s.hitEvents == 0 && s.walkEvents == 0 ==> Count(s.completed, packet) == Count(s.accepted, packet))
  {
    var s := run[|run| - 1];
    RunKeeps(run, limit, |run| - 1);
    assert PacketOk(s, packet);
    if s.hitEvents == 0 && s.walkEvents == 0 { NothingWaits(s, limit, packet); }
  }

  lemma NothingWaits(s: State, limit: nat, packet: nat)
    requires Invariant(s, limit) && s.hitEvents == 0 && s.walkEvents == 0
    ensures s.missQueue == [] && Count(s.completed, packet) == Count(s.accepted, packet)
  {
    assert PacketOk(s, packet);
    assert s.missQueue != [] ==> PageOk(s, s.missQueue[0].vpn);
  }

  ghost predicate ServiceRun(run: seq<State>) {
    |run| > 0 && forall i :: 0 <= i < |run| - 1 ==> Service(run[i], run[i + 1])
  }

  /** As many events as there are hits and walks under way, in any order, complete every accepted packet. */
  lemma {:induction false} ServiceDrains(run: seq<State>, limit: nat, packet: nat)
    requires ServiceRun(run) && Invariant(run[0], limit) && |run| == |run[0].hitQueue| + |run[0].walks| + 1
    ensures Count(run[|run| - 1].completed, packet) == Count(run[0].accepted, packet)
    decreases |run|
  {
    if |run| == 1 {
      NothingWaits(run[0], limit, packet);
    } else {
      ServiceKeeps(run[0], run[1], limit);
      ServiceDrains(run[1..], limit, packet);
    }
  }
}
