/** The TLB as its clients see it: translation requests, the two kinds of completion event, and the
    backup map that remembers every translation. */
module AladdinTlbs {
  import opened TlbRow
  import opened TlbMemories
  import opened TlbProtocol

  datatype Translation = Frame(ppn: nat) | Untranslatable

  /** A request is refused only when it would start a walk too many; each page has one walk at a time. */
  lemma AcceptedIff(s: State, packet: nat, vpn: nat, hit: bool, limit: nat)
    requires Invariant(s, limit)
    ensures var t, ok := Requested(s, packet, vpn, hit, limit), Accepts(s, vpn, hit, limit);
      && (ok <==> t.accepted == s.accepted + [packet])
      && (ok <==> hit || vpn in s.walks || limit == 0 || |s.walks| < limit)
      && t.walks == if ok && !hit && vpn !in s.walks then s.walks + [vpn] else s.walks
  {
    assert PageOk(s, vpn);
    assert |s.accepted + [packet]| == |s.accepted| + 1;
  }

  class AladdinTlb {
    const memory: TlbMemory
    /** Most walks under way at a time; 0 for no limit. */
    const limit: nat
    var hitQueue: seq<nat>
    var missQueue: seq<Miss>
    var walks: seq<nat>
    var occupied: int
    var backup: map<nat, nat>
    ghost var hitEvents: nat
    ghost var walkEvents: nat
    ghost var accepted: seq<nat>
    ghost var completed: seq<nat>

    ghost function S(): State
      reads this
    {
      State(hitQueue, missQueue, walks, occupied, hitEvents, walkEvents, accepted, completed)
    }

    ghost predicate Valid()
      reads this, memory
    {
      memory.Valid() && Invariant(S(), limit)
    }

    /** Every translation in the TLB is the backup map's. */
    ghost predicate Coherent()
      reads this, memory
      requires memory.Valid()
    {
      forall v: nat, p: nat :: memory.Cached(v, p) ==> v in backup && backup[v] == p
    }

    constructor (memory: TlbMemory, limit: nat)
      requires memory.Valid() && forall v: nat, p: nat :: !memory.Cached(v, p)
      ensures Valid() && Coherent() && S() == Start() && this.memory == memory && this.limit == limit
    {
      this.memory, this.limit := memory, limit;
      hitQueue, missQueue, walks, occupied, backup := [], [], [], 0, map[];
      hitEvents, walkEvents, accepted, completed := 0, 0, [], [];
    }

    /** A timed request. A hit is answered with a frame, at once, and completes with its event. */
    method TranslateTiming(packet: nat, vpn: nat, tick: nat) returns (ok: bool, hit: bool, ppn: nat)
      requires Valid() && tick >= memory.clock
      modifies this, memory
      ensures Valid() && backup == old(backup)
      ensures S() == Requested(old(S()), packet, vpn, hit, limit) && ok == Accepts(old(S()), vpn, hit, limit)
      ensures hit <==> old(memory.Resident(vpn))
      ensures ok <==> accepted == old(accepted) + [packet]
      ensures ok <==> hit || vpn in old(walks) || limit == 0 || |old(walks)| < limit
      ensures walks == if ok && !hit && vpn !in old(walks) then old(walks) + [vpn] else old(walks)
      ensures hit ==>
        && old(memory.Cached(vpn, ppn))
        && memory.stamps == Stamped(old(memory.stamps), (vpn / memory.pageBytes) % memory.ways, vpn, tick)
      ensures old(Coherent()) ==> Coherent() && (hit ==> vpn in backup && ppn == backup[vpn])
    {
      RequestKeeps(S(), packet, vpn, true, limit);
      RequestKeeps(S(), packet, vpn, false, limit);
      AcceptedIff(S(), packet, vpn, true, limit);
      AcceptedIff(S(), packet, vpn, false, limit);
      hit, ppn := memory.Lookup(vpn, tick, true);
      ok := true;
      if hit {
        hitQueue := hitQueue + [packet];
        hitEvents := hitEvents + 1;
      } else {
        if !Missing(missQueue, vpn) {
          if limit != 0 && |walks| >= limit {
            return false, false, 0;
          }
          walks := walks + [vpn];
          walkEvents := walkEvents + 1;
          occupied := occupied + 1;
        }
        missQueue := missQueue + [Miss(vpn, packet)];
      }
      accepted := accepted + [packet];
    }

    /** A hit event: the queue is not empty, and its front completes. */
    method DequeueHit()
      requires Valid() && hitEvents > 0
      modifies this
      ensures Valid() && backup == old(backup)
      ensures old(hitQueue) != [] && S() == Dequeued(old(S()))
    {
      DequeueKeeps(S(), limit);
      completed := completed + [hitQueue[0]];
      hitQueue := hitQueue[1..];
      hitEvents := hitEvents - 1;
    }

    /** A walk returns: the page becomes resident with the backup map's frame, or its own number. */
    method ReturnWalk(tick: nat)
      requires Valid() && walkEvents > 0 && tick >= memory.clock
      modifies this, memory
      ensures Valid() && old(walks) != [] && S() == WalkReturned(old(S()))
      ensures memory.Resident(old(walks)[0])
      ensures memory.stamps == Stamped(old(memory.stamps), memory.Way(old(walks)[0]), old(walks)[0], tick)
      ensures backup ==
        old(backup)[old(walks)[0] := if old(walks)[0] in old(backup) then old(backup)[old(walks)[0]] else old(walks)[0]]
      ensures old(Coherent()) ==> Coherent()
    {
      WalkKeeps(S(), limit);
      var vpn := walks[0];
      var ppn := if vpn in backup then backup[vpn] else vpn;
      Insert(vpn, ppn, tick);
      completed := completed + PacketsOf(missQueue, vpn);
      occupied := occupied - 1;
      missQueue := Others(missQueue, vpn);
      walks := walks[1..];
      walkEvents := walkEvents - 1;
    }

    /** Stores a translation in both places. A resident page keeps its old frame, so the two agree
        afterwards exactly when the page was not resident with another frame. */
    method Insert(vpn: nat, ppn: nat, tick: nat)
      requires Valid() && tick >= memory.clock
      modifies this`backup, memory
      ensures Valid() && backup == old(backup)[vpn := ppn] && memory.Resident(vpn)
      ensures !old(memory.Resident(vpn)) ==> memory.Cached(vpn, ppn)
      ensures old(memory.Resident(vpn)) ==> forall v: nat, p: nat :: memory.Cached(v, p) <==> old(memory.Cached(v, p))
      ensures memory.clock == tick
      ensures memory.stamps == Stamped(old(memory.stamps), (vpn / memory.pageBytes) % memory.ways, vpn, tick)
      ensures old(Coherent()) ==> (Coherent() <==> forall p: nat :: old(memory.Cached(vpn, p)) ==> p == ppn)
    {
      HoldsPage(memory.entries[memory.Way(vpn)], vpn);
      ghost var resident := memory.Resident(vpn);
      memory.Insert(vpn, ppn, tick);
      backup := backup[vpn := ppn];
      if resident {
        forall p: nat | old(memory.Cached(vpn, p)) ensures memory.Cached(vpn, p) {}
      }
    }

    /** Stores a translation in the backup map only; agreement is kept under the same condition. */
    method InsertBackupTlb(vpn: nat, ppn: nat)
      requires Valid()
      modifies this`backup
      ensures Valid() && backup == old(backup)[vpn := ppn]
      ensures old(Coherent()) ==> (Coherent() <==> forall p: nat :: memory.Cached(vpn, p) ==> p == ppn)
    {
      backup := backup[vpn := ppn];
    }

    /** An untimed translation of one page. It still marks a resident page as touched. */
    method TranslateInvisibly(vpn: nat, tick: nat) returns (r: Translation)
      requires Valid() && tick >= memory.clock
      modifies memory
      ensures Valid()
      ensures r == Untranslatable <==> !old(memory.Resident(vpn)) && vpn !in backup
      ensures old(memory.Resident(vpn)) && r.Frame? ==> old(memory.Cached(vpn, r.ppn))
      ensures !old(memory.Resident(vpn)) && vpn in backup ==> r == Frame(backup[vpn])
      ensures old(Coherent()) ==> Coherent() && (r.Frame? ==> vpn in backup && r.ppn == backup[vpn])
      ensures old(memory.Resident(vpn)) ==>
        memory.stamps == Stamped(old(memory.stamps), (vpn / memory.pageBytes) % memory.ways, vpn, tick)
    {
      var found, ppn := memory.Lookup(vpn, tick, true);
      if found {
        r := Frame(ppn);
      } else if vpn in backup {
        r := Frame(backup[vpn]);
      } else {
        r := Untranslatable;
      }
    }
  }

  /** A frame that is out of date: the page is inserted with frame 10, then with frame 20, and translates to 10. */
  method StaleFrame() returns (hit: bool, ppn: nat, remembered: nat)
    ensures hit && ppn == 10 && remembered == 20
  {
    var memory := new TlbMemory(1, 0, 1);
    forall v: nat, p: nat ensures !memory.Cached(v, p) {
      assert !memory.Resident(v);
      HoldsPage(memory.entries[memory.Way(v)], v);
    }
    var tlb := new AladdinTlb(memory, 0);
    tlb.Insert(7, 10, 1);
    tlb.Insert(7, 20, 2);
    var ok;
    ok, hit, ppn := tlb.TranslateTiming(0, 7, 3);
    remembered := tlb.backup[7];
  }
}
