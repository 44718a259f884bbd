/** The TLB's storage: rows searched entry by entry, the least recently touched entry evicted. */
module TlbMemories {
  import opened TlbRow

  /** The row holds this translation. */
  ghost predicate Holds(row: seq<Entry>, vpn: nat, ppn: nat) {
    exists i :: 0 <= i < |row| && !row[i].free && row[i].vpn == vpn && row[i].ppn == ppn
  }

  lemma HoldsPage(row: seq<Entry>, vpn: nat)
    ensures vpn in Pages(row) <==> exists ppn: nat :: Holds(row, vpn, ppn)
  {
    if vpn in Pages(row) {
      var e :| e in row && !e.free && e.vpn == vpn;
      var i :| 0 <= i < |row| && row[i] == e;
      assert Holds(row, vpn, row[i].ppn);
    }
    if ppn: nat :| Holds(row, vpn, ppn) {
      var i :| 0 <= i < |row| && !row[i].free && row[i].vpn == vpn && row[i].ppn == ppn;
      assert row[i] in row;
    }
  }

  /** The row's only change is the tick of one entry. */
  lemma TouchHolds(row: seq<Entry>, i: nat, tick: nat, vpn: nat, ppn: nat)
    requires i < |row|
    ensures Holds(row[i := row[i].(mruTick := tick)], vpn, ppn) <==> Holds(row, vpn, ppn)
  {
    var after := row[i := row[i].(mruTick := tick)];
    if k :| 0 <= k < |row| && !row[k].free && row[k].vpn == vpn && row[k].ppn == ppn {
      assert !after[k].free && after[k].vpn == vpn && after[k].ppn == ppn;
    }
    if k :| 0 <= k < |after| && !after[k].free && after[k].vpn == vpn && after[k].ppn == ppn {
      assert !row[k].free && row[k].vpn == vpn && row[k].ppn == ppn;
    }
  }

  /** Filling an entry adds its translation and drops the one it held. */
  lemma FillHolds(row: seq<Entry>, v: nat, e: Entry, vpn: nat, ppn: nat)
    requires v < |row| && NoPageTwice(row) && !e.free && e.vpn !in Pages(row)
    ensures Holds(row[v := e], vpn, ppn) <==>
      (vpn == e.vpn && ppn == e.ppn) || (Holds(row, vpn, ppn) && (row[v].free || row[v].vpn != vpn))
  {
    var after := row[v := e];
    assert after[v] == e;
    if k :| 0 <= k < |row| && !row[k].free && row[k].vpn == vpn && row[k].ppn == ppn {
      assert row[k] in row;
      if k != v { assert !after[k].free && after[k].vpn == vpn && after[k].ppn == ppn; }
    }
    if k :| 0 <= k < |after| && !after[k].free && after[k].vpn == vpn && after[k].ppn == ppn {
      if k != v { assert !row[k].free && row[k].vpn == vpn && row[k].ppn == ppn; }
    }
  }

  ghost function Stamped(stamps: seq<Stamps>, w: nat, vpn: nat, tick: nat): seq<Stamps>
    requires w < |stamps|
  {
    var later: Stamps := stamps[w][vpn := tick];
    stamps[w := later]
  }

  /** Row `w` is touched, and no other. */
  ghost predicate Touched(rows: seq<seq<Entry>>, after: seq<seq<Entry>>, w: nat, t: Touch) {
    w < |rows| == |after| && Touches(rows[w], after[w], t) && after == rows[w := after[w]]
  }

  class TlbMemory {
    const sets: nat
    const ways: nat
    const pageBytes: nat
    var entries: seq<seq<Entry>>
    /** Per row, when each page touched it last; and a tick no earlier than any of them. */
    ghost var stamps: seq<Stamps>
    ghost var clock: nat

    ghost predicate Valid()
      reads this
    {
      && sets > 0 && ways > 0 && pageBytes > 0 && clock > 0 && |entries| == |stamps| == ways
      && (forall w: nat :: w < ways ==> |entries[w]| == sets && RowOk(entries[w], stamps[w]) && Fresh(stamps[w], clock))
    }

    function Way(vpn: nat): (w: nat)
      requires ways > 0 && pageBytes > 0
      ensures w < ways
    {
      (vpn / pageBytes) % ways
    }

    /** The translation is in the TLB. */
    ghost predicate Cached(vpn: nat, ppn: nat)
      reads this
      requires Valid()
    {
      Holds(entries[Way(vpn)], vpn, ppn)
    }

    ghost predicate Resident(vpn: nat)
      reads this
      requires Valid()
    {
      vpn in Pages(entries[Way(vpn)])
    }

    /** An associativity of 0 asks for one fully associative row. */
    constructor (numEntries: nat, associativity: nat, pageBytes: nat)
      requires numEntries > 0 && pageBytes > 0
      requires associativity > 0 ==> numEntries % associativity == 0
      ensures Valid() && clock == 1
      ensures sets == (if associativity == 0 then numEntries else associativity) && ways == numEntries / sets
      ensures this.pageBytes == pageBytes && forall v: nat :: !Resident(v)
    {
      var n := if associativity == 0 then numEntries else associativity;
      RowsExist(numEntries, n);
      sets, ways, this.pageBytes := n, numEntries / n, pageBytes;
      entries := seq(numEntries / n, w => seq(n, i => Entry(0, 0, true, 0)));
      stamps := seq(numEntries / n, w => map[]);
      clock := 1;
    }

    static lemma RowsExist(numEntries: nat, n: nat)
      requires numEntries > 0 && n > 0 && numEntries % n == 0
      ensures numEntries / n > 0
    {
    }

    /** Looks the page up and, on a hit, marks it as touched at `tick`. */
    method Lookup(vpn: nat, tick: nat, setMru: bool) returns (found: bool, ppn: nat)
      requires Valid() && tick >= clock
      modifies this
      ensures Valid() && clock == if found && setMru then tick else old(clock)
      ensures found <==> old(Resident(vpn))
      ensures found <==> vpn in Pages(old(entries)[(vpn / pageBytes) % ways])
      ensures found ==> old(Cached(vpn, ppn))
      ensures forall v: nat, p: nat :: Cached(v, p) <==> old(Cached(v, p))
      ensures stamps ==
        if found && setMru then Stamped(old(stamps), (vpn / pageBytes) % ways, vpn, tick) else old(stamps)
      ensures if found && setMru then Touched(old(entries), entries, (vpn / pageBytes) % ways, Touch(vpn, tick))
              else entries == old(entries)
    {
      var way := Way(vpn);
      var i := FindEntry(entries[way], vpn);
      if i == sets {
        return false, 0;
      }
      found, ppn := true, entries[way][i].ppn;
      assert entries[way][i] in entries[way];
      if setMru {
        ghost var row, seen := entries[way], stamps[way];
        TouchKeeps(row, seen, i, tick);
        forall v: nat, p: nat ensures Holds(row[i := row[i].(mruTick := tick)], v, p) <==> Holds(row, v, p) {
          TouchHolds(row, i, tick, v, p);
        }
        assert Hits(row, row[i := row[i].(mruTick := tick)], Touch(vpn, tick), i);
        entries := entries[way := entries[way][i := entries[way][i].(mruTick := tick)]];
        stamps := Stamped(stamps, way, vpn, tick);
        clock := tick;
      }
    }

    /** Makes the translation resident, unless the page is resident already: then its old frame stays. */
    method Insert(vpn: nat, ppn: nat, tick: nat)
      requires Valid() && tick >= clock
      modifies this
      ensures Valid() && clock == tick && stamps == Stamped(old(stamps), (vpn / pageBytes) % ways, vpn, tick)
      ensures old(Resident(vpn)) ==> forall v: nat, p: nat :: Cached(v, p) <==> old(Cached(v, p))
      ensures !old(Resident(vpn)) ==> Cached(vpn, ppn)
      ensures !old(Resident(vpn)) ==>
        forall v: nat, p: nat :: Cached(v, p) ==> if v == vpn then p == ppn else old(Cached(v, p))
      ensures Resident(vpn) && Touched(old(entries), entries, (vpn / pageBytes) % ways, Touch(vpn, tick))
      ensures forall v: nat, p: nat :: (v / pageBytes) % ways != (vpn / pageBytes) % ways ==>
        (Cached(v, p) <==> old(Cached(v, p)))
    {
      var found, a := Lookup(vpn, tick, true);
      if found {
        HoldsPage(entries[Way(vpn)], vpn);
        return;
      }
      Fill(vpn, ppn, tick);
    }

    method Fill(vpn: nat, ppn: nat, tick: nat)
      requires Valid() && tick >= clock && !Resident(vpn)
      modifies this
      ensures Valid() && clock == tick && stamps == Stamped(old(stamps), (vpn / pageBytes) % ways, vpn, tick)
      ensures Resident(vpn) && Cached(vpn, ppn)
      ensures forall v: nat, p: nat :: Cached(v, p) ==> if v == vpn then p == ppn else old(Cached(v, p))
      ensures Touched(old(entries), entries, (vpn / pageBytes) % ways, Touch(vpn, tick))
      ensures forall v: nat, p: nat :: (v / pageBytes) % ways != (vpn / pageBytes) % ways ==>
        (Cached(v, p) <==> old(Cached(v, p)))
    {
      var way := Way(vpn);
      ghost var row, seen := entries[way], stamps[way];
      forall i: nat | i < |row| && !row[i].free ensures row[i].mruTick <= tick { assert EntryOk(row, seen, i); }
      var v := ChooseEntry(entries[way], tick);
      var e := Entry(vpn, ppn, false, tick);
      FillKeeps(row, seen, v, vpn, ppn, tick);
      HoldsPage(row, vpn);
      forall w: nat, p: nat ensures Holds(row[v := e], w, p) <==>
        (w == e.vpn && p == e.ppn) || (Holds(row, w, p) && (row[v].free || row[v].vpn != w))
      {
        FillHolds(row, v, e, w, p);
      }
      assert Fills(row, row[v := e], Touch(vpn, tick), v, ppn);
      entries := entries[way := entries[way][v := e]];
      stamps := Stamped(stamps, way, vpn, tick);
      clock := tick;
    }

    static method FindEntry(row: seq<Entry>, vpn: nat) returns (i: nat)
      ensures i <= |row| && (i < |row| <==> vpn in Pages(row))
      ensures i < |row| ==> !row[i].free && row[i].vpn == vpn
    {
      i := 0;
      while i < |row|
        invariant i <= |row| && forall k :: 0 <= k < i ==> row[k].free || row[k].vpn != vpn
      {
        if row[i].vpn == vpn && !row[i].free {
          assert row[i] in row;
          return;
        }
        i := i + 1;
      }
    }

    /** The first free entry, or else the last one of those with the least tick. */
    static method ChooseEntry(row: seq<Entry>, tick: nat) returns (v: nat)
      requires |row| > 0 && forall i :: 0 <= i < |row| && !row[i].free ==> row[i].mruTick <= tick
      ensures Victim(row, v)
    {
      var minTick := tick;
      v := 0;
      for i := 0 to |row|
        invariant v < |row| && forall k :: 0 <= k < i ==> !row[k].free && minTick <= row[k].mruTick
        invariant forall k :: v < k < i ==> minTick < row[k].mruTick
        invariant i > 0 ==> !row[v].free && row[v].mruTick == minTick
        invariant i == 0 ==> minTick == tick
        invariant minTick <= tick
      {
        if row[i].free {
          return i;
        } else if row[i].mruTick <= minTick {
          minTick := row[i].mruTick;
          v := i;
        }
      }
    }
  }
}
