/** One row of the TLB: which pages it holds after any run of touches at ticks that never go back. */
module TlbRow {
  import opened Collections

  datatype Entry = Entry(vpn: nat, ppn: nat, free: bool, mruTick: nat)

  /** The pages resident in a row. */
  ghost function Pages(row: seq<Entry>): set<nat> {
    set e | e in row && !e.free :: e.vpn
  }

  /** The tick at which each page that ever touched the row did so last. */
  type Stamps = map<nat, nat>

  ghost predicate Fresh(stamps: Stamps, tick: nat) {
    forall p :: p in stamps ==> stamps[p] <= tick
  }

  /** A taken entry carries its page's last tick, and every page touched later is resident too;
      while an entry is free, every page is. */
  ghost predicate EntryOk(row: seq<Entry>, stamps: Stamps, i: nat)
    requires i < |row|
  {
    if row[i].free then stamps.Keys <= Pages(row)
    else
      && row[i].vpn in stamps && row[i].mruTick == stamps[row[i].vpn] > 0
      && forall q :: q in stamps && stamps[q] > row[i].mruTick ==> q in Pages(row)
  }

  ghost predicate NoPageTwice(row: seq<Entry>) {
    forall i, j :: 0 <= i < j < |row| && !row[i].free && !row[j].free ==> row[i].vpn != row[j].vpn
  }

  ghost predicate RowOk(row: seq<Entry>, stamps: Stamps) {
    && NoPageTwice(row)
    && (forall i: nat :: i < |row| ==> EntryOk(row, stamps, i))
  }

  // ----- what the invariant means

  ghost function Newer(stamps: Stamps, p: nat): set<nat>
    requires p in stamps
  {
    set q | q in stamps && stamps[q] > stamps[p]
  }

  lemma {:induction false} PagesFit(row: seq<Entry>)
    ensures |Pages(row)| <= |row|
  {
    if row != [] {
      var s, e := row[..|row| - 1], row[|row| - 1];
      assert row == s + [e];
      PagesFit(s);
      assert Pages(row) == Pages(s) + if e.free then {} else {e.vpn};
    }
  }

  lemma {:induction false} FullRowHolds(row: seq<Entry>)
    requires NoPageTwice(row) && forall i :: 0 <= i < |row| ==> !row[i].free
    ensures |Pages(row)| == |row|
  {
    if row != [] {
      var s, e := row[..|row| - 1], row[|row| - 1];
      assert row == s + [e];
      FullRowHolds(s);
      assert Pages(row) == Pages(s) + {e.vpn};
      assert e.vpn !in Pages(s);
    }
  }

  ghost function NotOlder(stamps: Stamps, p: nat): set<nat>
    requires p in stamps
  {
    set q | q in stamps && q != p && stamps[q] >= stamps[p]
  }

  /** No other page was touched in the same tick. */
  ghost predicate Untied(stamps: Stamps, p: nat)
    requires p in stamps
  {
    forall q :: q in stamps && q != p ==> stamps[q] != stamps[p]
  }

  /** A resident page has fewer pages touched after it than the row has entries. */
  lemma ResidentIsRecent(row: seq<Entry>, stamps: Stamps, p: nat)
    requires RowOk(row, stamps) && p in stamps && p in Pages(row)
    ensures |Newer(stamps, p)| < |row|
  {
    var e :| e in row && !e.free && e.vpn == p;
    var i: nat :| i < |row| && row[i] == e;
    assert EntryOk(row, stamps, i);
    assert Newer(stamps, p) <= Pages(row) - {p};
    SubsetSize(Newer(stamps, p), Pages(row) - {p});
    PagesFit(row);
  }

  /** An evicted one has at least as many that were touched after it or in the same tick. */
  lemma EvictedIsOld(row: seq<Entry>, stamps: Stamps, p: nat)
    requires RowOk(row, stamps) && p in stamps && p !in Pages(row)
    ensures |NotOlder(stamps, p)| >= |row|
  {
    forall i: nat | i < |row| ensures !row[i].free { assert EntryOk(row, stamps, i); }
    forall r | r in Pages(row) ensures r in NotOlder(stamps, p) {
      var e :| e in row && !e.free && e.vpn == r;
      var i: nat :| i < |row| && row[i] == e;
      assert EntryOk(row, stamps, i);
    }
    SubsetSize(Pages(row), NotOlder(stamps, p));
    FullRowHolds(row);
  }

  /** So a page that was not touched in one tick with another is resident exactly when fewer other pages than
      the row has entries were touched after it: the row holds the most recent ones, as many as fit. */
  lemma ResidentIff(row: seq<Entry>, stamps: Stamps, p: nat)
    requires RowOk(row, stamps) && p in stamps && Untied(stamps, p)
    ensures p in Pages(row) <==> |Newer(stamps, p)| < |row|
  {
    assert NotOlder(stamps, p) == Newer(stamps, p);
    if p in Pages(row) { ResidentIsRecent(row, stamps, p); } else { EvictedIsOld(row, stamps, p); }
  }

  lemma ResidentStamped(row: seq<Entry>, stamps: Stamps, p: nat)
    requires RowOk(row, stamps) && p in Pages(row)
    ensures p in stamps
  {
    var e :| e in row && !e.free && e.vpn == p;
    var i: nat :| i < |row| && row[i] == e;
    assert EntryOk(row, stamps, i);
  }

  // ----- touching and filling

  /** A hit moves the page's tick to now. */
  lemma TouchKeeps(row: seq<Entry>, stamps: Stamps, i: nat, tick: nat)
    requires RowOk(row, stamps) && i < |row| && !row[i].free && Fresh(stamps, tick)
    ensures RowOk(row[i := row[i].(mruTick := tick)], stamps[row[i].vpn := tick])
    ensures Pages(row[i := row[i].(mruTick := tick)]) == Pages(row)
  {
    var p := row[i].vpn;
    var after, later := row[i := row[i].(mruTick := tick)], stamps[p := tick];
    SamePages(row, after);
    assert EntryOk(row, stamps, i);
    forall j: nat | j < |after| ensures EntryOk(after, later, j) { assert EntryOk(row, stamps, j); }
  }

  lemma SamePages(row: seq<Entry>, after: seq<Entry>)
    requires |row| == |after|
    requires forall i :: 0 <= i < |row| ==> row[i].free == after[i].free && row[i].vpn == after[i].vpn
    ensures Pages(after) == Pages(row)
  {
    forall p | p in Pages(row) ensures p in Pages(after) {
      var e :| e in row && !e.free && e.vpn == p;
      var i :| 0 <= i < |row| && row[i] == e;
      assert after[i] in after;
    }
    forall p | p in Pages(after) ensures p in Pages(row) {
      var e :| e in after && !e.free && e.vpn == p;
      var i :| 0 <= i < |after| && after[i] == e;
      assert row[i] in row;
    }
  }

  /** The entry to fill: the first free one, or else, of those with the least tick, the last one. */
  ghost predicate Victim(row: seq<Entry>, v: nat) {
    && v < |row|
    && if row[v].free then forall i :: 0 <= i < v ==> !row[i].free
       else forall i :: 0 <= i < |row| ==>
              && !row[i].free && row[v].mruTick <= row[i].mruTick
              && (i > v ==> row[v].mruTick < row[i].mruTick)
  }

  lemma FilledPages(row: seq<Entry>, v: nat, e: Entry)
    requires v < |row| && NoPageTwice(row) && !e.free && e.vpn !in Pages(row)
    ensures NoPageTwice(row[v := e])
    ensures Pages(row[v := e]) == (if row[v].free then Pages(row) else Pages(row) - {row[v].vpn}) + {e.vpn}
  {
    var after := row[v := e];
    assert forall i :: 0 <= i < |row| && !row[i].free ==> row[i] in row && row[i].vpn in Pages(row);
    forall p | p in Pages(row) && (row[v].free || p != row[v].vpn) ensures p in Pages(after) {
      var x :| x in row && !x.free && x.vpn == p;
      var i :| 0 <= i < |row| && row[i] == x;
      assert after[i] in after;
    }
    assert after[v] in after;
    forall p | p in Pages(after) ensures p == e.vpn || (p in Pages(row) && (row[v].free || p != row[v].vpn)) {
      var x :| x in after && !x.free && x.vpn == p;
      var i :| 0 <= i < |after| && after[i] == x;
      if i != v { assert row[i] in row; }
    }
  }

  /** A miss fills the victim; what it held is gone, everything else stays. */
  lemma FillKeeps(row: seq<Entry>, stamps: Stamps, v: nat, vpn: nat, ppn: nat, tick: nat)
    requires RowOk(row, stamps) && Victim(row, v) && vpn !in Pages(row) && tick > 0 && Fresh(stamps, tick)
    ensures RowOk(row[v := Entry(vpn, ppn, false, tick)], stamps[vpn := tick])
    ensures Pages(row[v := Entry(vpn, ppn, false, tick)]) ==
      (if row[v].free then Pages(row) else Pages(row) - {row[v].vpn}) + {vpn}
  {
    var e := Entry(vpn, ppn, false, tick);
    var after, later := row[v := e], stamps[vpn := tick];
    FilledPages(row, v, e);
    assert EntryOk(row, stamps, v);
    forall j: nat | j < |after| ensures EntryOk(after, later, j) {
      assert EntryOk(row, stamps, j);
      if j != v && !row[j].free {
        assert row[j] in row && row[j].vpn in Pages(row);
        if !row[v].free { assert row[v].vpn != row[j].vpn; }
      }
    }
  }

  // ----- whole runs of one row

  datatype Touch = Touch(vpn: nat, tick: nat)

  ghost predicate Hits(row: seq<Entry>, after: seq<Entry>, t: Touch, i: nat)
    requires i < |row|
  {
    !row[i].free && row[i].vpn == t.vpn && after == row[i := row[i].(mruTick := t.tick)]
  }

  ghost predicate Fills(row: seq<Entry>, after: seq<Entry>, t: Touch, v: nat, ppn: nat) {
    Victim(row, v) && after == row[v := Entry(t.vpn, ppn, false, t.tick)]
  }

  /** A touch is a hit on a resident page or the filling of a victim. */
  ghost predicate Touches(row: seq<Entry>, after: seq<Entry>, t: Touch) {
    || (exists i: nat :: i < |row| && Hits(row, after, t, i))
    || (t.vpn !in Pages(row) && exists v: nat, ppn: nat :: Fills(row, after, t, v, ppn))
  }

  ghost function LastTouches(h: seq<Touch>): Stamps {
    if h == [] then map[] else LastTouches(h[..|h| - 1])[h[|h| - 1].vpn := h[|h| - 1].tick]
  }

  ghost predicate TicksNeverGoBack(h: seq<Touch>) {
    forall i: nat :: i < |h| ==> NotBefore(h, i)
  }

  ghost predicate NotBefore(h: seq<Touch>, i: nat)
    requires i < |h|
  {
    h[i].tick >= if i == 0 then 1 else h[i - 1].tick
  }

  ghost predicate RowRun(rows: seq<seq<Entry>>, h: seq<Touch>) {
    && |rows| == |h| + 1 && TicksNeverGoBack(h)
    && (forall i :: 0 <= i < |rows[0]| ==> rows[0][i].free)
    && (forall i :: 0 <= i < |h| ==> Touches(rows[i], rows[i + 1], h[i]))
  }

  lemma {:induction false} RunOk(rows: seq<seq<Entry>>, h: seq<Touch>)
    requires RowRun(rows, h)
    ensures RowOk(rows[|h|], LastTouches(h)) && |rows[|h|]| == |rows[0]|
    ensures h != [] ==> h[|h| - 1].tick > 0
    ensures forall p :: p in LastTouches(h) ==> h != [] && LastTouches(h)[p] <= h[|h| - 1].tick
    decreases |h|
  {
    if h != [] {
      var n := |h| - 1;
      var g, t := h[..n], h[n];
      var before := rows[..n + 1];
      assert RowRun(before, g) by {
        forall i | 0 <= i < |g| ensures Touches(before[i], before[i + 1], g[i]) {
          assert Touches(rows[i], rows[i + 1], h[i]);
        }
        forall i: nat | i < |g| ensures NotBefore(g, i) { assert NotBefore(h, i); }
      }
      assert NotBefore(h, n);
      RunOk(before, g);
      var row, after := rows[n], rows[n + 1];
      assert Touches(row, after, t);
      if i: nat :| i < |row| && Hits(row, after, t, i) {
        TouchKeeps(row, LastTouches(g), i, t.tick);
      } else {
        var v: nat, ppn: nat :| Fills(row, after, t, v, ppn);
        FillKeeps(row, LastTouches(g), v, t.vpn, ppn, t.tick);
      }
    }
  }

  /** After any run the row holds no page twice. What it holds was touched recently, what it does not hold was
      not; and unless pages were touched in one tick, it holds exactly the most recent ones, up to its size. */
  lemma RowHoldsMostRecent(rows: seq<seq<Entry>>, h: seq<Touch>, p: nat)
    requires RowRun(rows, h)
    ensures NoPageTwice(rows[|h|])
    ensures p in Pages(rows[|h|]) ==> p in LastTouches(h) && |Newer(LastTouches(h), p)| < |rows[0]|
    ensures p in LastTouches(h) && |NotOlder(LastTouches(h), p)| < |rows[0]| ==> p in Pages(rows[|h|])
    ensures p in LastTouches(h) && Untied(LastTouches(h), p) ==>
      (p in Pages(rows[|h|]) <==> |Newer(LastTouches(h), p)| < |rows[0]|)
  {
    RunOk(rows, h);
    var row, stamps := rows[|h|], LastTouches(h);
    if p in Pages(row) {
      ResidentStamped(row, stamps, p);
      ResidentIsRecent(row, stamps, p);
    } else if p in stamps {
      EvictedIsOld(row, stamps, p);
    }
    if p in stamps && Untied(stamps, p) { ResidentIff(row, stamps, p); }
  }
}
