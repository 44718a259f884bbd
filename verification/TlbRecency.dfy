/** Recency by order of touches, not by tick: a row whose victim is chosen by tick evicts the page touched
    longest ago exactly if no entry with the victim's tick was touched before it. */
module TlbRecency {
  import opened Collections
  import opened TlbRow

  /** The position, in a run, of each page's last touch. */
  type Order = map<nat, nat>

  ghost function Positions(h: seq<Touch>): Order {
    if h == [] then map[] else Positions(h[..|h| - 1])[h[|h| - 1].vpn := |h| - 1]
  }

  /** Positions are below `n`, and no two pages share one. */
  ghost predicate IsOrder(order: Order, n: nat) {
    && (forall p :: p in order ==> order[p] < n)
    && (forall p, q :: p in order && q in order && p != q ==> order[p] != order[q])
  }

  lemma {:induction false} PositionsAreOrder(h: seq<Touch>)
    ensures IsOrder(Positions(h), |h|)
  {
    if h != [] { PositionsAreOrder(h[..|h| - 1]); }
  }

  /** Entry `i` was touched before entry `j`. */
  ghost predicate TouchedBefore(row: seq<Entry>, order: Order, i: nat, j: nat) {
    && i < |row| && j < |row| && !row[i].free && !row[j].free
    && row[i].vpn in order && row[j].vpn in order && order[row[i].vpn] < order[row[j].vpn]
  }

  /** Every resident page was touched, and later touches have no earlier ticks. */
  ghost predicate Dated(row: seq<Entry>, order: Order) {
    && NoPageTwice(row)
    && (forall i :: 0 <= i < |row| && !row[i].free ==> row[i].vpn in order)
    && (forall i: nat, j: nat :: TouchedBefore(row, order, i, j) ==> row[i].mruTick <= row[j].mruTick)
  }

  lemma {:induction false} RunDated(rows: seq<seq<Entry>>, h: seq<Touch>)
    requires RowRun(rows, h)
    ensures Dated(rows[|h|], Positions(h)) && |rows[|h|]| == |rows[0]|
    ensures forall i :: 0 <= i < |rows[|h|]| && !rows[|h|][i].free ==>
      h != [] && rows[|h|][i].mruTick <= h[|h| - 1].tick
    decreases |h|
  {
    if h != [] {
      var n := |h| - 1;
      RunPrefix(rows, h);
      RunDated(rows[..n + 1], h[..n]);
      PositionsAreOrder(h[..n]);
      assert NotBefore(h, n);
      assert Touches(rows[n], rows[n + 1], h[n]);
      TouchDated(rows[n], rows[n + 1], Positions(h[..n]), h[n], n);
    }
  }

  lemma RunPrefix(rows: seq<seq<Entry>>, h: seq<Touch>)
    requires RowRun(rows, h) && h != []
    ensures RowRun(rows[..|h|], h[..|h| - 1])
  {
    var n := |h| - 1;
    var before, g := rows[..n + 1], h[..n];
    forall i | 0 <= i < |g| ensures Touches(before[i], before[i + 1], g[i]) {
      assert Touches(rows[i], rows[i + 1], h[i]);
    }
    forall i: nat | i < |g| ensures NotBefore(g, i) { assert NotBefore(h, i); }
  }

  lemma TouchDated(row: seq<Entry>, after: seq<Entry>, order: Order, t: Touch, n: nat)
    requires Dated(row, order) && Touches(row, after, t) && IsOrder(order, n)
    requires forall i :: 0 <= i < |row| && !row[i].free ==> row[i].mruTick <= t.tick
    ensures |after| == |row| && Dated(after, order[t.vpn := n])
    ensures forall i :: 0 <= i < |after| && !after[i].free ==> after[i].mruTick <= t.tick
  {
    forall i: nat | i < |row| && !row[i].free ensures row[i].vpn in Pages(row) { assert row[i] in row; }
    var later := order[t.vpn := n];
    forall i: nat, j: nat | TouchedBefore(after, later, i, j) ensures after[i].mruTick <= after[j].mruTick {
      if after[j].vpn != t.vpn { assert TouchedBefore(row, order, i, j); }
    }
  }

  // ----- holding the most recent pages

  /** With any page, the row holds every page touched after it; while an entry is free, it holds all. */
  ghost predicate HoldsSuffix(row: seq<Entry>, order: Order) {
    && (forall p, q :: p in Pages(row) && p in order && q in order && order[q] > order[p] ==> q in Pages(row))
    && ((exists i :: 0 <= i < |row| && row[i].free) ==> order.Keys <= Pages(row))
  }

  ghost function After(order: Order, p: nat): set<nat>
    requires p in order
  {
    set q | q in order && order[q] > order[p]
  }

  /** Then it holds the most recently touched pages, as many as fit. */
  lemma SuffixIsMostRecent(row: seq<Entry>, order: Order, n: nat, p: nat)
    requires Dated(row, order) && IsOrder(order, n) && HoldsSuffix(row, order) && p in order
    ensures p in Pages(row) <==> |After(order, p)| < |row|
  {
    if p in Pages(row) {
      SubsetSize(After(order, p), Pages(row) - {p});
      PagesFit(row);
    } else {
      forall r | r in Pages(row) ensures r in After(order, p) { PageIsDated(row, order, r); }
      SubsetSize(Pages(row), After(order, p));
      FullRowHolds(row);
    }
  }

  lemma PageIsDated(row: seq<Entry>, order: Order, p: nat)
    requires Dated(row, order) && p in Pages(row)
    ensures p in order
  {
    var e :| e in row && !e.free && e.vpn == p;
    var i: nat :| i < |row| && row[i] == e;
  }

  // ----- what a fill evicts

  /** Of the pages in a full row, the one in entry `v` was touched longest ago. */
  ghost predicate LeastRecent(row: seq<Entry>, order: Order, v: nat) {
    forall i: nat :: i < |row| && i != v ==> TouchedBefore(row, order, v, i)
  }

  /** No other entry with the tick of entry `v` was touched before it. */
  ghost predicate NoneTiedBefore(row: seq<Entry>, order: Order, v: nat)
    requires v < |row|
  {
    forall i: nat :: TouchedBefore(row, order, i, v) ==> row[i].mruTick != row[v].mruTick
  }

  lemma OneBeforeTheOther(row: seq<Entry>, order: Order, n: nat, i: nat, j: nat)
    requires Dated(row, order) && IsOrder(order, n) && i < |row| && j < |row| && i != j && !row[i].free && !row[j].free
    ensures TouchedBefore(row, order, i, j) <==> !TouchedBefore(row, order, j, i)
  {
    assert row[i].vpn != row[j].vpn;
  }

  /** The victim of a full row is the page touched longest ago if and only if no entry of its tick was touched
      before it. */
  lemma EvictsLeastRecentIff(row: seq<Entry>, order: Order, n: nat, v: nat)
    requires Dated(row, order) && IsOrder(order, n) && Victim(row, v) && !row[v].free
    ensures LeastRecent(row, order, v) <==> NoneTiedBefore(row, order, v)
  {
    forall i: nat | i < |row| && i != v
      ensures TouchedBefore(row, order, v, i) <==> !TouchedBefore(row, order, i, v)
      ensures TouchedBefore(row, order, i, v) ==> row[i].mruTick == row[v].mruTick
    {
      OneBeforeTheOther(row, order, n, v, i);
    }
  }

  /** So always where no other entry has the victim's tick, and in a row of one entry. */
  lemma UnsharedTickIsFair(row: seq<Entry>, order: Order, v: nat)
    requires v < |row| && forall i :: 0 <= i < |row| && i != v ==> row[i].mruTick != row[v].mruTick
    ensures NoneTiedBefore(row, order, v)
  {
  }

  /** The touch hits, finds a free entry, or evicts a victim with no entry of its tick touched before it. */
  ghost predicate Fair(row: seq<Entry>, order: Order, t: Touch) {
    t.vpn in Pages(row) || forall v: nat :: Victim(row, v) && !row[v].free ==> NoneTiedBefore(row, order, v)
  }

  lemma HitKeepsSuffix(row: seq<Entry>, order: Order, i: nat, t: Touch, n: nat)
    requires HoldsSuffix(row, order) && i < |row| && !row[i].free && row[i].vpn == t.vpn && IsOrder(order, n)
    ensures HoldsSuffix(row[i := row[i].(mruTick := t.tick)], order[t.vpn := n])
    ensures t.vpn in Pages(row)
  {
    var after := row[i := row[i].(mruTick := t.tick)];
    SamePages(row, after);
    assert row[i] in row;
    if k :| 0 <= k < |after| && after[k].free { assert row[k].free; }
  }

  lemma FillFreeKeepsSuffix(row: seq<Entry>, order: Order, v: nat, e: Entry, n: nat)
    requires HoldsSuffix(row, order) && IsOrder(order, n) && NoPageTwice(row)
    requires v < |row| && row[v].free && !e.free && e.vpn !in Pages(row)
    ensures HoldsSuffix(row[v := e], order[e.vpn := n])
  {
    FilledPages(row, v, e);
  }

  lemma FillFullKeepsSuffixIff(row: seq<Entry>, order: Order, v: nat, e: Entry, n: nat)
    requires Dated(row, order) && IsOrder(order, n) && HoldsSuffix(row, order) && Victim(row, v) && !row[v].free
    requires !e.free && e.vpn !in Pages(row)
    ensures HoldsSuffix(row[v := e], order[e.vpn := n]) <==> LeastRecent(row, order, v)
  {
    FilledPages(row, v, e);
    assert row[v] in row;
    if LeastRecent(row, order, v) {
      LeastRecentGone(row, order, v, e, n);
    } else {
      var i: nat :| i < |row| && i != v && !TouchedBefore(row, order, v, i);
      assert row[i] in row && row[i].vpn != row[v].vpn;
      var later := order[e.vpn := n];
      assert later[row[v].vpn] > later[row[i].vpn] && row[v].vpn !in Pages(row[v := e]);
    }
  }

  lemma LeastRecentGone(row: seq<Entry>, order: Order, v: nat, e: Entry, n: nat)
    requires Dated(row, order) && IsOrder(order, n) && HoldsSuffix(row, order) && Victim(row, v) && !row[v].free
    requires !e.free && e.vpn !in Pages(row) && LeastRecent(row, order, v)
    ensures HoldsSuffix(row[v := e], order[e.vpn := n])
  {
    var after, later := row[v := e], order[e.vpn := n];
    FilledPages(row, v, e);
    forall p, q | p in Pages(after) && p in later && q in later && later[q] > later[p] ensures q in Pages(after) {
      if p != e.vpn && q != e.vpn {
        var y :| y in row && !y.free && y.vpn == p;
        var i: nat :| i < |row| && row[i] == y;
        assert i != v && TouchedBefore(row, order, v, i);
      }
    }
  }

  /** A row that holds the most recent pages goes on doing so if and only if the touch is fair. */
  lemma TouchKeepsSuffixIff(row: seq<Entry>, after: seq<Entry>, order: Order, t: Touch, n: nat)
    requires Dated(row, order) && IsOrder(order, n) && HoldsSuffix(row, order) && Touches(row, after, t)
    ensures HoldsSuffix(after, order[t.vpn := n]) <==> Fair(row, order, t)
  {
    if i: nat :| i < |row| && Hits(row, after, t, i) {
      HitKeepsSuffix(row, order, i, t, n);
    } else {
      var v: nat, ppn: nat :| Fills(row, after, t, v, ppn);
      var e := Entry(t.vpn, ppn, false, t.tick);
      forall w: nat | Victim(row, w) ensures w == v { VictimUnique(row, v, w); }
      if row[v].free {
        FillFreeKeepsSuffix(row, order, v, e, n);
      } else {
        FillFullKeepsSuffixIff(row, order, v, e, n);
        EvictsLeastRecentIff(row, order, n, v);
      }
    }
  }

  lemma VictimUnique(row: seq<Entry>, v: nat, w: nat)
    requires Victim(row, v) && Victim(row, w)
    ensures v == w
  {
  }

  // ----- whole runs

  ghost predicate SuffixAt(rows: seq<seq<Entry>>, h: seq<Touch>, k: nat)
    requires |rows| == |h| + 1 && k <= |h|
  {
    HoldsSuffix(rows[k], Positions(h[..k]))
  }

  ghost predicate FairAt(rows: seq<seq<Entry>>, h: seq<Touch>, k: nat)
    requires |rows| == |h| + 1 && k < |h|
  {
    Fair(rows[k], Positions(h[..k]), h[k])
  }

  lemma {:induction false} RunUpTo(rows: seq<seq<Entry>>, h: seq<Touch>, k: nat)
    requires RowRun(rows, h) && k <= |h|
    ensures RowRun(rows[..k + 1], h[..k])
    decreases |h| - k
  {
    if k == |h| {
      assert rows[..k + 1] == rows && h[..k] == h;
    } else {
      RunUpTo(rows, h, k + 1);
      RunPrefix(rows[..k + 2], h[..k + 1]);
      assert rows[..k + 2][..k + 1] == rows[..k + 1] && h[..k + 1][..k] == h[..k];
    }
  }

  lemma RowDated(rows: seq<seq<Entry>>, h: seq<Touch>, k: nat)
    requires RowRun(rows, h) && k <= |h|
    ensures Dated(rows[k], Positions(h[..k])) && IsOrder(Positions(h[..k]), k) && |rows[k]| == |rows[0]|
  {
    RunUpTo(rows, h, k);
    RunDated(rows[..k + 1], h[..k]);
    PositionsAreOrder(h[..k]);
  }

  lemma PositionsNext(h: seq<Touch>, k: nat)
    requires k < |h|
    ensures Positions(h[..k + 1]) == Positions(h[..k])[h[k].vpn := k]
  {
    assert h[..k + 1][..k] == h[..k];
  }

  /** One touch of a run. */
  lemma StepIff(rows: seq<seq<Entry>>, h: seq<Touch>, k: nat)
    requires RowRun(rows, h) && k < |h| && SuffixAt(rows, h, k)
    ensures SuffixAt(rows, h, k + 1) <==> FairAt(rows, h, k)
  {
    RowDated(rows, h, k);
    PositionsNext(h, k);
    assert Touches(rows[k], rows[k + 1], h[k]);
    TouchKeepsSuffixIff(rows[k], rows[k + 1], Positions(h[..k]), h[k], k);
  }

  lemma {:induction false} FairSoFar(rows: seq<seq<Entry>>, h: seq<Touch>, k: nat)
    requires RowRun(rows, h) && k <= |h| && forall j: nat :: j < k ==> FairAt(rows, h, j)
    ensures SuffixAt(rows, h, k)
    decreases k
  {
    if k > 0 {
      FairSoFar(rows, h, k - 1);
      StepIff(rows, h, k - 1);
    }
  }

  /** A row holds, throughout a run, the pages touched most recently if and only if every touch is fair. */
  lemma RunIsLruIff(rows: seq<seq<Entry>>, h: seq<Touch>)
    requires RowRun(rows, h)
    ensures (forall k: nat :: k <= |h| ==> SuffixAt(rows, h, k)) <==> (forall k: nat :: k < |h| ==> FairAt(rows, h, k))
  {
    if forall k: nat :: k < |h| ==> FairAt(rows, h, k) {
      forall k: nat | k <= |h| ensures SuffixAt(rows, h, k) { FairSoFar(rows, h, k); }
    }
    if forall k: nat :: k <= |h| ==> SuffixAt(rows, h, k) {
      forall k: nat | k < |h| ensures FairAt(rows, h, k) {
        assert SuffixAt(rows, h, k + 1);
        StepIff(rows, h, k);
      }
    }
  }

  /** Then a page is resident exactly when fewer pages than fit were touched after its last touch. */
  lemma FairRunHoldsMostRecent(rows: seq<seq<Entry>>, h: seq<Touch>, p: nat)
    requires RowRun(rows, h) && forall k: nat :: k < |h| ==> FairAt(rows, h, k)
    ensures p in Pages(rows[|h|]) <==> p in Positions(h) && |After(Positions(h), p)| < |rows[0]|
  {
    FairSoFar(rows, h, |h|);
    assert h[..|h|] == h;
    RunDated(rows, h);
    PositionsAreOrder(h);
    if p in Pages(rows[|h|]) { PageIsDated(rows[|h|], Positions(h), p); }
    if p in Positions(h) { SuffixIsMostRecent(rows[|h|], Positions(h), |h|, p); }
  }

  /** A row of one entry is never unfair. */
  lemma OneEntryIsFair(rows: seq<seq<Entry>>, h: seq<Touch>, k: nat)
    requires RowRun(rows, h) && |rows[0]| == 1 && k < |h|
    ensures FairAt(rows, h, k)
  {
    RowDated(rows, h, k);
  }

  /** Nor is a run in which no two touches share a tick. */
  lemma IncreasingTicksAreFair(rows: seq<seq<Entry>>, h: seq<Touch>, k: nat)
    requires RowRun(rows, h) && k < |h| && forall i, j :: 0 <= i < j < |h| ==> h[i].tick != h[j].tick
    ensures FairAt(rows, h, k)
  {
    RunUpTo(rows, h, k);
    TicksOfTouches(rows[..k + 1], h[..k]);
    PositionsAreOrder(h[..k]);
    var row, order := rows[k], Positions(h[..k]);
    forall v: nat | Victim(row, v) && !row[v].free ensures NoneTiedBefore(row, order, v) {
      forall i: nat | TouchedBefore(row, order, i, v) ensures row[i].mruTick != row[v].mruTick {
        assert h[order[row[i].vpn]].tick != h[order[row[v].vpn]].tick;
      }
    }
  }

  /** An entry's tick is that of its page's last touch. */
  lemma {:induction false} TicksOfTouches(rows: seq<seq<Entry>>, h: seq<Touch>)
    requires RowRun(rows, h)
    ensures IsOrder(Positions(h), |h|)
    ensures forall i :: 0 <= i < |rows[|h|]| && !rows[|h|][i].free && rows[|h|][i].vpn in Positions(h) ==>
      rows[|h|][i].mruTick == h[Positions(h)[rows[|h|][i].vpn]].tick
    decreases |h|
  {
    PositionsAreOrder(h);
    if h != [] {
      var n := |h| - 1;
      RunPrefix(rows, h);
      TicksOfTouches(rows[..n + 1], h[..n]);
      RunDated(rows[..n + 1], h[..n]);
      assert Touches(rows[n], rows[n + 1], h[n]);
      var row, after, t := rows[n], rows[n + 1], h[n];
      forall i | 0 <= i < |after| && !after[i].free && after[i].vpn in Positions(h)
        ensures after[i].mruTick == h[Positions(h)[after[i].vpn]].tick
      {
        if i < |row| && after[i] == row[i] && !row[i].free { assert row[i] in row; }
      }
    }
  }

  /** The failing case: of two pages touched in one tick the more recent goes. */
  lemma MoreRecentEvicted()
    ensures var h := [Touch(1, 5), Touch(2, 5), Touch(3, 6)];
      var none, one, two := Entry(0, 0, true, 0), Entry(1, 0, false, 5), Entry(2, 0, false, 5);
      var rows := [[none, none], [one, none], [one, two], [one, Entry(3, 0, false, 6)]];
      RowRun(rows, h) && !FairAt(rows, h, 2) && Pages(rows[3]) == {1, 3}
  {
    var h := [Touch(1, 5), Touch(2, 5), Touch(3, 6)];
    var none, one, two, three := Entry(0, 0, true, 0), Entry(1, 0, false, 5), Entry(2, 0, false, 5),
      Entry(3, 0, false, 6);
    var rows := [[none, none], [one, none], [one, two], [one, three]];
    assert Fills(rows[0], rows[1], h[0], 0, 0);
    assert Fills(rows[1], rows[2], h[1], 1, 0);
    assert Fills(rows[2], rows[3], h[2], 1, 0);
    assert h[..2] == [Touch(1, 5), Touch(2, 5)] && h[..2][..1] == [Touch(1, 5)] && h[..2][..1][..0] == [];
    assert Positions(h[..2][..1]) == map[1 := 0];
    assert Positions(h[..2]) == map[1 := 0, 2 := 1];
    assert TouchedBefore(rows[2], Positions(h[..2]), 0, 1);
    assert Pages(rows[3]) == {1, 3} by { assert rows[3][0] in rows[3] && rows[3][1] in rows[3]; }
  }
}
