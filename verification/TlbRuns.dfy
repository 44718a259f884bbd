/** The whole TLB over any run of touches: the pages that share a row compete with each other, and with no
    other page. */
module TlbRuns {
  import opened Collections
  import opened TlbRow
  import opened TlbMemories

  /** The configuration: so many rows, and pages of so many bytes. */
  datatype Shape = Shape(ways: nat, pageBytes: nat)

  ghost predicate Proper(c: Shape) {
    c.ways > 0 && c.pageBytes > 0
  }

  ghost function RowOf(c: Shape, vpn: nat): nat
    requires Proper(c)
  {
    (vpn / c.pageBytes) % c.ways
  }

  type Rows = seq<seq<Entry>>

  /** Every touch goes to the row of its page; at the start all entries are free. */
  ghost predicate MemoryRun(c: Shape, mems: seq<Rows>, h: seq<Touch>) {
    && Proper(c) && |mems| == |h| + 1 && TicksNeverGoBack(h) && |mems[0]| == c.ways
    && (forall w: nat, i: nat :: w < c.ways && i < |mems[0][w]| ==> mems[0][w][i].free)
    && (forall i :: 0 <= i < |h| ==> Touched(mems[i], mems[i + 1], (h[i].vpn / c.pageBytes) % c.ways, h[i]))
  }

  /** When the pages of one row were touched last. */
  ghost function OfRow(c: Shape, stamps: Stamps, w: nat): Stamps
    requires Proper(c)
  {
    map p | p in stamps && RowOf(c, p) == w :: stamps[p]
  }

  ghost predicate RowsOk(c: Shape, rows: Rows, stamps: Stamps, sizes: Rows)
    requires Proper(c)
  {
    && |rows| == |sizes| == c.ways
    && forall w: nat :: w < c.ways ==> |rows[w]| == |sizes[w]| && RowOk(rows[w], OfRow(c, stamps, w))
  }

  lemma TouchRowKeeps(row: seq<Entry>, after: seq<Entry>, stamps: Stamps, t: Touch)
    requires RowOk(row, stamps) && Touches(row, after, t) && t.tick > 0 && Fresh(stamps, t.tick)
    ensures RowOk(after, stamps[t.vpn := t.tick]) && |after| == |row|
  {
    if i: nat :| i < |row| && Hits(row, after, t, i) {
      TouchKeeps(row, stamps, i, t.tick);
    } else {
      var v: nat, ppn: nat :| Fills(row, after, t, v, ppn);
      FillKeeps(row, stamps, v, t.vpn, ppn, t.tick);
    }
  }

  lemma StampedRow(c: Shape, stamps: Stamps, t: Touch, w: nat)
    requires Proper(c)
    ensures OfRow(c, stamps[t.vpn := t.tick], w) ==
      if w == RowOf(c, t.vpn) then OfRow(c, stamps, w)[t.vpn := t.tick] else OfRow(c, stamps, w)
  {
  }

  lemma TouchKeepsRows(c: Shape, rows: Rows, after: Rows, stamps: Stamps, sizes: Rows, t: Touch)
    requires Proper(c) && RowsOk(c, rows, stamps, sizes) && t.tick > 0 && Fresh(stamps, t.tick)
    requires Touched(rows, after, RowOf(c, t.vpn), t)
    ensures RowsOk(c, after, stamps[t.vpn := t.tick], sizes)
  {
    forall w: nat | w < c.ways
      ensures |after[w]| == |sizes[w]| && RowOk(after[w], OfRow(c, stamps[t.vpn := t.tick], w))
    {
      StampedRow(c, stamps, t, w);
      if w == RowOf(c, t.vpn) { TouchRowKeeps(rows[w], after[w], OfRow(c, stamps, w), t); }
    }
  }

  lemma PrefixRun(c: Shape, mems: seq<Rows>, h: seq<Touch>)
    requires MemoryRun(c, mems, h) && h != []
    ensures MemoryRun(c, mems[..|h|], h[..|h| - 1])
  {
    var g, before := h[..|h| - 1], mems[..|h|];
    forall i | 0 <= i < |g|
      ensures Touched(before[i], before[i + 1], (g[i].vpn / c.pageBytes) % c.ways, g[i])
    {
      assert Touched(mems[i], mems[i + 1], (h[i].vpn / c.pageBytes) % c.ways, h[i]);
    }
    forall i: nat | i < |g| ensures NotBefore(g, i) { assert NotBefore(h, i); }
  }

  ghost predicate Latest(h: seq<Touch>) {
    && (h != [] ==> h[|h| - 1].tick > 0)
    && forall p :: p in LastTouches(h) ==> h != [] && LastTouches(h)[p] <= h[|h| - 1].tick
  }

  lemma {:induction false} RowsStayOk(c: Shape, mems: seq<Rows>, h: seq<Touch>)
    requires MemoryRun(c, mems, h)
    ensures RowsOk(c, mems[|h|], LastTouches(h), mems[0]) && Latest(h)
    decreases |h|
  {
    if h != [] {
      var n := |h| - 1;
      PrefixRun(c, mems, h);
      RowsStayOk(c, mems[..n + 1], h[..n]);
      assert NotBefore(h, n);
      assert Touched(mems[n], mems[n + 1], (h[n].vpn / c.pageBytes) % c.ways, h[n]);
      TouchKeepsRows(c, mems[n], mems[n + 1], LastTouches(h[..n]), mems[0], h[n]);
    }
  }

  // ----- the theorem, with the row of a page written out

  /** The pages of the row of `v` that were touched after it. */
  ghost function Rivals(c: Shape, stamps: Stamps, v: nat): set<nat>
    requires Proper(c) && v in stamps
  {
    set q | q in stamps && (q / c.pageBytes) % c.ways == (v / c.pageBytes) % c.ways && stamps[q] > stamps[v]
  }

  /** Those that were touched after it or in the same tick. */
  ghost function RivalsOrTied(c: Shape, stamps: Stamps, v: nat): set<nat>
    requires Proper(c) && v in stamps
  {
    set q | q in stamps && q != v && (q / c.pageBytes) % c.ways == (v / c.pageBytes) % c.ways && stamps[q] >= stamps[v]
  }

  /** A page stands in the row of its number and in no other, and whether it does depends on the touches of
      the pages of that row alone: it is there while fewer of them than the row has entries were touched
      later. Ties leave the gap between the two counts open. */
  lemma MemoryHoldsMostRecent(c: Shape, mems: seq<Rows>, h: seq<Touch>, v: nat, w: nat)
    requires MemoryRun(c, mems, h) && w < c.ways
    ensures |mems[|h|]| == c.ways
    ensures v in Pages(mems[|h|][w]) ==>
      && w == (v / c.pageBytes) % c.ways && v in LastTouches(h)
      && |Rivals(c, LastTouches(h), v)| < |mems[0][w]|
    ensures v in LastTouches(h) && w == (v / c.pageBytes) % c.ways ==>
      && (|RivalsOrTied(c, LastTouches(h), v)| < |mems[0][w]| ==> v in Pages(mems[|h|][w]))
      && (Rivals(c, LastTouches(h), v) == RivalsOrTied(c, LastTouches(h), v) ==>
            (v in Pages(mems[|h|][w]) <==> |Rivals(c, LastTouches(h), v)| < |mems[0][w]|))
  {
    RowsStayOk(c, mems, h);
    var row, all := mems[|h|][w], LastTouches(h);
    var stamps := OfRow(c, all, w);
    if v in Pages(row) {
      ResidentStamped(row, stamps, v);
      ResidentIsRecent(row, stamps, v);
      assert Rivals(c, all, v) == Newer(stamps, v);
    } else if v in stamps {
      EvictedIsOld(row, stamps, v);
      assert RivalsOrTied(c, all, v) == NotOlder(stamps, v);
    }
  }
}
