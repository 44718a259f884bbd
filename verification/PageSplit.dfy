/** Splitting a DMA request at page boundaries, and counting its pieces back in. */
module PageSplit {
  import opened Arithmetic

  // ----- the page mask

  /** `a & b`, bit by bit. */
  function BitAnd(a: nat, b: nat): nat {
    if a == 0 || b == 0 then 0 else 2 * BitAnd(a / 2, b / 2) + (a % 2) * (b % 2)
  }

  /** `a & ~b`, bit by bit. */
  function BitAndNot(a: nat, b: nat): nat {
    if a == 0 then 0 else 2 * BitAndNot(a / 2, b / 2) + if a % 2 == 1 && b % 2 == 0 then 1 else 0
  }

  lemma {:induction false} MaskParts(a: nat, b: nat)
    ensures BitAnd(a, b) + BitAndNot(a, b) == a
    decreases a
  {
    if a > 0 {
      MaskParts(a / 2, b / 2);
      if b == 0 { NothingMasked(a); }
    }
  }

  lemma {:induction false} NothingMasked(a: nat)
    ensures BitAndNot(a, 0) == a
  {
    if a > 0 { NothingMasked(a / 2); }
  }

  /** Masking with a power of two less one is taking the remainder. */
  lemma {:induction false} MaskIsRemainder(a: nat, k: nat)
    ensures BitAnd(a, Pow2(k) - 1) == a % Pow2(k)
    decreases k
  {
    if k > 0 {
      MaskIsRemainder(a / 2, k - 1);
      MaskUnfolds(a, Pow2(k - 1), Pow2(k));
      HalfRemainder(a, Pow2(k - 1), Pow2(k));
    }
  }

  lemma MaskUnfolds(a: nat, p: nat, m: nat)
    requires p > 0 && m == 2 * p
    ensures BitAnd(a, m - 1) == 2 * BitAnd(a / 2, p - 1) + a % 2
  {
    assert (m - 1) / 2 == p - 1 && (m - 1) % 2 == 1;
  }

  lemma HalfRemainder(a: nat, p: nat, m: nat)
    requires p > 0 && m == 2 * p
    ensures 2 * (a / 2 % p) + a % 2 == a % m
  {
    var h := a / 2;
    QuotDivides(h, p);
    QuotRem(h, p);
    var q, r := Quot(h, p), Rem(h, p);
    StepsMultiply(p, q);
    assert q * m == 2 * (q * p);
    Quotient(a, m, q, 2 * r + a % 2);
  }

  // ----- the pieces

  /** One sub-request; `data` is where its bytes start in the caller's buffer. */
  datatype Piece = Piece(vaddr: nat, size: int, offset: int, data: int)

  function SentBefore(pieces: seq<Piece>, i: nat): int
    requires i <= |pieces|
  {
    if i == 0 then 0 else SentBefore(pieces, i - 1) + pieces[i - 1].size
  }

  /** The pieces follow each other without gap or overlap: each starts, in memory and in the buffer,
      at as many bytes as were sent before it. */
  ghost predicate Contiguous(start: nat, pieces: seq<Piece>) {
    forall i: nat :: i < |pieces| ==> Follows(start, pieces, i)
  }

  ghost predicate Follows(start: nat, pieces: seq<Piece>, i: nat)
    requires i < |pieces|
  {
    pieces[i].offset == pieces[i].data == SentBefore(pieces, i) == pieces[i].vaddr - start
  }

  /** Where the `i`th page of the request begins, counted from `start`. */
  function PageStart(into: nat, page: nat, i: nat): int
  {
    if i == 0 then 0 - into else PageStart(into, page, i - 1) + page
  }

  lemma {:induction false} PageStartClosed(into: nat, page: nat, i: nat)
    ensures PageStart(into, page, i) == i * page - into
    decreases i
  {
    if i > 0 {
      PageStartClosed(into, page, i - 1);
      Distribute(i - 1, 1, page);
    }
  }

  lemma {:induction false} PageStartPositive(into: nat, page: nat, i: nat)
    requires into < page && i > 0
    ensures PageStart(into, page, i) > 0
    decreases i
  {
    if i > 1 { PageStartPositive(into, page, i - 1); }
  }

  /** Piece `i` has bytes and lies inside the page `i` pages after the first. */
  ghost predicate InPage(into: nat, pieces: seq<Piece>, i: nat, page: nat)
    requires i < |pieces|
  {
    var p := pieces[i];
    p.size > 0 && PageStart(into, page, i) <= p.offset && p.offset + p.size <= PageStart(into, page, i + 1)
  }

  ghost predicate PagePerPiece(into: nat, pieces: seq<Piece>, page: nat) {
    forall i: nat :: i < |pieces| ==> InPage(into, pieces, i, page)
  }

  lemma {:induction false} SentBeforeAppend(pieces: seq<Piece>, p: Piece, i: nat)
    requires i <= |pieces|
    ensures SentBefore(pieces + [p], i) == SentBefore(pieces, i)
    decreases i
  {
    if i > 0 { SentBeforeAppend(pieces, p, i - 1); }
  }

  lemma ContiguousAppend(start: nat, pieces: seq<Piece>, p: Piece)
    requires Contiguous(start, pieces) && p.offset == p.data == SentBefore(pieces, |pieces|) == p.vaddr - start
    ensures Contiguous(start, pieces + [p])
    ensures SentBefore(pieces + [p], |pieces| + 1) == SentBefore(pieces, |pieces|) + p.size
  {
    var all := pieces + [p];
    SentBeforeAppend(pieces, p, |pieces|);
    forall i: nat | i < |all| ensures Follows(start, all, i) {
      if i < |pieces| {
        SentBeforeAppend(pieces, p, i);
        assert Follows(start, pieces, i);
      }
    }
  }

  /** A stretch that begins `into` bytes into page `k` and ends by its end lies in page `k`. */
  lemma InsidePage(k: nat, into: nat, size: int, page: nat)
    requires page > 0 && into + size <= page && size > 0
    ensures (k * page + into) / page == k && (k * page + into + size - 1) / page == k
  {
    Quotient(k * page + into, page, k, into);
    Quotient(k * page + into + size - 1, page, k, into + size - 1);
  }

  /** The split has sent `data` bytes and has `remaining` to go; all pieces so far end at page ends. */
  ghost predicate Splitting(start: nat, size: int, into: nat, page: nat, pieces: seq<Piece>, data: int,
                            remaining: int) {
    && Contiguous(start, pieces) && SentBefore(pieces, |pieces|) == data && data + remaining == size
    && PagePerPiece(into, pieces, page)
    && (pieces != [] ==> remaining > 0 && data == PageStart(into, page, |pieces|))
  }

  ghost predicate SplitDone(start: nat, size: int, into: nat, page: nat, pieces: seq<Piece>) {
    && |pieces| > 0 && Contiguous(start, pieces) && SentBefore(pieces, |pieces|) == size
    && if size > 0 then PagePerPiece(into, pieces, page) else |pieces| == 1
  }

  /** The next piece: up to the end of its page. */
  function NextPiece(start: nat, into: nat, page: nat, i: nat, data: int, remaining: int): Piece
    requires into < page
  {
    PageStartPositive(into, page, if i == 0 then 1 else i);
    var offset := if i == 0 then 0 else PageStart(into, page, i);
    var room := PageStart(into, page, i + 1) - offset;
    Piece(start + offset, if remaining < room then remaining else room, offset, data)
  }

  lemma SplitStep(start: nat, size: int, into: nat, page: nat, pieces: seq<Piece>, data: int, remaining: int)
    requires into < page && Splitting(start, size, into, page, pieces, data, remaining)
    ensures var p := NextPiece(start, into, page, |pieces|, data, remaining);
      if remaining - p.size <= 0 then SplitDone(start, size, into, page, pieces + [p])
      else Splitting(start, size, into, page, pieces + [p], data + p.size, remaining - p.size)
  {
    var i := |pieces|;
    var p := NextPiece(start, into, page, i, data, remaining);
    ContiguousAppend(start, pieces, p);
    assert PageStart(into, page, i + 1) == PageStart(into, page, i) + page;
    if i > 0 { PageStartPositive(into, page, i); }
    if remaining > 0 {
      assert InPage(into, pieces + [p], i, page);
      PagesAppend(into, pieces, p, page);
    }
  }

  lemma PagesAppend(into: nat, pieces: seq<Piece>, p: Piece, page: nat)
    requires PagePerPiece(into, pieces, page) && InPage(into, pieces + [p], |pieces|, page)
    ensures PagePerPiece(into, pieces + [p], page)
  {
    var all := pieces + [p];
    forall i: nat | i < |all| ensures InPage(into, all, i, page) {
      if i < |pieces| { assert InPage(into, pieces, i, page); }
    }
  }

  /** Splits the request so that no piece crosses a page; a request of no bytes is sent as one piece. */
  method Split(start: nat, size: int, k: nat) returns (pieces: seq<Piece>)
    ensures SplitDone(start, size, start % Pow2(k), Pow2(k), pieces)
  {
    var page := Pow2(k);
    var firstPage := BitAndNot(start, page - 1);
    var into := BitAnd(start, page - 1);
    MaskParts(start, page - 1);
    MaskIsRemainder(start, k);
    var remaining: int, i: nat, data: int := size, 0, 0;
    pieces := [];
    while true
      invariant i == |pieces| && Splitting(start, size, into, page, pieces, data, remaining)
      decreases remaining
    {
      var vaddr := if i == 0 then start else firstPage + i * page;
      var room := if i == 0 then page - into else page;
      var bytes := if remaining < room then remaining else room;
      PageStartClosed(into, page, i);
      SplitStep(start, size, into, page, pieces, data, remaining);
      pieces := pieces + [Piece(vaddr, bytes, vaddr - start, data)];
      i := i + 1;
      remaining := remaining - bytes;
      data := data + bytes;
      if remaining <= 0 {
        break;
      }
    }
  }

  /** First and last byte of piece `i` are in the same page, `i` pages after that of the request. */
  lemma PiecesStayInPages(start: nat, size: int, page: nat, pieces: seq<Piece>, i: nat)
    requires page > 0 && size > 0 && SplitDone(start, size, start % page, page, pieces) && i < |pieces|
    ensures pieces[i].vaddr / page == (pieces[i].vaddr + pieces[i].size - 1) / page == start / page + i
  {
    var n, p := start / page, pieces[i];
    var into := start % page;
    assert start == n * page + into;
    assert Follows(start, pieces, i) && InPage(into, pieces, i, page);
    PageStartClosed(into, page, i);
    Distribute(n, i, page);
    InsidePage(n + i, p.offset - PageStart(into, page, i), p.size, page);
  }

  // ----- counting the pieces back in

  /** `pending` holds one completion event per piece on its way, named by its request's start address;
      `sends` and `callbacks` record the requests sent and those reported complete. */
  datatype Port = Port(outstanding: map<nat, int>, pending: multiset<nat>, sends: multiset<nat>,
                       callbacks: multiset<nat>)

  /** What holds of one start address: the counter is the number of events on their way, and every
      request sent is either still counted or was reported, once. */
  ghost predicate AddressOk(s: Port, a: nat) {
    && (a in s.outstanding <==> s.pending[a] > 0)
    && (a in s.outstanding ==> s.outstanding[a] == s.pending[a])
    && s.sends[a] == s.callbacks[a] + if a in s.outstanding then 1 else 0
  }

  ghost predicate PortOk(s: Port) {
    forall a: nat :: AddressOk(s, a)
  }

  function Sends(s: Port, a: nat, n: nat): Port {
    s.(outstanding := s.outstanding[a := n], pending := s.pending[a := s.pending[a] + n],
       sends := s.sends[a := s.sends[a] + 1])
  }

  function Processes(s: Port, a: nat): Port
    requires a in s.outstanding && s.pending[a] > 0
  {
    var t := s.(pending := s.pending[a := s.pending[a] - 1]);
    if s.outstanding[a] == 1 then
      t.(outstanding := s.outstanding - {a}, callbacks := s.callbacks[a := s.callbacks[a] + 1])
    else t.(outstanding := s.outstanding[a := s.outstanding[a] - 1])
  }

  ghost predicate PortStep(s: Port, t: Port) {
    || (exists a: nat, n: nat :: a !in s.outstanding && n > 0 && t == Sends(s, a, n))
    || (exists a: nat :: a in s.outstanding && s.pending[a] > 0 && t == Processes(s, a))
  }

  lemma SendCounted(s: Port, a: nat, n: nat)
    requires PortOk(s) && a !in s.outstanding && n > 0
    ensures PortOk(Sends(s, a, n))
  {
    forall b: nat ensures AddressOk(Sends(s, a, n), b) { assert AddressOk(s, b); }
  }

  /** A completion event reports the request exactly when it is the last one on its way. */
  lemma EventCounted(s: Port, a: nat)
    requires PortOk(s) && s.pending[a] > 0
    ensures a in s.outstanding && PortOk(Processes(s, a))
    ensures Processes(s, a).callbacks == if s.pending[a] == 1 then s.callbacks[a := s.callbacks[a] + 1] else s.callbacks
  {
    assert AddressOk(s, a);
    forall b: nat ensures AddressOk(Processes(s, a), b) { assert AddressOk(s, b); }
  }

  ghost predicate PortRun(run: seq<Port>) {
    && |run| > 0 && run[0] == Port(map[], multiset{}, multiset{}, multiset{})
    && forall i :: 0 <= i < |run| - 1 ==> PortStep(run[i], run[i + 1])
  }

  /** Whatever the order of the events: no request is reported twice or early, and once no event of
      an address is on its way all its requests have been reported. */
  lemma {:induction false} ReportedExactlyOnce(run: seq<Port>, i: nat, a: nat)
    requires PortRun(run) && i < |run|
    ensures PortOk(run[i])
    ensures run[i].callbacks[a] <= run[i].sends[a]
    ensures run[i].callbacks[a] == run[i].sends[a] <==> run[i].pending[a] == 0
    decreases i
  {
    if i > 0 {
      var s, t := run[i - 1], run[i];
      ReportedExactlyOnce(run, i - 1, a);
      assert PortStep(s, t);
      if b: nat, n: nat :| b !in s.outstanding && n > 0 && t == Sends(s, b, n) {
        SendCounted(s, b, n);
      } else {
        var b: nat :| b in s.outstanding && s.pending[b] > 0 && t == Processes(s, b);
        EventCounted(s, b);
      }
    }
    assert AddressOk(run[i], a);
  }

  class SpadPort {
    var outstanding: map<nat, int>
    ghost var pending: multiset<nat>
    ghost var sends: multiset<nat>
    ghost var callbacks: multiset<nat>

    ghost function S(): Port
      reads this
    {
      Port(outstanding, pending, sends, callbacks)
    }

    constructor ()
      ensures S() == Port(map[], multiset{}, multiset{}, multiset{}) && PortOk(S())
    {
      outstanding, pending, sends, callbacks := map[], multiset{}, multiset{}, multiset{};
    }

    /** Sends the pieces of a request whose start address is not in use, counting them. */
    method SplitAndSendDmaRequest(start: nat, size: int, k: nat) returns (pieces: seq<Piece>)
      requires PortOk(S()) && start !in outstanding
      modifies this
      ensures SplitDone(start, size, start % Pow2(k), Pow2(k), pieces)
      ensures PortOk(S()) && S() == Sends(old(S()), start, |pieces|)
    {
      SendCounts(S(), start);
      pieces := Split(start, size, k);
      SendCounted(S(), start, |pieces|);
      outstanding := outstanding[start := 0];
      for i := 0 to |pieces|
        invariant outstanding == old(outstanding)[start := i] && sends == old(sends) && callbacks == old(callbacks)
        invariant pending == old(pending)[start := old(pending)[start] + i]
      {
        pending := pending[start := pending[start] + 1];
        outstanding := outstanding[start := outstanding[start] + 1];
      }
      sends := sends[start := sends[start] + 1];
    }

    static lemma SendCounts(s: Port, a: nat)
      requires PortOk(s) && a !in s.outstanding
      ensures s.pending[a] == 0 && s.pending == s.pending[a := 0]
    {
      assert AddressOk(s, a);
    }

    /** One completion event. */
    method Process(start: nat) returns (last: bool)
      requires PortOk(S()) && pending[start] > 0
      modifies this
      ensures start in old(outstanding) && S() == Processes(old(S()), start) && PortOk(S())
      ensures last <==> old(pending[start]) == 1
    {
      EventCounted(S(), start);
      assert AddressOk(S(), start);
      pending := pending[start := pending[start] - 1];
      outstanding := outstanding[start := outstanding[start] - 1];
      last := outstanding[start] == 0;
      if last {
        callbacks := callbacks[start := callbacks[start] + 1];
        outstanding := outstanding - {start};
      }
    }
  }
}
