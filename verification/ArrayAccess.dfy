/** Reading and writing a stretch of addresses word by word: which words of the flat array an access reaches,
    for every address, and the stretch of flat bytes they are for offsets of 32 bits. */
module ArrayAccess {
  import opened Arithmetic
  import opened PartitionLayout
  import opened FlatMemory
  import opened ArrayAddressing

  // ----- words read and written, given which they are

  /** The words of `ws` at `idx`, one after the other. */
  ghost function Fetched(ws: seq<Bytes>, idx: seq<nat>): Bytes
    requires forall k :: 0 <= k < |idx| ==> idx[k] < |ws|
  {
    if idx == [] then [] else Fetched(ws, idx[..|idx| - 1]) + ws[idx[|idx| - 1]]
  }

  /** The words of `data` written to the words at `idx`, in this order. */
  ghost function Scattered(ws: seq<Bytes>, idx: seq<nat>, data: Bytes, w: nat): (r: seq<Bytes>)
    requires (forall k :: 0 <= k < |idx| ==> idx[k] < |ws|) && Steps(w, |idx|) <= |data|
    ensures |r| == |ws|
  {
    if idx == [] then ws
    else Scattered(ws, idx[..|idx| - 1], data, w)[idx[|idx| - 1] := Chunk(data, w, Steps(w, |idx| - 1))]
  }

  function Consecutive(q: nat, m: nat): (idx: seq<nat>)
    ensures |idx| == m && forall k :: 0 <= k < m ==> idx[k] == q + k
  {
    if m == 0 then [] else Consecutive(q, m - 1) + [q + m - 1]
  }

  lemma ConsecutiveBut(q: nat, m: nat)
    requires m > 0
    ensures Consecutive(q, m)[..m - 1] == Consecutive(q, m - 1)
  {
  }

  /** Consecutive words are a stretch of the array. */
  lemma {:induction false} FetchedStretch(ws: seq<Bytes>, q: nat, m: nat)
    requires q + m <= |ws|
    ensures Fetched(ws, Consecutive(q, m)) == Joined(ws[q..q + m])
    decreases m
  {
    if m > 0 {
      ConsecutiveBut(q, m);
      FetchedStretch(ws, q, m - 1);
      assert ws[q..q + m][..m - 1] == ws[q..q + m - 1];
    }
  }

  lemma {:induction false} ScatteredStretch(ws: seq<Bytes>, q: nat, m: nat, data: Bytes, w: nat)
    requires q + m <= |ws| && Steps(w, m) <= |data|
    ensures Scattered(ws, Consecutive(q, m), data, w) == Overwritten(ws, q, data, w, m)
    decreases m
  {
    if m > 0 {
      ConsecutiveBut(q, m);
      ScatteredStretch(ws, q, m - 1, data, w);
      OverwriteNext(ws, q, data, w, m - 1);
    } else {
      assert ws == ws[..q] + ws[q..];
    }
  }

  /** The words at `idx` have been read into `out`, or overwritten from `data`. */
  ghost predicate Accessed(now: seq<Bytes>, ws: seq<Bytes>, idx: seq<nat>, data: Bytes, w: nat, isRead: bool,
                           out: Bytes) {
    && (forall k :: 0 <= k < |idx| ==> idx[k] < |ws|)
    && if isRead then now == ws && out == Fetched(ws, idx)
       else Steps(w, |idx|) <= |data| && now == Scattered(ws, idx, data, w) && out == []
  }

  lemma AccessedNext(now: seq<Bytes>, ws: seq<Bytes>, idx: seq<nat>, q: nat, data: Bytes, w: nat, isRead: bool,
                     out: Bytes)
    requires Accessed(now, ws, idx, data, w, isRead, out) && q < |ws| && (!isRead ==> Steps(w, |idx|) + w <= |data|)
    ensures |now| == |ws|
    ensures isRead ==> Accessed(now, ws, idx + [q], data, w, isRead, out + now[q])
    ensures !isRead ==> Accessed(now[q := Chunk(data, w, Steps(w, |idx|))], ws, idx + [q], data, w, isRead, [])
  {
    assert (idx + [q])[..|idx|] == idx;
  }

  // ----- which words an access reaches

  /** The words that the `n` words of an access at offset `x` are, up to the first that is missing. */
  ghost function Indices(find: int -> Where, x: int, w: nat, n: nat): (idx: seq<nat>)
    ensures |idx| <= n
  {
    if n == 0 then []
    else
      var before := Indices(find, x, w, n - 1);
      var next := find(x + Steps(w, n - 1));
      if |before| == n - 1 && next.At? then before + [next.word] else before
  }

  /** How the access ends. */
  ghost function Ending(find: int -> Where, x: int, w: nat, n: nat): Status {
    var m := |Indices(find, x, w, n)|;
    match find(x + Steps(w, m)) case Missing(status) => if m == n then Done else status case At(_) => Done
  }

  lemma {:induction false} StopsAt(find: int -> Where, x: int, w: nat, k: nat, n: nat)
    requires |Indices(find, x, w, k)| == k < n && find(x + Steps(w, k)).Missing?
    ensures Indices(find, x, w, n) == Indices(find, x, w, k)
    ensures Ending(find, x, w, n) == find(x + Steps(w, k)).status
    decreases n
  {
    if k + 1 < n { StopsAt(find, x, w, k, n - 1); }
  }

  /** The offsets `r` and `r + d` look alike. */
  ghost predicate Alike(find: int -> Where, d: nat, r: int) {
    find(r + d) == find(r)
  }

  lemma {:induction false} SameIndices(find: int -> Where, d: nat, x: int, w: nat, n: nat)
    requires forall r: int :: x <= r < x + Steps(w, n) ==> Alike(find, d, r)
    requires w > 0
    ensures Indices(find, x + d, w, n) == Indices(find, x, w, n)
  {
    if n > 0 {
      SameIndices(find, d, x, w, n - 1);
      assert Alike(find, d, x + Steps(w, n - 1));
      assert x + d + Steps(w, n - 1) == x + Steps(w, n - 1) + d;
    }
  }

  ghost predicate FindsStretch(find: int -> Where, x: int, w: nat, q: nat, m: nat) {
    forall k: nat :: k < m ==> find(x + Steps(w, k)) == At(q + k)
  }

  /** Words that lie one after the other are all reached. */
  lemma {:induction false} IndicesStretch(find: int -> Where, x: int, w: nat, q: nat, m: nat)
    requires FindsStretch(find, x, w, q, m)
    ensures Indices(find, x, w, m) == Consecutive(q, m)
    decreases m
  {
    if m > 0 { IndicesStretch(find, x, w, q, m - 1); }
  }

  ghost predicate Finds(find: int -> Where, l: Layout) {
    forall x {:trigger Find(l, x)} :: find(x) == Find(l, x)
  }

  /** The lookup of an array. */
  ghost function Finder(l: Layout): (find: int -> Where)
    ensures Finds(find, l)
  {
    assert Finds(x => Find(l, x), l);
    var find: int -> Where :| Finds(find, l);
    find
  }

  /** An access as a whole: a bad length is refused, otherwise every word up to the first that is not found. */
  ghost predicate WordsAccessed(l: Layout, now: seq<Bytes>, ws: seq<Bytes>, x: int, data: Bytes, len: nat,
                                isRead: bool, status: Status, out: Bytes) {
    if len == 0 || Rem(len, l.word) != 0 then status == BadLength && out == [] && now == ws
    else AllAccessed(Finder(l), now, ws, x, data, l.word, Quot(len, l.word), isRead, status, out)
  }

  ghost predicate AllAccessed(find: int -> Where, now: seq<Bytes>, ws: seq<Bytes>, x: int, data: Bytes, w: nat,
                              n: nat, isRead: bool, status: Status, out: Bytes) {
    status == Ending(find, x, w, n) && Accessed(now, ws, Indices(find, x, w, n), data, w, isRead, out)
  }

  /** A far access reaches the very words of the access in the array that it looks like. */
  lemma FarAccess(l: Layout, r: nat, far: nat, d: nat, n: nat)
    requires d == Steps(Unit(l), 0x1_0000_0000 * far)
    requires r + Steps(l.word, n) <= l.total && r + Steps(l.word, n) + d <= 0x1_0000_0000_0000_0000
    ensures Indices(Finder(l), r + d, l.word, n) == Indices(Finder(l), r, l.word, n)
  {
    forall y: int | r <= y < r + Steps(l.word, n) ensures Alike(Finder(l), d, y) { FarWord(l, y, far, d); }
    SameIndices(Finder(l), d, r, l.word, n);
  }

  lemma FarWord(l: Layout, r: nat, far: nat, d: nat)
    requires d == Steps(Unit(l), 0x1_0000_0000 * far) && r < l.total && r + d < 0x1_0000_0000_0000_0000
    ensures Alike(Finder(l), d, r)
  {
    FindFar(l, r, far, r + d);
  }

  // ----- offsets of 32 bits

  predicate Begins(l: Layout, x: int) {
    x >= 0 && Quot(x, l.word) < Words(l)
  }

  /** The word an access starts in, if there is one. */
  function FirstIndex(l: Layout, x: int): (q: nat)
    ensures q <= Words(l)
  {
    if Begins(l, x) then Quot(x, l.word) else 0
  }

  /** How many of the `n` words from offset `x` on exist before the first that does not. */
  function Reach(l: Layout, x: int, n: nat): (r: nat)
    ensures r <= n && FirstIndex(l, x) + r <= Words(l)
  {
    if !Begins(l, x) then 0
    else if n < Words(l) - FirstIndex(l, x) then n else Words(l) - FirstIndex(l, x)
  }

  /** How an access to `n` words ends. */
  function Outcome(l: Layout, x: int, n: nat): Status {
    if Reach(l, x, n) == n then Done
    else match Flat(l, x + Steps(l.word, Reach(l, x, n))) case Missing(s) => s case At(_) => Done
  }

  predicate Small(l: Layout, x: int, n: nat) {
    -0x8000_0000 <= x && x + Steps(l.word, n) <= 0x8000_0000
  }

  /** As far as an access goes, `find` is what it should be. */
  ghost predicate FindsFlat(find: int -> Where, l: Layout, x: int, n: nat) {
    forall k: nat :: k < n ==> find(x + Steps(l.word, k)) == Flat(l, x + Steps(l.word, k))
  }

  lemma FinderIsFlat(l: Layout, x: int, n: nat)
    requires Small(l, x, n)
    ensures FindsFlat(Finder(l), l, x, n)
  {
    forall k: nat | k < n ensures Finder(l)(x + Steps(l.word, k)) == Flat(l, x + Steps(l.word, k)) {
      StepsGrow(l.word, k + 1, n);
      FindSmall(l, x + Steps(l.word, k));
    }
  }

  /** The words that exist are consecutive. */
  lemma WordReached(l: Layout, x: int, n: nat, k: nat)
    requires k < Reach(l, x, n)
    ensures Flat(l, x + Steps(l.word, k)) == At(FirstIndex(l, x) + k)
  {
    QuotSteps(x, l.word, k);
    BeforeTail(l, x + Steps(l.word, k));
  }

  lemma WordsReached(find: int -> Where, l: Layout, x: int, n: nat)
    requires FindsFlat(find, l, x, n)
    ensures FindsStretch(find, x, l.word, FirstIndex(l, x), Reach(l, x, n))
  {
    forall k: nat | k < Reach(l, x, n) ensures find(x + Steps(l.word, k)) == At(FirstIndex(l, x) + k) {
      WordReached(l, x, n, k);
    }
  }

  lemma WordMissed(l: Layout, x: int, n: nat)
    requires Reach(l, x, n) < n
    ensures Flat(l, x + Steps(l.word, Reach(l, x, n))) == Missing(Outcome(l, x, n))
  {
    if Begins(l, x) { QuotSteps(x, l.word, Reach(l, x, n)); }
  }

  /** The words found are those that exist, and the first that does not exist decides how the access ends. */
  lemma FlatReach(find: int -> Where, l: Layout, x: int, n: nat)
    requires FindsFlat(find, l, x, n)
    ensures Indices(find, x, l.word, n) == Consecutive(FirstIndex(l, x), Reach(l, x, n))
    ensures Ending(find, x, l.word, n) == Outcome(l, x, n)
  {
    var q, m := FirstIndex(l, x), Reach(l, x, n);
    WordsReached(find, l, x, n);
    IndicesStretch(find, x, l.word, q, m);
    if m < n {
      WordMissed(l, x, n);
      StopsAt(find, x, l.word, m, n);
    }
  }

  // ----- on the flat bytes

  /** The stretch of flat bytes an access touches. */
  function From(l: Layout, x: int): nat {
    Steps(l.word, FirstIndex(l, x))
  }

  function To(l: Layout, x: int, n: nat): nat {
    Steps(l.word, FirstIndex(l, x) + Reach(l, x, n))
  }

  /** A read is a slice of the flat bytes, from the word that holds `x` as far as there are words. */
  ghost predicate ReadFlat(l: Layout, mem: Bytes, x: int, len: nat, status: Status, out: Bytes) {
    if len == 0 || Rem(len, l.word) != 0 then status == BadLength && out == []
    else
      var n := Quot(len, l.word);
      && status == Outcome(l, x, n)
      && From(l, x) <= To(l, x, n) <= |mem| && out == mem[From(l, x)..To(l, x, n)]
  }

  /** The stretch from `from` to `to` replaced by the front of `data`. */
  ghost predicate Replaced(now: Bytes, mem: Bytes, data: Bytes, from: nat, to: nat) {
    from <= to <= |mem| && to - from <= |data| && now == mem[..from] + data[..to - from] + mem[to..]
  }

  /** A write replaces one stretch of the flat bytes and leaves the rest alone. */
  ghost predicate WrittenFlat(l: Layout, now: Bytes, mem: Bytes, x: int, data: Bytes, len: nat, status: Status) {
    if len == 0 || Rem(len, l.word) != 0 then status == BadLength && now == mem
    else
      var n := Quot(len, l.word);
      status == Outcome(l, x, n) && Replaced(now, mem, data, From(l, x), To(l, x, n))
  }

  predicate Within32(x: int, len: nat) {
    -0x8000_0000 <= x && x + len <= 0x8000_0000
  }

  lemma SmallLength(l: Layout, x: int, len: nat)
    requires Within32(x, len)
    ensures Small(l, x, Quot(len, l.word))
  {
    QuotRem(len, l.word);
  }

  lemma StretchRead(ws: seq<Bytes>, w: nat, idx: seq<nat>, q: nat, m: nat, out: Bytes)
    requires Uniform(ws, w) && q + m <= |ws| && idx == Consecutive(q, m) && Accessed(ws, ws, idx, [], w, true, out)
    ensures Steps(w, q) <= Steps(w, q + m) <= |Joined(ws)| && out == Joined(ws)[Steps(w, q)..Steps(w, q + m)]
  {
    FetchedStretch(ws, q, m);
    JoinedSplit(ws, w, q, q + m);
  }

  lemma FlatRead(find: int -> Where, l: Layout, ws: seq<Bytes>, x: int, n: nat, status: Status, out: Bytes)
    requires FindsFlat(find, l, x, n) && Uniform(ws, l.word) && |ws| == Words(l)
    requires AllAccessed(find, ws, ws, x, [], l.word, n, true, status, out)
    ensures status == Outcome(l, x, n)
    ensures From(l, x) <= To(l, x, n) <= |Joined(ws)| && out == Joined(ws)[From(l, x)..To(l, x, n)]
  {
    FlatReach(find, l, x, n);
    StretchRead(ws, l.word, Indices(find, x, l.word, n), FirstIndex(l, x), Reach(l, x, n), out);
  }

  lemma SmallRead(l: Layout, blocks: seq<seq<Bytes>>, x: int, len: nat, status: Status, out: Bytes)
    requires Shaped(l, blocks)
    requires WordsAccessed(l, FlatWords(l, blocks), FlatWords(l, blocks), x, [], len, true, status, out)
    ensures Within32(x, len) ==> ReadFlat(l, Joined(FlatWords(l, blocks)), x, len, status, out)
  {
    var ws := FlatWords(l, blocks);
    if Within32(x, len) && len > 0 && Rem(len, l.word) == 0 {
      SmallLength(l, x, len);
      FinderIsFlat(l, x, Quot(len, l.word));
      FlatRead(Finder(l), l, ws, x, Quot(len, l.word), status, out);
    }
  }

  lemma StretchWritten(now: seq<Bytes>, ws: seq<Bytes>, w: nat, idx: seq<nat>, q: nat, m: nat, data: Bytes, out: Bytes)
    requires Uniform(ws, w) && q + m <= |ws| && idx == Consecutive(q, m) && Accessed(now, ws, idx, data, w, false, out)
    ensures Replaced(Joined(now), Joined(ws), data, Steps(w, q), Steps(w, q + m))
  {
    ScatteredStretch(ws, q, m, data, w);
    OverwriteIsFlat(ws, q, data, w, m);
  }

  lemma FlatWritten(find: int -> Where, l: Layout, now: seq<Bytes>, ws: seq<Bytes>, x: int, data: Bytes, n: nat,
                    status: Status, out: Bytes)
    requires FindsFlat(find, l, x, n) && Uniform(ws, l.word) && |ws| == Words(l)
    requires AllAccessed(find, now, ws, x, data, l.word, n, false, status, out)
    ensures status == Outcome(l, x, n)
    ensures Replaced(Joined(now), Joined(ws), data, From(l, x), To(l, x, n))
  {
    FlatReach(find, l, x, n);
    StretchWritten(now, ws, l.word, Indices(find, x, l.word, n), FirstIndex(l, x), Reach(l, x, n), data, out);
  }

  lemma SmallWrite(l: Layout, blocks: seq<seq<Bytes>>, was: seq<seq<Bytes>>, x: int, data: Bytes, len: nat,
                   status: Status, out: Bytes)
    requires Shaped(l, blocks) && Shaped(l, was)
    requires WordsAccessed(l, FlatWords(l, blocks), FlatWords(l, was), x, data, len, false, status, out)
    ensures out == []
    ensures Within32(x, len) ==>
      WrittenFlat(l, Joined(FlatWords(l, blocks)), Joined(FlatWords(l, was)), x, data, len, status)
  {
    var now, ws := FlatWords(l, blocks), FlatWords(l, was);
    if Within32(x, len) && len > 0 && Rem(len, l.word) == 0 {
      SmallLength(l, x, len);
      FinderIsFlat(l, x, Quot(len, l.word));
      FlatWritten(Finder(l), l, now, ws, x, data, Quot(len, l.word), status, out);
    }
  }

  /** What was written is what is read back. */
  lemma ReadAfterWrite(l: Layout, now: Bytes, mem: Bytes, x: int, data: Bytes, len: nat, s: Status, t: Status,
                       out: Bytes)
    requires WrittenFlat(l, now, mem, x, data, len, s) && ReadFlat(l, now, x, len, t, out)
    ensures s == t
    ensures len > 0 && Rem(len, l.word) == 0 ==>
      |out| == To(l, x, Quot(len, l.word)) - From(l, x) <= |data| && out == data[..|out|]
  {
    if len > 0 && Rem(len, l.word) == 0 {
      var from, to := From(l, x), To(l, x, Quot(len, l.word));
      ThreeParts(now, mem[..from], data[..to - from], mem[to..], from, to);
    }
  }

  /** An aligned access inside the whole words runs to its end, from its own offset on. */
  lemma InRangeReached(l: Layout, x: nat, n: nat)
    requires Rem(x, l.word) == 0 && n > 0 && x + Steps(l.word, n) <= Steps(l.word, Words(l))
    ensures From(l, x) == x && To(l, x, n) == x + Steps(l.word, n) && Outcome(l, x, n) == Done
  {
    AlignedReach(l, x, n);
    AlignedFits(x, l.word, Quot(x, l.word), n, Words(l));
  }

  lemma AlignedReach(l: Layout, x: nat, n: nat)
    requires Rem(x, l.word) == 0 && n > 0 && x + Steps(l.word, n) <= Steps(l.word, Words(l))
    ensures FirstIndex(l, x) == Quot(x, l.word) && Reach(l, x, n) == n
  {
    AlignedFits(x, l.word, Quot(x, l.word), n, Words(l));
  }

  lemma AlignedFits(x: nat, w: nat, q: nat, n: nat, words: nat)
    requires w > 0 && q == Quot(x, w) && Rem(x, w) == 0 && x + Steps(w, n) <= Steps(w, words)
    ensures q + n <= words && x == Steps(w, q) && Steps(w, q + n) == x + Steps(w, n)
  {
    QuotRem(x, w);
    StepsAdd(w, q, n);
    if q + n > words { StepsGrow(w, words + 1, q + n); }
  }
}
