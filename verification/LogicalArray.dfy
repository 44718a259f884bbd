/** A logical array over partitions of blocks: partition sizes, the address map and data access,
    each by the loops of the class `LogicalArray`. */
module LogicalArrays {
  import opened Arithmetic
  import opened PartitionLayout
  import opened FlatMemory
  import opened ArrayAddressing
  import opened ArrayAccess

  class LogicalArray {
    const layout: Layout
    var base: Addr
    /** `size_per_part`, in bytes. */
    var sizes: seq<nat>
    var blocks: seq<seq<Bytes>>

    ghost predicate Valid()
      reads this
    {
      AreSizes(layout, sizes) && Shaped(layout, blocks)
    }

    /** The array as one flat row of bytes. */
    ghost function Memory(): Bytes
      reads this
      requires Valid()
    {
      Joined(FlatWords(layout, blocks))
    }

    constructor (layout: Layout, base: Addr)
      ensures Valid() && this.layout == layout && this.base == base
    {
      this.layout, this.base := layout, base;
      var partSizes := ComputePartitionSizes(layout);
      var empty := EmptyBlocks(layout);
      sizes, blocks := partSizes, empty;
    }

    // ----- partition sizes

    /** Partitions as even as possible: the first ones take one word more. */
    static method ComputePartitionSizes(l: Layout) returns (sizes: seq<nat>)
      ensures AreSizes(l, sizes)
    {
      MinSize(l);
      Remaining(l);
      var min := (l.total / l.word / l.partitions) * l.word;
      var remaining := l.total - min * l.partitions;
      sizes := EvenSizes(l.partitions, min, l.word, if remaining > 0 then remaining / l.word else 0);
      forall p: nat | p < l.partitions ensures sizes[p] == SizeOf(l, p) { EvenSize(l, p); }
    }

    /** The minimum size holds the words every partition has. */
    static lemma MinSize(l: Layout)
      ensures l.total / l.word == Words(l) && Words(l) / l.partitions == Quot(Words(l), l.partitions)
      ensures (l.total / l.word / l.partitions) * l.word == Steps(l.word, Quot(Words(l), l.partitions))
    {
      QuotDivides(l.total, l.word);
      QuotDivides(Words(l), l.partitions);
      StepsMultiply(l.word, Quot(Words(l), l.partitions));
    }

    /** The remaining bytes are a word each for the first partitions, and the tail. */
    static lemma Remaining(l: Layout)
      ensures var min := Steps(l.word, Quot(Words(l), l.partitions));
        var remaining := l.total - min * l.partitions;
        && remaining >= 0 && remaining / l.word == Rem(Words(l), l.partitions) < l.partitions
        && (remaining == 0 ==> Rem(Words(l), l.partitions) == 0)
    {
      var n, w, q, r := l.partitions, l.word, Quot(Words(l), l.partitions), Rem(Words(l), l.partitions);
      QuotRem(l.total, w);
      QuotRem(Words(l), n);
      StepsSwap(n, q);
      StepsAdd(w, Steps(q, n), r);
      StepsOfSteps(w, q, n);
      StepsMultiply(Steps(w, q), n);
      Leftover(w, r, Rem(l.total, w));
    }

    static lemma Leftover(w: nat, r: nat, t: nat)
      requires t < w
      ensures (Steps(w, r) + t) / w == r && (Steps(w, r) + t == 0 ==> r == 0)
    {
      QuotDivides(Steps(w, r) + t, w);
      QuotOf(w, r, t);
      if r > 0 { StepsGrow(w, 1, r); }
    }

    static lemma EvenSize(l: Layout, p: nat)
      ensures var min := Steps(l.word, Quot(Words(l), l.partitions));
        SizeOf(l, p) == if p < Rem(Words(l), l.partitions) then min + l.word else min
    {
    }

    /** Everyone gets `min` bytes, the first `longer` one word more. */
    static method EvenSizes(n: nat, min: nat, w: nat, longer: nat) returns (sizes: seq<nat>)
      requires longer <= n
      ensures |sizes| == n && forall p :: 0 <= p < n ==> sizes[p] == if p < longer then min + w else min
    {
      sizes := [];
      for i := 0 to n
        invariant |sizes| == i && forall p :: 0 <= p < i ==> sizes[p] == min
      {
        sizes := sizes + [min];
      }
      for i := 0 to longer
        invariant |sizes| == n && forall p :: 0 <= p < n ==> sizes[p] == if p < i then min + w else min
      {
        sizes := sizes[i := sizes[i] + w];
      }
    }

    static method EmptyBlocks(l: Layout) returns (blocks: seq<seq<Bytes>>)
      ensures Shaped(l, blocks)
    {
      blocks := [];
      for p := 0 to l.partitions
        invariant |blocks| == p && (forall i :: 0 <= i < p ==> |blocks[i]| == WordsIn(l, i))
        invariant forall i, b :: 0 <= i < p && 0 <= b < |blocks[i]| ==> |blocks[i][b]| == l.word
      {
        blocks := blocks + [seq(WordsIn(l, p), b => seq(l.word, k => 0))];
      }
    }

    // ----- addresses

    method GetPartitionIndex(addr: Addr) returns (r: PartLookup)
      requires Valid()
      ensures r == PartAt(layout, addr - base)
    {
      var rel := Int32(addr - base);
      if rel < 0 || rel >= layout.total {
        return NoPart(OutOfBounds);
      }
      if layout.cyclic {
        CyclicPart(layout, rel);
        return Part(rel / layout.word % layout.partitions);
      }
      r := WalkPartitions(layout, sizes, rel);
    }

    static lemma CyclicPart(l: Layout, rel: nat)
      requires l.cyclic && rel < l.total
      ensures rel / l.word % l.partitions >= 0 && PartOf(l, rel) == Part(rel / l.word % l.partitions)
    {
      QuotDivides(rel, l.word);
      QuotDivides(Quot(rel, l.word), l.partitions);
      if Quot(rel, l.word) >= Words(l) { TailWord(l, rel); }
    }

    /** The block layout's walk over the partitions. */
    static method WalkPartitions(l: Layout, sizes: seq<nat>, offset: nat) returns (r: PartLookup)
      requires !l.cyclic && offset < l.total && AreSizes(l, sizes)
      ensures r == PartOf(l, offset)
    {
      var rel: int := offset;
      for i := 0 to |sizes|
        invariant WalkAt(l, offset, i, rel)
      {
        WalkNext(l, offset, i, rel);
        if rel < sizes[i] {
          return Part(i);
        }
        rel := rel - sizes[i];
      }
      WalkEnds(l, offset, rel);
      if rel > 0 {
        return NoPart(Aborted);
      }
      r := Part(|sizes| - 1);
    }

    /** The block index of `addr` counted from the start of partition `part`. */
    method GetBlockIndex(part: nat, addr: Addr) returns (block: nat)
      requires Valid() && part < layout.partitions
      ensures block == BlockAt(layout, part, addr - base)
    {
      var rel;
      if layout.cyclic {
        rel := Low64(addr - base);
        QuotDivides(rel, layout.word);
        QuotDivides(Quot(rel, layout.word), layout.partitions);
        block := rel / layout.word / layout.partitions;
      } else {
        var partBase := PartBase(layout, sizes, part, base);
        rel := Low64(addr - partBase);
        LowOfDifference(addr, base + Start(layout, part));
        assert addr - (base + Start(layout, part)) == addr - base - Start(layout, part);
        QuotDivides(rel, layout.word);
        block := rel / layout.word;
      }
    }

    static method PartBase(l: Layout, sizes: seq<nat>, part: nat, base: Addr) returns (r: Addr)
      requires !l.cyclic && part < l.partitions && AreSizes(l, sizes)
      ensures r == Low64(base + Start(l, part))
    {
      r := base;
      for i := 0 to part
        invariant r == Low64(base + Start(l, i))
      {
        FirstByteNext(l, i);
        LowOfSum(base + Start(l, i), sizes[i], base + Start(l, i + 1));
        r := Low64(r + sizes[i]);
      }
    }

    /** Partition and block of `addr`, with the check that the block exists. */
    method Locate(addr: Addr) returns (r: Lookup)
      requires Valid()
      ensures r == ResolveAny(layout, addr - base)
    {
      var part := GetPartitionIndex(addr);
      if part.NoPart? {
        return NotFound(part.status);
      }
      PartExists(layout, Int32(addr - base));
      var index := GetBlockIndex(part.index, addr);
      var block := Low32(index);
      if block >= |blocks[part.index]| {
        return NotFound(Aborted);
      }
      r := Found(Slot(part.index, block));
    }

    // ----- data

    /** Reads the block at `s`, or writes `data` to it. */
    method AccessBlock(s: Slot, data: Bytes, isRead: bool) returns (out: Bytes)
      requires s.part < |blocks| && s.block < |blocks[s.part]|
      modifies this`blocks
      ensures isRead ==> blocks == old(blocks) && out == blocks[s.part][s.block]
      ensures !isRead ==> blocks == Stored(old(blocks), s, data) && out == []
    {
      if isRead {
        out := blocks[s.part][s.block];
      } else {
        blocks := blocks[s.part := blocks[s.part][s.block := data]];
        out := [];
      }
    }

    /** The word `q` in slot `s` read, or overwritten with the word of `data` at `pos`. */
    method AccessWord(s: Slot, data: Bytes, pos: nat, isRead: bool, ghost q: nat, ghost idx: seq<nat>,
                      ghost ws: seq<Bytes>, ghost out: Bytes)
      returns (more: Bytes)
      requires Valid() && q < Words(layout) == |ws| && s == SlotOf(layout, q)
      requires pos == Steps(layout.word, |idx|) && (!isRead ==> pos + layout.word <= |data|)
      requires Accessed(FlatWords(layout, blocks), ws, idx, data, layout.word, isRead, out)
      modifies this`blocks
      ensures Valid() && (isRead ==> blocks == old(blocks))
      ensures Accessed(FlatWords(layout, blocks), ws, idx + [q], data, layout.word, isRead, out + more)
    {
      WordRoundTrip(layout, q);
      AccessedNext(FlatWords(layout, blocks), ws, idx, q, data, layout.word, isRead, out);
      if isRead {
        more := AccessBlock(s, [], true);
      } else {
        var chunk := Chunk(data, layout.word, pos);
        StoreIsFlat(layout, blocks, q, chunk);
        more := AccessBlock(s, chunk, false);
      }
    }

    /** The word at `curr`, which is offset `x` from the base modulo 2^64. */
    method AccessAt(curr: Addr, data: Bytes, pos: nat, isRead: bool,
                    ghost find: int -> Where, ghost x: int, ghost idx: seq<nat>, ghost ws: seq<Bytes>, ghost out: Bytes)
      returns (status: Status, more: Bytes)
      requires Valid() && Finds(find, layout) && |ws| == Words(layout) && IsAddress(curr, base, x)
      requires pos == Steps(layout.word, |idx|) && (!isRead ==> pos + layout.word <= |data|)
      requires Accessed(FlatWords(layout, blocks), ws, idx, data, layout.word, isRead, out)
      modifies this`blocks
      ensures Valid() && (isRead ==> blocks == old(blocks))
      ensures match find(x)
        case Missing(s) => status == s != Done && blocks == old(blocks)
        case At(q) =>
          && status == Done
          && Accessed(FlatWords(layout, blocks), ws, idx + [q], data, layout.word, isRead, out + more)
    {
      OffsetFound(layout, base, curr, x);
      assert find(x) == Find(layout, x);
      var at := Locate(curr);
      if at.NotFound? {
        MissingFails(layout, x);
        return at.status, [];
      }
      FoundIsWord(layout, x);
      more := AccessWord(at.slot, data, pos, isRead, WordAt(layout, at.slot), idx, ws, out);
      status := Done;
    }

    static lemma OffsetFound(l: Layout, base: Addr, curr: Addr, x: int)
      requires IsAddress(curr, base, x)
      ensures ResolveAny(l, curr - base) == ResolveAny(l, x)
    {
      SameLow(curr, base + x, base);
      assert base + x - base == x;
      OffsetsWrap(l, curr - base, x);
    }

    /** The next word of an access: it is the last one unless it is found. */
    method AccessNext(curr: Addr, data: Bytes, i: nat, isRead: bool, out: Bytes,
                      ghost find: int -> Where, ghost x: int, ghost at: int, ghost n: nat, ghost idx: seq<nat>,
                      ghost ws: seq<Bytes>)
      returns (status: Status, all: Bytes, ghost next: seq<nat>)
      requires Valid() && Finds(find, layout) && |ws| == Words(layout) && IsAddress(curr, base, at) && at == x + i
      requires Walked(find, x, layout.word, n, idx, i) && |idx| < n && (!isRead ==> i + layout.word <= |data|)
      requires Accessed(FlatWords(layout, blocks), ws, idx, data, layout.word, isRead, out)
      modifies this`blocks
      ensures Valid() && (isRead ==> blocks == old(blocks))
      ensures status == Done ==> Walked(find, x, layout.word, n, next, i + layout.word)
      ensures status == Done ==> Accessed(FlatWords(layout, blocks), ws, next, data, layout.word, isRead, all)
      ensures status != Done ==>
        AllAccessed(find, FlatWords(layout, blocks), ws, x, data, layout.word, n, isRead, status, all)
    {
      var more;
      status, more := AccessAt(curr, data, i, isRead, find, at, idx, ws, out);
      if status == Done {
        WalkedOn(find, x, layout.word, n, idx, i);
        all, next := out + more, idx + [find(at).word];
      } else {
        all, next := out, idx;
        WalkStops(find, x, layout.word, n, idx, i, FlatWords(layout, blocks), ws, data, isRead, status, out);
      }
    }

    /** Reads or writes word by word, and stops at the first word that is not found: what was
        written before it stays written. */
    method AccessData(addr: Addr, data: Bytes, len: nat, isRead: bool) returns (status: Status, out: Bytes)
      requires Valid() && (!isRead ==> len <= |data|)
      modifies this`blocks
      ensures Valid() && (isRead ==> blocks == old(blocks))
      ensures WordsAccessed(layout, FlatWords(layout, blocks), old(FlatWords(layout, blocks)), addr - base, data,
                            len, isRead, status, out)
    {
      QuotDivides(len, layout.word);
      if len == 0 || len % layout.word != 0 {
        return BadLength, [];
      }
      QuotRem(len, layout.word);
      status, out := AccessWords(addr, data, len, isRead, Finder(layout), addr - base, Quot(len, layout.word));
    }

    method AccessWords(addr: Addr, data: Bytes, len: nat, isRead: bool, ghost find: int -> Where, ghost x: int,
                       ghost n: nat) returns (status: Status, out: Bytes)
      requires Valid() && IsAddress(addr, base, x) && Finds(find, layout) && len == Steps(layout.word, n)
      requires !isRead ==> len <= |data|
      modifies this`blocks
      ensures Valid() && (isRead ==> blocks == old(blocks))
      ensures AllAccessed(find, FlatWords(layout, blocks), old(FlatWords(layout, blocks)), x, data, layout.word, n,
                          isRead, status, out)
    {
      ghost var ws := FlatWords(layout, blocks);
      var w := layout.word;
      ghost var idx: seq<nat>, at := [], x;
      var i, curr := 0, addr;
      out := [];
      while i < len
        invariant Valid() && (isRead ==> blocks == old(blocks))
        invariant Walked(find, x, w, n, idx, i) && IsAddress(curr, base, at) && at == x + i
        invariant Accessed(FlatWords(layout, blocks), ws, idx, data, w, isRead, out)
        decreases len - i
      {
        StillToGo(w, |idx|, n);
        status, out, idx := AccessNext(curr, data, i, isRead, out, find, x, at, n, idx, ws);
        if status != Done {
          return status, out;
        }
        curr := NextAddress(curr, w, base, at);
        i, at := i + w, at + w;
      }
      WalkComplete(find, x, w, n, idx, i, FlatWords(layout, blocks), ws, data, isRead, out);
      status := Done;
    }

    /** A read gives the words found; for offsets of 32 bits, what the flat bytes hold. */
    method ReadData(addr: Addr, len: nat) returns (status: Status, out: Bytes)
      requires Valid()
      modifies this`blocks
      ensures Valid() && blocks == old(blocks)
      ensures WordsAccessed(layout, FlatWords(layout, blocks), FlatWords(layout, blocks), addr - base, [], len,
                            true, status, out)
      ensures Within32(addr - base, len) ==> ReadFlat(layout, Memory(), addr - base, len, status, out)
    {
      status, out := AccessData(addr, [], len, true);
      SmallRead(layout, blocks, addr - base, len, status, out);
    }

    /** A write changes the words found and nothing else; for offsets of 32 bits, one stretch of the flat bytes. */
    method WriteData(addr: Addr, data: Bytes, len: nat) returns (status: Status)
      requires Valid() && len <= |data|
      modifies this`blocks
      ensures Valid()
      ensures WordsAccessed(layout, FlatWords(layout, blocks), old(FlatWords(layout, blocks)), addr - base, data,
                            len, false, status, [])
      ensures Within32(addr - base, len) ==>
        WrittenFlat(layout, Memory(), old(Memory()), addr - base, data, len, status)
    {
      ghost var was := blocks;
      var out;
      status, out := AccessData(addr, data, len, false);
      SmallWrite(layout, blocks, was, addr - base, data, len, status, out);
    }
  }

  // ----- the loop over words

  /** `curr` is the address at offset `x`. */
  ghost predicate IsAddress(curr: Addr, base: Addr, x: int) {
    curr == Low64(base + x)
  }

  method NextAddress(curr: Addr, w: nat, ghost base: Addr, ghost x: int) returns (r: Addr)
    requires IsAddress(curr, base, x)
    ensures IsAddress(r, base, x + w)
  {
    LowOfSum(base + x, w, base + (x + w));
    r := Low64(curr + w);
  }

  /** The words up to byte `i` of an access are the ones at `idx`. */
  ghost predicate Walked(find: int -> Where, x: int, w: nat, n: nat, idx: seq<nat>, i: nat) {
    |idx| <= n && i == Steps(w, |idx|) && idx == Indices(find, x, w, |idx|)
  }

  lemma WalkedOn(find: int -> Where, x: int, w: nat, n: nat, idx: seq<nat>, i: nat)
    requires Walked(find, x, w, n, idx, i) && |idx| < n && find(x + i).At?
    ensures Walked(find, x, w, n, idx + [find(x + i).word], i + w)
  {
  }

  lemma WalkStops(find: int -> Where, x: int, w: nat, n: nat, idx: seq<nat>, i: nat,
                  now: seq<Bytes>, ws: seq<Bytes>, data: Bytes, isRead: bool, status: Status, out: Bytes)
    requires Walked(find, x, w, n, idx, i) && |idx| < n && find(x + i) == Missing(status)
    requires Accessed(now, ws, idx, data, w, isRead, out)
    ensures AllAccessed(find, now, ws, x, data, w, n, isRead, status, out)
  {
    StopsAt(find, x, w, |idx|, n);
  }

  lemma WalkComplete(find: int -> Where, x: int, w: nat, n: nat, idx: seq<nat>, i: nat,
                     now: seq<Bytes>, ws: seq<Bytes>, data: Bytes, isRead: bool, out: Bytes)
    requires w > 0 && Walked(find, x, w, n, idx, i) && i >= Steps(w, n) && Accessed(now, ws, idx, data, w, isRead, out)
    ensures AllAccessed(find, now, ws, x, data, w, n, isRead, Done, out)
  {
    StillToGo(w, |idx|, n);
  }

  lemma StillToGo(w: nat, k: nat, n: nat)
    requires w > 0 && k <= n
    ensures k < n <==> Steps(w, k) < Steps(w, n)
    ensures k < n ==> Steps(w, k) + w <= Steps(w, n)
  {
    if k < n { StepsGrow(w, k + 1, n); }
  }

  // ----- the walk over partitions

  /** The walk has passed `i` partitions without finding the word. */
  ghost predicate WalkAt(l: Layout, offset: nat, i: nat, rel: int) {
    var q := Quot(offset, l.word);
    && i <= l.partitions && rel >= 0 && rel + Steps(l.word, FirstWord(l, i)) == offset
    && (q < Words(l) ==> FirstWord(l, i) <= q && i < l.partitions && Holder(l, 0, q) == Holder(l, i, q))
  }

  lemma WalkNext(l: Layout, offset: nat, i: nat, rel: int)
    requires WalkAt(l, offset, i, rel) && i < l.partitions
    ensures var size := SizeOf(l, i);
      if rel < size then Quot(offset, l.word) < Words(l) && Holder(l, 0, Quot(offset, l.word)) == i
      else WalkAt(l, offset, i + 1, rel - size)
  {
    QuotBound(offset, l.word, FirstWord(l, i + 1));
    FirstByteNext(l, i);
    FirstWordGrows(l, i + 1, l.partitions);
    WordsAddUp(l);
  }

  lemma WalkEnds(l: Layout, offset: nat, rel: int)
    requires WalkAt(l, offset, l.partitions, rel) && offset < l.total
    ensures Quot(offset, l.word) == Words(l) && rel == offset - Steps(l.word, Words(l))
  {
    WordsAddUp(l);
    TailWord(l, offset);
  }
}
