/** The blocks of a partitioned array seen as one flat row of words, and as one flat row of bytes. */
module FlatMemory {
  import opened Arithmetic
  import opened PartitionLayout

  type Bytes = seq<bv8>

  ghost predicate Shaped(l: Layout, blocks: seq<seq<Bytes>>) {
    && |blocks| == l.partitions
    && (forall p :: 0 <= p < |blocks| ==> |blocks[p]| == WordsIn(l, p))
    && (forall p, b :: 0 <= p < |blocks| && 0 <= b < |blocks[p]| ==> |blocks[p][b]| == l.word)
  }

  /** The word at index `q` of the flat array. */
  ghost function WordOf(l: Layout, blocks: seq<seq<Bytes>>, q: nat): (r: Bytes)
    requires Shaped(l, blocks) && q < Words(l)
    ensures |r| == l.word
  {
    WordRoundTrip(l, q);
    blocks[SlotOf(l, q).part][SlotOf(l, q).block]
  }

  ghost function FlatWords(l: Layout, blocks: seq<seq<Bytes>>): (r: seq<Bytes>)
    requires Shaped(l, blocks)
    ensures |r| == Words(l)
  {
    seq(Words(l), q requires 0 <= q < Words(l) => WordOf(l, blocks, q))
  }

  function Stored(blocks: seq<seq<Bytes>>, s: Slot, x: Bytes): seq<seq<Bytes>>
    requires s.part < |blocks| && s.block < |blocks[s.part]|
  {
    blocks[s.part := blocks[s.part][s.block := x]]
  }

  /** Storing into the slot of word `q` changes that word of the flat array and no other. */
  lemma StoreIsFlat(l: Layout, blocks: seq<seq<Bytes>>, q: nat, x: Bytes)
    requires Shaped(l, blocks) && q < Words(l) && |x| == l.word
    ensures IsSlot(l, SlotOf(l, q)) && Shaped(l, Stored(blocks, SlotOf(l, q), x))
    ensures FlatWords(l, Stored(blocks, SlotOf(l, q), x)) == FlatWords(l, blocks)[q := x]
  {
    WordRoundTrip(l, q);
    var after := Stored(blocks, SlotOf(l, q), x);
    forall k: nat | k < Words(l) ensures WordOf(l, after, k) == if k == q then x else WordOf(l, blocks, k) {
      WordRoundTrip(l, k);
    }
  }

  // ----- words as bytes

  ghost predicate Uniform(ws: seq<Bytes>, w: nat) {
    forall i :: 0 <= i < |ws| ==> |ws[i]| == w
  }

  ghost function Joined(ws: seq<Bytes>): Bytes {
    if ws == [] then [] else Joined(ws[..|ws| - 1]) + ws[|ws| - 1]
  }

  lemma {:induction false} JoinedLength(ws: seq<Bytes>, w: nat)
    requires Uniform(ws, w)
    ensures |Joined(ws)| == Steps(w, |ws|)
  {
    if ws != [] { JoinedLength(ws[..|ws| - 1], w); }
  }

  lemma {:induction false} JoinedConcat(a: seq<Bytes>, b: seq<Bytes>)
    ensures Joined(a + b) == Joined(a) + Joined(b)
    decreases |b|
  {
    if b == [] {
      assert a + b == a;
    } else {
      var n := |b| - 1;
      assert (a + b)[..|a| + n] == a + b[..n];
      JoinedConcat(a, b[..n]);
    }
  }

  lemma JoinedTwo(ws: seq<Bytes>, k: nat)
    requires k <= |ws|
    ensures Joined(ws) == Joined(ws[..k]) + Joined(ws[k..])
  {
    assert ws == ws[..k] + ws[k..];
    JoinedConcat(ws[..k], ws[k..]);
  }

  lemma JoinedThree(ws: seq<Bytes>, from: nat, to: nat)
    requires from <= to <= |ws|
    ensures Joined(ws) == Joined(ws[..from]) + Joined(ws[from..to]) + Joined(ws[to..])
  {
    JoinedTwo(ws, to);
    var p := ws[..to];
    JoinedTwo(p, from);
    assert p[..from] == ws[..from] && p[from..] == ws[from..to];
  }

  /** Whole words lie at whole multiples of the word size. */
  lemma JoinedSplit(ws: seq<Bytes>, w: nat, from: nat, to: nat)
    requires Uniform(ws, w) && from <= to <= |ws|
    ensures var lo, hi := Steps(w, from), Steps(w, to);
      && lo <= hi <= |Joined(ws)|
      && Joined(ws)[lo..hi] == Joined(ws[from..to])
      && Joined(ws)[..lo] == Joined(ws[..from]) && Joined(ws)[hi..] == Joined(ws[to..])
  {
    var a, b, c := Joined(ws[..from]), Joined(ws[from..to]), Joined(ws[to..]);
    assert Joined(ws) == a + b + c by { JoinedThree(ws, from, to); }
    assert |a| == Steps(w, from) by { JoinedLength(ws[..from], w); }
    assert |a| + |b| == Steps(w, to) by {
      JoinedLength(ws[from..to], w);
      StepsAdd(w, from, to - from);
    }
    ThreeParts(Joined(ws), a, b, c, Steps(w, from), Steps(w, to));
  }

  lemma ThreeParts(s: Bytes, a: Bytes, b: Bytes, c: Bytes, lo: nat, hi: nat)
    requires s == a + b + c && lo == |a| && hi == |a| + |b|
    ensures hi <= |s| && s[lo..hi] == b && s[..lo] == a && s[hi..] == c
  {
  }

  /** The word of a buffer that begins at `pos`. */
  function Chunk(data: Bytes, w: nat, pos: nat): (r: Bytes)
    requires pos + w <= |data|
    ensures |r| == w
  {
    data[pos..pos + w]
  }

  ghost function Chunks(data: Bytes, w: nat, n: nat): (r: seq<Bytes>)
    requires Steps(w, n) <= |data|
    ensures |r| == n && Uniform(r, w)
  {
    if n == 0 then [] else Chunks(data, w, n - 1) + [Chunk(data, w, Steps(w, n - 1))]
  }

  lemma {:induction false} ChunksJoin(data: Bytes, w: nat, n: nat)
    requires Steps(w, n) <= |data|
    ensures Joined(Chunks(data, w, n)) == data[..Steps(w, n)]
  {
    if n > 0 {
      var front, last := Chunks(data, w, n - 1), Chunk(data, w, Steps(w, n - 1));
      ChunksJoin(data, w, n - 1);
      assert Joined(Chunks(data, w, n)) == Joined(front) + last by {
        assert Chunks(data, w, n) == front + [last];
        JoinedAppend(front, last);
      }
      PrefixGrows(data, Steps(w, n - 1), w);
    }
  }

  lemma PrefixGrows(data: Bytes, lo: nat, w: nat)
    requires lo + w <= |data|
    ensures data[..lo + w] == data[..lo] + Chunk(data, w, lo)
  {
  }

  lemma JoinedAppend(ws: seq<Bytes>, x: Bytes)
    ensures Joined(ws + [x]) == Joined(ws) + x
  {
    assert (ws + [x])[..|ws|] == ws;
  }

  /** The first `n` words of `data` written from word `q` on. */
  ghost function Overwritten(ws: seq<Bytes>, q: nat, data: Bytes, w: nat, n: nat): (r: seq<Bytes>)
    requires q + n <= |ws| && Steps(w, n) <= |data|
    ensures |r| == |ws|
  {
    ws[..q] + Chunks(data, w, n) + ws[q + n..]
  }

  lemma OverwriteNext(ws: seq<Bytes>, q: nat, data: Bytes, w: nat, n: nat)
    requires q + n < |ws| && Steps(w, n + 1) <= |data|
    ensures Overwritten(ws, q, data, w, n)[q + n := Chunk(data, w, Steps(w, n))] == Overwritten(ws, q, data, w, n + 1)
  {
    assert ws[q + n..] == [ws[q + n]] + ws[q + n + 1..];
  }

  /** On bytes, an overwrite replaces one stretch and leaves the rest alone. */
  lemma OverwriteIsFlat(ws: seq<Bytes>, q: nat, data: Bytes, w: nat, n: nat)
    requires Uniform(ws, w) && q + n <= |ws| && Steps(w, n) <= |data|
    ensures var from, to := Steps(w, q), Steps(w, q + n);
      && to - from == Steps(w, n) && 0 <= from <= to <= |Joined(ws)|
      && Joined(Overwritten(ws, q, data, w, n)) == Joined(ws)[..from] + data[..to - from] + Joined(ws)[to..]
  {
    StepsAdd(w, q, n);
    JoinedSplit(ws, w, q, q + n);
    ChunksJoin(data, w, n);
    JoinedConcat(ws[..q] + Chunks(data, w, n), ws[q + n..]);
    JoinedConcat(ws[..q], Chunks(data, w, n));
  }
}
