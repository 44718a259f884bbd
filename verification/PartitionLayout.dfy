/** How an array is cut into partitions: sizes, and the map from words to (partition, block) slots. */
module PartitionLayout {
  import opened Arithmetic

  /** `total` and `word` are in bytes. */
  datatype RawLayout = RawLayout(cyclic: bool, partitions: nat, total: nat, word: nat)

  /** What the constructor demands; sizes are 32-bit `int`s. */
  predicate Sized(l: RawLayout) {
    l.partitions > 0 && 0 < l.total < 0x8000_0000 && l.word > 0
  }

  type Layout = l: RawLayout | Sized(l) witness RawLayout(true, 1, 1, 1)

  /** The whole words in the array. */
  function Words(l: Layout): nat {
    Quot(l.total, l.word)
  }

  /** The words of partition `p`: as even as possible, the first ones one longer. */
  function WordsIn(l: Layout, p: nat): nat {
    Quot(Words(l), l.partitions) + if p < Rem(Words(l), l.partitions) then 1 else 0
  }

  function FirstWord(l: Layout, p: nat): nat {
    if p == 0 then 0 else FirstWord(l, p - 1) + WordsIn(l, p - 1)
  }

  lemma {:induction false} FirstWordClosed(l: Layout, p: nat)
    ensures FirstWord(l, p) == Steps(Quot(Words(l), l.partitions), p) +
      if p < Rem(Words(l), l.partitions) then p else Rem(Words(l), l.partitions)
  {
    if p > 0 { FirstWordClosed(l, p - 1); }
  }

  /** The partitions hold exactly the whole words. */
  lemma WordsAddUp(l: Layout)
    ensures FirstWord(l, l.partitions) == Words(l)
  {
    FirstWordClosed(l, l.partitions);
    QuotRem(Words(l), l.partitions);
    StepsSwap(Quot(Words(l), l.partitions), l.partitions);
  }

  lemma {:induction false} FirstWordGrows(l: Layout, p: nat, q: nat)
    requires p <= q
    ensures FirstWord(l, p) <= FirstWord(l, q)
    decreases q
  {
    if p < q { FirstWordGrows(l, p, q - 1); }
  }

  // ----- sizes in bytes

  function SizeOf(l: Layout, p: nat): nat {
    Steps(l.word, WordsIn(l, p))
  }

  ghost predicate AreSizes(l: Layout, sizes: seq<nat>) {
    |sizes| == l.partitions && forall p: nat :: p < |sizes| ==> sizes[p] == SizeOf(l, p)
  }

  function SizeSum(sizes: seq<nat>): nat {
    if sizes == [] then 0 else SizeSum(sizes[..|sizes| - 1]) + sizes[|sizes| - 1]
  }

  /** The byte sizes add up to the array's size exactly when the word size divides it. */
  lemma SizesAddUpIff(l: Layout, sizes: seq<nat>)
    requires AreSizes(l, sizes)
    ensures SizeSum(sizes) == Steps(l.word, Words(l)) <= l.total
    ensures SizeSum(sizes) == l.total <==> l.total % l.word == 0
  {
    SizesUpTo(l, sizes, |sizes|);
    WordsAddUp(l);
    assert sizes[..|sizes|] == sizes;
    QuotRem(l.total, l.word);
    QuotDivides(l.total, l.word);
  }

  lemma {:induction false} SizesUpTo(l: Layout, sizes: seq<nat>, p: nat)
    requires AreSizes(l, sizes) && p <= |sizes|
    ensures SizeSum(sizes[..p]) == Steps(l.word, FirstWord(l, p))
    decreases p
  {
    if p > 0 {
      SizesUpTo(l, sizes, p - 1);
      assert sizes[..p][..p - 1] == sizes[..p - 1];
      FirstByteNext(l, p - 1);
    }
  }

  lemma FirstByteNext(l: Layout, p: nat)
    ensures Steps(l.word, FirstWord(l, p + 1)) == Steps(l.word, FirstWord(l, p)) + SizeOf(l, p)
  {
    StepsAdd(l.word, FirstWord(l, p), WordsIn(l, p));
  }

  // ----- the map

  datatype Slot = Slot(part: nat, block: nat)

  predicate IsSlot(l: Layout, s: Slot) {
    s.part < l.partitions && s.block < WordsIn(l, s.part)
  }

  /** The partition, from `p` on, that holds word `q` in the block layout. */
  function Holder(l: Layout, p: nat, q: nat): (r: nat)
    requires p < l.partitions && FirstWord(l, p) <= q < Words(l)
    ensures p <= r < l.partitions && FirstWord(l, r) <= q < FirstWord(l, r + 1)
    decreases l.partitions - p
  {
    if q < FirstWord(l, p + 1) then p
    else
      WordsAddUp(l);
      Holder(l, p + 1, q)
  }

  function SlotOf(l: Layout, q: nat): Slot
    requires q < Words(l)
  {
    if l.cyclic then Slot(Rem(q, l.partitions), Quot(q, l.partitions))
    else Slot(Holder(l, 0, q), q - FirstWord(l, Holder(l, 0, q)))
  }

  function WordAt(l: Layout, s: Slot): nat {
    if l.cyclic then Steps(l.partitions, s.block) + s.part else FirstWord(l, s.part) + s.block
  }

  lemma CyclicFits(q: nat, w: nat, n: nat)
    requires q < w && n > 0
    ensures Quot(q, n) < Quot(w, n) + if Rem(q, n) < Rem(w, n) then 1 else 0
  {
    QuotRem(q, n);
    QuotRem(w, n);
    QuotMonotone(q, w, n);
  }

  /** Every word has a slot, and the slot leads back to the word. */
  lemma WordRoundTrip(l: Layout, q: nat)
    requires q < Words(l)
    ensures IsSlot(l, SlotOf(l, q)) && WordAt(l, SlotOf(l, q)) == q
  {
    if l.cyclic {
      QuotRem(q, l.partitions);
      CyclicFits(q, Words(l), l.partitions);
    } else {
      var h := Holder(l, 0, q);
      assert FirstWord(l, h + 1) == FirstWord(l, h) + WordsIn(l, h);
    }
  }

  lemma CyclicBack(block: nat, part: nat, w: nat, n: nat)
    requires part < n && block < Quot(w, n) + if part < Rem(w, n) then 1 else 0
    ensures Steps(n, block) + part < w
  {
    QuotRem(w, n);
    if block < Quot(w, n) { StepsGrow(n, block + 1, Quot(w, n)); }
  }

  /** Every slot has a word, and the word leads back to the slot: the map is a bijection. */
  lemma SlotRoundTrip(l: Layout, s: Slot)
    requires IsSlot(l, s)
    ensures WordAt(l, s) < Words(l) && SlotOf(l, WordAt(l, s)) == s
  {
    var n := l.partitions;
    if l.cyclic {
      CyclicBack(s.block, s.part, Words(l), n);
      QuotOf(n, s.block, s.part);
    } else {
      var q := WordAt(l, s);
      FirstWordGrows(l, s.part + 1, n);
      WordsAddUp(l);
      var h := Holder(l, 0, q);
      if h < s.part { FirstWordGrows(l, h + 1, s.part); }
      if s.part < h { FirstWordGrows(l, s.part + 1, h); }
    }
  }

  // ----- what the layout is for

  /** The words are spread as evenly as can be: no two partitions differ by more than one, the longer ones first. */
  lemma SpreadEvenly(l: Layout, p: nat, q: nat)
    requires p <= q < l.partitions
    ensures WordsIn(l, q) <= WordsIn(l, p) <= WordsIn(l, q) + 1
    ensures l.total / l.word / l.partitions <= WordsIn(l, q)
    ensures WordsIn(l, p) == l.total / l.word / l.partitions + 1 <==> p < (l.total / l.word) % l.partitions
  {
    QuotDivides(l.total, l.word);
    QuotDivides(Words(l), l.partitions);
  }

  /** A cyclic layout deals the words out one by one. */
  lemma CyclicDeals(l: Layout, q: nat)
    requires l.cyclic && q < Words(l)
    ensures SlotOf(l, q) == Slot(q % l.partitions, q / l.partitions)
  {
    QuotDivides(q, l.partitions);
  }

  /** A block layout keeps neighbours together: the next word is in the next block, or first in a later partition
      with all the partitions in between empty. */
  lemma BlockKeepsOrder(l: Layout, q: nat)
    requires !l.cyclic && q + 1 < Words(l)
    ensures var s, t := SlotOf(l, q), SlotOf(l, q + 1);
      || t == Slot(s.part, s.block + 1)
      || (t.part > s.part && t.block == 0 && s.block == WordsIn(l, s.part) - 1)
  {
    var s, t := SlotOf(l, q), SlotOf(l, q + 1);
    if t.part < s.part { FirstWordGrows(l, t.part + 1, s.part); }
    if t.part > s.part { FirstWordGrows(l, s.part + 1, t.part); }
  }
}
