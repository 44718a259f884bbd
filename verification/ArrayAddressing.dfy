/** From an address to a block, with the widths of the source: the partition is looked up with the offset
    cut to 32 bits, the block index with the whole 64-bit offset, cut to 32 bits afterwards. */
module ArrayAddressing {
  import opened Arithmetic
  import opened PartitionLayout

  type Addr = x: int | 0 <= x < 0x1_0000_0000_0000_0000

  /** The conversion to 64 bits, and to 32. */
  function Low64(x: int): Addr {
    x % 0x1_0000_0000_0000_0000
  }

  function Low32(x: int): (r: nat)
    ensures r < 0x1_0000_0000
  {
    x % 0x1_0000_0000
  }

  /** The conversion of a 64-bit difference to `int`. */
  function Int32(x: int): (r: int)
    ensures -0x8000_0000 <= r < 0x8000_0000
  {
    if Low32(x) < 0x8000_0000 then Low32(x) else Low32(x) - 0x1_0000_0000
  }

  /** `OutOfBounds` and `BadLength` are exceptions, `Aborted` is a failed assertion. */
  datatype Status = Done | BadLength | OutOfBounds | Aborted

  datatype Lookup = Found(slot: Slot) | NotFound(status: Status)

  datatype PartLookup = Part(index: nat) | NoPart(status: Status)

  /** Where the byte at offset `rel` lives: out of bounds beyond the declared size; the bytes behind
      the last whole word belong to no block. */
  function Resolve(l: Layout, rel: int): Lookup {
    if rel < 0 || rel >= l.total then NotFound(OutOfBounds)
    else if Quot(rel, l.word) < Words(l) then Found(SlotOf(l, Quot(rel, l.word)))
    else NotFound(Aborted)
  }

  /** What the partition lookup answers for an in-range offset. */
  ghost function PartOf(l: Layout, rel: nat): PartLookup {
    if Quot(rel, l.word) < Words(l) then Part(SlotOf(l, Quot(rel, l.word)).part)
    else if l.cyclic then Part(Rem(Words(l), l.partitions))
    else if rel > Steps(l.word, Words(l)) then NoPart(Aborted)
    else Part(l.partitions - 1)
  }

  /** What the partition lookup answers for any offset. */
  ghost function PartAt(l: Layout, x: int): PartLookup {
    if Int32(x) < 0 || Int32(x) >= l.total then NoPart(OutOfBounds) else PartOf(l, Int32(x))
  }

  /** Where the offsets of partition `part` start to count. */
  ghost function Start(l: Layout, part: nat): nat {
    if l.cyclic then 0 else Steps(l.word, FirstWord(l, part))
  }

  /** The block index at offset `y` from the start. */
  ghost function BlockFrom(l: Layout, y: nat): nat {
    if l.cyclic then Quot(Quot(y, l.word), l.partitions) else Quot(y, l.word)
  }

  /** The block index that goes with partition `part`, for the offset `x` of an address. */
  ghost function BlockAt(l: Layout, part: nat, x: int): nat {
    BlockFrom(l, Low64(x - Start(l, part)))
  }

  /** The check that a block exists, on its index cut to 32 bits. */
  ghost function Checked(l: Layout, part: nat, block: nat): Lookup {
    if Low32(block) < WordsIn(l, part) then Found(Slot(part, Low32(block))) else NotFound(Aborted)
  }

  /** What an access at offset `x` finds, whatever the offset. */
  ghost function ResolveAny(l: Layout, x: int): Lookup {
    match PartAt(l, x)
    case NoPart(status) => NotFound(status)
    case Part(p) => Checked(l, p, BlockAt(l, p, x))
  }

  /** Offsets count modulo 2^64. */
  lemma OffsetsWrap(l: Layout, x: int, y: int)
    requires Low64(x) == Low64(y)
    ensures ResolveAny(l, x) == ResolveAny(l, y)
  {
    assert Low32(x) == Low32(y) by { SameLow(x, y, 0); }
    if PartAt(l, x).Part? { SameLow(x, y, Start(l, PartAt(l, x).index)); }
  }

  lemma SameLow(x: int, y: int, s: int)
    requires Low64(x) == Low64(y)
    ensures Low64(x - s) == Low64(y - s) && Low32(x) == Low32(y)
  {
    var k := Apart(x, y);
    WrapAround(y, k);
    WrapAround(y - s, k);
    assert x - s == y - s + 0x1_0000_0000_0000_0000 * k;
  }

  lemma Apart(x: int, y: int) returns (k: int)
    requires Low64(x) == Low64(y)
    ensures x == y + 0x1_0000_0000_0000_0000 * k
  {
    k := x / 0x1_0000_0000_0000_0000 - y / 0x1_0000_0000_0000_0000;
  }

  lemma WrapAround(y: int, k: int)
    ensures Low64(y + 0x1_0000_0000_0000_0000 * k) == Low64(y)
    ensures Low32(y + 0x1_0000_0000_0000_0000 * k) == Low32(y)
  {
    var q, p := y / 0x1_0000_0000_0000_0000, y / 0x1_0000_0000;
    WidePart(q + k, Low64(y));
    LowPart(p + 0x1_0000_0000 * k, Low32(y));
    assert y + 0x1_0000_0000_0000_0000 * k == 0x1_0000_0000_0000_0000 * (q + k) + Low64(y);
    assert y + 0x1_0000_0000_0000_0000 * k == 0x1_0000_0000 * (p + 0x1_0000_0000 * k) + Low32(y);
  }

  lemma WidePart(k: int, z: Addr)
    ensures Low64(0x1_0000_0000_0000_0000 * k + z) == z
  {
    var p := (0x1_0000_0000_0000_0000 * k + z) / 0x1_0000_0000_0000_0000;
    assert p == k;
  }

  lemma LowPart(k: int, z: nat)
    requires z < 0x1_0000_0000
    ensures Low32(0x1_0000_0000 * k + z) == z
  {
    var p := (0x1_0000_0000 * k + z) / 0x1_0000_0000;
    assert p == k;
  }

  /** A base may wrap before it is subtracted. */
  lemma LowOfDifference(a: int, b: int)
    ensures Low64(a - Low64(b)) == Low64(a - b)
  {
    SameLow(Low64(b), b, a);
    Opposite(Low64(b) - a, b - a);
  }

  lemma Opposite(x: int, y: int)
    requires Low64(x) == Low64(y)
    ensures Low64(-x) == Low64(-y)
  {
    var k := Apart(x, y);
    WrapAround(-y, -k);
  }

  lemma LowOfSum(a: int, b: int, c: int)
    requires c == a + b
    ensures Low64(Low64(a) + b) == Low64(c)
  {
    SameLow(Low64(a), a, -b);
  }

  // ----- words and offsets

  /** The only word index behind the last whole word is `Words(l)`. */
  lemma TailWord(l: Layout, rel: nat)
    requires rel < l.total && Quot(rel, l.word) >= Words(l)
    ensures Quot(rel, l.word) == Words(l) && rel >= Steps(l.word, Words(l))
  {
    QuotMonotone(rel, l.total, l.word);
    QuotBound(rel, l.word, Words(l));
  }

  lemma BeforeTail(l: Layout, rel: nat)
    requires Quot(rel, l.word) < Words(l)
    ensures rel < Steps(l.word, Words(l)) <= l.total
  {
    QuotBound(rel, l.word, Words(l));
    QuotRem(l.total, l.word);
  }

  lemma WordsBack(rel: nat, w: nat, n: nat)
    requires w > 0 && Steps(w, n) <= rel
    ensures Quot(rel - Steps(w, n), w) == Quot(rel, w) - n
  {
    QuotSteps(rel - Steps(w, n), w, n);
  }

  lemma PartExists(l: Layout, rel: nat)
    requires rel < l.total && PartOf(l, rel).Part?
    ensures PartOf(l, rel).index < l.partitions
  {
    if Quot(rel, l.word) < Words(l) { WordRoundTrip(l, Quot(rel, l.word)); } else { QuotRem(Words(l), l.partitions); }
  }

  /** What is found is a block that exists. */
  lemma FoundExists(l: Layout, x: int)
    requires ResolveAny(l, x).Found?
    ensures IsSlot(l, ResolveAny(l, x).slot)
  {
    PartExists(l, Int32(x));
  }

  // ----- offsets that fit 32 bits

  lemma StartBefore(l: Layout, rel: nat)
    requires rel < l.total && PartOf(l, rel).Part?
    ensures Start(l, PartOf(l, rel).index) <= rel
  {
    if !l.cyclic {
      var p := PartOf(l, rel).index;
      if Quot(rel, l.word) < Words(l) {
        QuotBound(rel, l.word, FirstWord(l, p));
      } else {
        TailWord(l, rel);
        FirstWordGrows(l, p, l.partitions);
        WordsAddUp(l);
        StepsGrow(l.word, FirstWord(l, p), Words(l));
      }
    }
  }

  /** The block index of an offset in the array. */
  ghost function BlockOf(l: Layout, part: nat, rel: nat): int {
    if l.cyclic then Quot(Quot(rel, l.word), l.partitions) else Quot(rel, l.word) - FirstWord(l, part)
  }

  lemma BlockBack(l: Layout, part: nat, rel: nat)
    requires Start(l, part) <= rel
    ensures BlockFrom(l, rel - Start(l, part)) == BlockOf(l, part, rel) <= rel
  {
    QuotRem(rel, l.word);
    if l.cyclic { QuotRem(Quot(rel, l.word), l.partitions); } else { WordsBack(rel, l.word, FirstWord(l, part)); }
  }

  /** There, nothing wraps. */
  lemma BlockInRange(l: Layout, rel: nat)
    requires rel < l.total && PartOf(l, rel).Part?
    ensures BlockAt(l, PartOf(l, rel).index, rel) == BlockOf(l, PartOf(l, rel).index, rel) <= rel
  {
    StartBefore(l, rel);
    BlockBack(l, PartOf(l, rel).index, rel);
  }

  /** The block of a word is the one its slot names; the block of the tail is one too many. */
  lemma BlockOfPart(l: Layout, rel: nat)
    requires rel < l.total && PartOf(l, rel).Part?
    ensures var q, p := Quot(rel, l.word), PartOf(l, rel).index;
      if q < Words(l) then SlotOf(l, q) == Slot(p, BlockOf(l, p, rel)) && BlockOf(l, p, rel) < WordsIn(l, p)
      else BlockOf(l, p, rel) == WordsIn(l, p)
  {
    var q := Quot(rel, l.word);
    if q < Words(l) {
      WordRoundTrip(l, q);
    } else {
      TailWord(l, rel);
      WordsAddUp(l);
    }
  }

  lemma BlockSmall(l: Layout, rel: nat)
    requires rel < l.total && PartOf(l, rel).Part?
    ensures 0 <= BlockOf(l, PartOf(l, rel).index, rel) < 0x8000_0000
  {
    BlockInRange(l, rel);
  }

  lemma BlockChecked(l: Layout, rel: nat, block: nat)
    requires rel < l.total && PartOf(l, rel).Part? && Low32(block) == BlockOf(l, PartOf(l, rel).index, rel)
    ensures Checked(l, PartOf(l, rel).index, block) == Resolve(l, rel)
  {
    BlockOfPart(l, rel);
  }

  /** Partition lookup, block index and block check together resolve an offset to its word's block. */
  lemma InRangeResolves(l: Layout, rel: nat)
    requires rel < l.total
    ensures ResolveAny(l, rel) == Resolve(l, rel)
  {
    if PartOf(l, rel).Part? {
      BlockInRange(l, rel);
      BlockChecked(l, rel, BlockAt(l, PartOf(l, rel).index, rel));
    }
  }

  /** For offsets of 32 bits every access outside the array is detected, every one inside is resolved. */
  lemma SmallOffsetsResolve(l: Layout, x: int)
    requires -0x8000_0000 <= x < 0x8000_0000
    ensures ResolveAny(l, x) == Resolve(l, x)
  {
    if 0 <= x < l.total { InRangeResolves(l, x); } else { assert Int32(x) == x; }
  }

  // ----- any offset

  /** Below 4 GiB every access outside the array is detected. */
  lemma DetectedBelow4GiB(l: Layout, x: int)
    requires l.total <= x < 0x1_0000_0000
    ensures ResolveAny(l, x) == NotFound(OutOfBounds)
  {
  }

  /** The bytes one block index covers: a word, or a word of every partition. */
  function Unit(l: Layout): (u: nat)
    ensures u > 0
  {
    if l.cyclic then UnitPositive(l); Steps(l.word, l.partitions) else l.word
  }

  lemma UnitPositive(l: Layout)
    ensures Steps(l.word, l.partitions) > 0
  {
    StepsGrow(l.word, 1, l.partitions);
    assert Steps(l.word, 1) == l.word;
  }

  /** A block index counts units. */
  lemma BlockIsQuot(l: Layout, y: nat)
    ensures BlockFrom(l, y) == Quot(y, Unit(l))
  {
    if l.cyclic { QuotQuot(y, l.word, l.partitions); }
  }

  lemma QuotQuot(y: nat, w: nat, n: nat)
    requires w > 0 && n > 0 && Steps(w, n) > 0
    ensures Quot(Quot(y, w), n) == Quot(y, Steps(w, n))
  {
    var q := Quot(y, w);
    var k, m := Quot(q, n), Rem(q, n);
    QuotRem(y, w);
    QuotRem(q, n);
    StepsAdd(w, Steps(n, k), m);
    StepsOfSteps(w, n, k);
    StepsGrow(w, m + 1, n);
    QuotOf(Steps(w, n), k, Steps(w, m) + Rem(y, w));
  }

  /** A block that exists begins inside the array. */
  lemma BlockBegins(l: Layout, part: nat, b: nat)
    requires part < l.partitions && b < WordsIn(l, part)
    ensures Steps(Unit(l), b) < 0x8000_0000
  {
    var q := WordAt(l, Slot(part, b));
    SlotRoundTrip(l, Slot(part, b));
    if l.cyclic { StepsOfSteps(l.word, l.partitions, b); }
    StepsGrow(l.word, if l.cyclic then Steps(l.partitions, b) else b, q);
    StepsGrow(l.word, q, Words(l));
    QuotRem(l.total, l.word);
  }

  /** Units counted for an offset and cut to 32 bits, if they end up inside the array, are those of the low 32 bits
      of the offset. */
  lemma CutBlock(u: nat, y: nat, r: nat)
    requires u > 0 && Low32(y) == r < 0x8000_0000 && Steps(u, Low32(Quot(y, u))) < 0x8000_0000
    ensures Low32(Quot(y, u)) == Quot(r, u)
  {
    var k, b := CutParts(u, y);
    var z := Steps(u, b) + Rem(y, u);
    if b > 0 { StepsGrow(u, 1, b); }
    if z < 0x1_0000_0000 {
      LowPart(k, z);
      QuotOf(u, b, Rem(y, u));
    }
  }

  lemma CutParts(u: nat, y: nat) returns (k: nat, b: nat)
    requires u > 0
    ensures b == Low32(Quot(y, u)) && Rem(y, u) < u
    ensures y == 0x1_0000_0000 * k + (Steps(u, b) + Rem(y, u))
    ensures 0x1_0000_0000 * k == Steps(u, Quot(y, u) - b)
  {
    var q := Quot(y, u);
    b := Low32(q);
    var j := q / 0x1_0000_0000;
    assert q == 0x1_0000_0000 * j + b;
    QuotRem(y, u);
    StepsAdd(u, 0x1_0000_0000 * j, b);
    k := StepsWhole(u, j);
  }

  lemma StepsWhole(u: nat, j: nat) returns (k: nat)
    ensures Steps(u, 0x1_0000_0000 * j) == 0x1_0000_0000 * k
  {
    NonNegative(j, u);
    k := j * u;
    StepsMultiply(u, 0x1_0000_0000 * j);
    assert 0x1_0000_0000 * j * u == 0x1_0000_0000 * k;
  }

  /** The offset counts the units of its low 32 bits, modulo 2^32. */
  predicate LooksAlike(l: Layout, x: Addr) {
    Low32(Quot(x, Unit(l))) == Quot(Low32(x), Unit(l))
  }

  lemma AlikeInPart(l: Layout, x: Addr, r: nat, part: nat)
    requires r == Low32(x) < 0x8000_0000 && Start(l, part) <= r
    ensures Low32(x - Start(l, part)) == r - Start(l, part)
    ensures LooksAlike(l, x) <==> Low32(Quot(x - Start(l, part), Unit(l))) == Quot(r - Start(l, part), Unit(l))
  {
    LowMinus(x, r, Start(l, part));
    if !l.cyclic { AlikeBehind(x, r, l.word, FirstWord(l, part)); }
  }

  lemma AlikeBehind(x: nat, r: nat, w: nat, n: nat)
    requires w > 0 && Steps(w, n) <= r <= x && r < 0x8000_0000
    ensures Low32(Quot(x - Steps(w, n), w)) == Quot(r - Steps(w, n), w) <==> Low32(Quot(x, w)) == Quot(r, w)
  {
    WordsBack(x, w, n);
    WordsBack(r, w, n);
    QuotRem(r, w);
    LowMinus(Quot(x, w), Quot(r, w), n);
  }

  lemma LowMinus(x: nat, y: nat, n: nat)
    requires n <= x && n <= y < 0x1_0000_0000
    ensures Low32(x - n) == y - n <==> Low32(x) == y
  {
    var k := x / 0x1_0000_0000;
    assert x == 0x1_0000_0000 * k + Low32(x);
    if Low32(x) == y { LowPart(k, y - n); }
    var j := (x - n) / 0x1_0000_0000;
    assert x - n == 0x1_0000_0000 * j + Low32(x - n);
    if Low32(x - n) == y - n { LowPart(j, y); }
  }

  lemma BlocksAreQuots(l: Layout, x: Addr, r: nat, part: nat)
    requires Start(l, part) <= r <= x
    ensures BlockAt(l, part, x) == Quot(x - Start(l, part), Unit(l))
    ensures BlockOf(l, part, r) == Quot(r - Start(l, part), Unit(l))
  {
    BlockBack(l, part, r);
    BlockIsQuot(l, x - Start(l, part));
    BlockIsQuot(l, r - Start(l, part));
    assert Low64(x - Start(l, part)) == x - Start(l, part);
  }

  lemma EveryBlock(l: Layout, x: Addr, r: nat)
    requires r == Low32(x) < l.total && PartOf(l, r).Part?
    ensures var p := PartOf(l, r).index;
      Checked(l, p, BlockAt(l, p, x)) == if LooksAlike(l, x) then Resolve(l, r) else NotFound(Aborted)
  {
    var p := PartOf(l, r).index;
    PartExists(l, r);
    StartBefore(l, r);
    AlikeInPart(l, x, r, p);
    BlocksAreQuots(l, x, r, p);
    var y := x - Start(l, p);
    if LooksAlike(l, x) {
      BlockChecked(l, r, BlockAt(l, p, x));
    } else if Low32(Quot(y, Unit(l))) < WordsIn(l, p) {
      BlockBegins(l, p, Low32(Quot(y, Unit(l))));
      CutBlock(Unit(l), y, r - Start(l, p));
    }
  }

  /** What every 64-bit offset finds, in every layout: the word its low 32 bits name, if it looks like them, and
      an exception or an abort otherwise. No offset reaches another word. */
  lemma EveryOffset(l: Layout, x: Addr)
    ensures ResolveAny(l, x) ==
      if Low32(x) >= l.total || LooksAlike(l, x) then Resolve(l, Low32(x)) else NotFound(Aborted)
  {
    if Low32(x) < l.total && PartOf(l, Low32(x)).Part? { EveryBlock(l, x, Low32(x)); }
  }

  /** So an access outside the array goes undetected exactly if its low 32 bits name a whole word of the array and
      the offset counts the same number of units modulo 2^32. */
  lemma DetectedIff(l: Layout, x: Addr)
    requires l.total <= x
    ensures ResolveAny(l, x).NotFound? <==> !(Quot(Low32(x), l.word) < Words(l) && LooksAlike(l, x))
  {
    EveryOffset(l, x);
    if Quot(Low32(x), l.word) < Words(l) { BeforeTail(l, Low32(x)); }
  }

  /** An offset that lies a multiple of 2^32 units behind one in the array, however far outside, does. */
  lemma FarOffsetsAlias(l: Layout, r: nat, k: nat, x: Addr)
    requires r < l.total && x == r + Steps(Unit(l), 0x1_0000_0000 * k)
    ensures ResolveAny(l, x) == Resolve(l, r)
  {
    var m := StepsWhole(Unit(l), k);
    LowPart(m, r);
    QuotSteps(r, Unit(l), 0x1_0000_0000 * k);
    QuotRem(r, Unit(l));
    LowPart(k, Quot(r, Unit(l)));
    EveryOffset(l, x);
  }

  /** Units of up to 2 GiB: no other offset does. */
  lemma OnlyMultiplesAlias(l: Layout, x: Addr) returns (k: nat)
    requires Unit(l) <= 0x8000_0000 && Low32(x) < l.total && LooksAlike(l, x)
    ensures x == Low32(x) + Steps(Unit(l), 0x1_0000_0000 * k)
  {
    var u := Unit(l);
    var m, b := CutParts(u, x);
    QuotRem(Low32(x), u);
    LowPart(m, Steps(u, b) + Rem(x, u));
    k := Quot(x, u) / 0x1_0000_0000;
    assert Quot(x, u) - b == 0x1_0000_0000 * k;
  }

  /** A larger unit: 4 GiB behind the array, the first word is reached. */
  lemma LargeUnitsAlias()
    ensures var l := RawLayout(true, 0x10_0000, 0x4000_0000, 0x10_0000);
      Sized(l) && ResolveAny(l, 0x1_0000_0000) == Resolve(l, 0) == Found(SlotOf(l, 0))
  {
    var l: Layout := RawLayout(true, 0x10_0000, 0x4000_0000, 0x10_0000);
    var x: Addr := 0x1_0000_0000;
    StepsMultiply(l.word, l.partitions);
    EveryOffset(l, x);
  }

  // ----- seen from the flat array

  /** The word of the flat array that an offset reaches, or how looking for it ends. */
  datatype Where = At(word: nat) | Missing(status: Status)

  ghost function Find(l: Layout, x: int): Where {
    match ResolveAny(l, x)
    case Found(s) => At(WordAt(l, s))
    case NotFound(status) => Missing(status)
  }

  /** What it should be. */
  function Flat(l: Layout, rel: int): Where {
    if rel < 0 || rel >= l.total then Missing(OutOfBounds)
    else if Quot(rel, l.word) < Words(l) then At(Quot(rel, l.word))
    else Missing(Aborted)
  }

  lemma FlatResolves(l: Layout, rel: int)
    ensures match Resolve(l, rel)
      case Found(s) => Flat(l, rel) == At(WordAt(l, s))
      case NotFound(status) => Flat(l, rel) == Missing(status)
  {
    if 0 <= rel < l.total && Quot(rel, l.word) < Words(l) { WordRoundTrip(l, Quot(rel, l.word)); }
  }

  lemma MissingFails(l: Layout, x: int)
    requires Find(l, x).Missing?
    ensures Find(l, x).status == OutOfBounds || Find(l, x).status == Aborted
  {
  }

  lemma FoundIsWord(l: Layout, x: int)
    requires ResolveAny(l, x).Found?
    ensures var s := ResolveAny(l, x).slot;
      Find(l, x) == At(WordAt(l, s)) && WordAt(l, s) < Words(l) && SlotOf(l, WordAt(l, s)) == s
  {
    FoundExists(l, x);
    SlotRoundTrip(l, ResolveAny(l, x).slot);
  }

  /** For offsets of 32 bits it is. */
  lemma FindSmall(l: Layout, x: int)
    requires -0x8000_0000 <= x < 0x8000_0000
    ensures Find(l, x) == Flat(l, x)
  {
    SmallOffsetsResolve(l, x);
    FlatResolves(l, x);
  }

  lemma FindFar(l: Layout, r: nat, k: nat, x: Addr)
    requires r < l.total && x == r + Steps(Unit(l), 0x1_0000_0000 * k)
    ensures Find(l, x) == Find(l, r)
  {
    FarOffsetsAlias(l, r, k, x);
    InRangeResolves(l, r);
  }
}
