/** One pass of the blocked radix sort: clear, histogram, three-phase scan and scatter, all in
    place over arrays. `blocks` blocks of four keys; the scan works in `scanRadix` runs of `scanBlock`. */
module RadixPass {
  import opened Arithmetic
  import opened RadixGroups

  /** The histogram counts slot `s` at index `s + 1`, so it stays within `len` cells exactly when this holds. */
  ghost predicate WritesFit(slots: seq<nat>, len: nat) {
    forall i :: 0 <= i < |slots| ==> slots[i] + 1 < len
  }

  predicate NoThreeInLastBlock(a: seq<int>, exp: nat) {
    forall i :: 0 <= i < |a| && |a| - 4 <= i ==> Digit(a[i], exp) != 3
  }

  /** A bucket of the declared size `4 * blocks` is one cell short exactly when a key of the last block has digit 3. */
  lemma DeclaredBucketFitsIff(a: seq<int>, exp: nat, blocks: nat)
    requires |a| == KEYS_PER_BLOCK * blocks
    ensures WritesFit(Slots(a, exp, blocks), RADIX * blocks) <==> NoThreeInLastBlock(a, exp)
    ensures WritesFit(Slots(a, exp, blocks), RADIX * blocks + 1)
  {
    forall i | 0 <= i < |a|
      ensures Slots(a, exp, blocks)[i] + 1 <= RADIX * blocks
      ensures Slots(a, exp, blocks)[i] + 1 < RADIX * blocks <==> !(Digit(a[i], exp) == 3 && i >= |a| - 4)
    {
      SlotFits(a, exp, blocks, i);
      Times(Digit(a[i], exp), 3, blocks);
    }
  }

  // ----- histogram

  /** Among the first `total` cells, `h[s + 1]` counts slot `s` over the first `n` keys. */
  ghost predicate Counts(h: seq<int>, a: seq<int>, slots: seq<nat>, total: nat, n: nat)
    requires n <= |a| == |slots|
  {
    |h| >= total > 0 && h[0] == 0 && forall s :: 0 <= s < total - 1 ==> h[s + 1] == |Group(a, slots, n, s)|
  }

  method Init(bucket: array<int>, size: nat)
    requires size <= bucket.Length
    modifies bucket
    ensures forall k :: 0 <= k < size ==> bucket[k] == 0
  {
    for k := 0 to size
      invariant forall i :: 0 <= i < k ==> bucket[i] == 0
    {
      bucket[k] := 0;
    }
  }

  lemma CountStep(h: seq<int>, a: seq<int>, slots: seq<nat>, total: nat, n: nat)
    requires n < |a| == |slots| && slots[n] + 1 < |h| && Counts(h, a, slots, total, n)
    ensures Counts(h[slots[n] + 1 := h[slots[n] + 1] + 1], a, slots, total, n + 1)
  {
    var g, m := h[slots[n] + 1 := h[slots[n] + 1] + 1], n + 1;
    forall s | 0 <= s < total - 1 ensures g[s + 1] == |Group(a, slots, m, s)| {
      assert h[s + 1] == |Group(a, slots, n, s)|;
    }
  }

  method Hist(bucket: array<int>, a: array<int>, exp: nat, blocks: nat)
    requires bucket != a && a.Length == KEYS_PER_BLOCK * blocks
    requires bucket.Length >= RADIX * blocks > 0 && forall k :: 0 <= k < RADIX * blocks ==> bucket[k] == 0
    requires WritesFit(Slots(a[..], exp, blocks), bucket.Length)
    modifies bucket
    ensures Counts(bucket[..], a[..], Slots(a[..], exp, blocks), RADIX * blocks, a.Length)
  {
    ghost var keys := a[..];
    ghost var slots := Slots(keys, exp, blocks);
    for block := 0 to blocks
      invariant Counts(bucket[..], keys, slots, RADIX * blocks, 4 * block)
    {
      for mask := 0 to 4
        invariant Counts(bucket[..], keys, slots, RADIX * blocks, 4 * block + mask)
      {
        ghost var h := bucket[..];
        ghost var n := 4 * block + mask;
        CountStep(h, keys, slots, RADIX * blocks, n);
        var s := Digit(a[block * 4 + mask], exp) * blocks + block;
        assert s == slots[n] by { assert (4 * block + mask) / 4 == block; }
        bucket[s + 1] := bucket[s + 1] + 1;
        assert bucket[..] == h[s + 1 := h[s + 1] + 1];
      }
    }
  }

  // ----- scan

  function SumTo(h: seq<int>, k: nat): int
    requires k <= |h|
  {
    if k == 0 then 0 else SumTo(h, k - 1) + h[k - 1]
  }

  lemma {:induction false} CountsSumToStart(h: seq<int>, a: seq<int>, slots: seq<nat>, total: nat, j: nat)
    requires |a| == |slots| && Counts(h, a, slots, total, |a|) && j < total
    ensures SumTo(h, j + 1) == Start(a, slots, j)
    decreases j
  {
    if j > 0 { CountsSumToStart(h, a, slots, total, j - 1); }
  }

  /** The run of `size` cells from `base` on holds the inclusive sums of that run of `h`. */
  ghost predicate RunDone(c: seq<int>, h: seq<int>, base: nat, size: nat)
    requires |c| == |h|
  {
    base + size <= |h| && forall j :: base <= j < base + size ==> c[j] == SumTo(h, j + 1) - SumTo(h, base)
  }

  ghost predicate RunsDone(c: seq<int>, h: seq<int>, scanBlock: nat, r: nat) {
    |c| == |h| && forall q: nat :: q < r ==> RunAt(c, h, scanBlock, q)
  }

  ghost predicate RunAt(c: seq<int>, h: seq<int>, scanBlock: nat, q: nat)
    requires |c| == |h|
  {
    q * scanBlock >= 0 && RunDone(c, h, q * scanBlock, scanBlock)
  }

  ghost predicate SameOutside(d: seq<int>, c: seq<int>, base: nat, size: nat) {
    |d| == |c| && forall j :: 0 <= j < |c| && !(base <= j < base + size) ==> d[j] == c[j]
  }

  ghost predicate SameFrom(c: seq<int>, h: seq<int>, k: nat) {
    |c| == |h| && forall j :: k <= j < |h| ==> c[j] == h[j]
  }

  lemma RunIn(r: nat, scanRadix: nat, scanBlock: nat)
    requires r < scanRadix
    ensures r * scanBlock + scanBlock <= scanRadix * scanBlock
  {
    Times(r, scanRadix, scanBlock);
  }

  /** Scans the run of `size` cells from `base` on, in place. */
  method ScanRun(bucket: array<int>, base: nat, size: nat)
    requires size > 0 && base + size <= bucket.Length
    modifies bucket
    ensures RunDone(bucket[..], old(bucket[..]), base, size)
    ensures SameOutside(bucket[..], old(bucket[..]), base, size)
  {
    ghost var h := bucket[..];
    for i := 1 to size
      invariant forall j :: base <= j < base + i ==> bucket[j] == SumTo(h, j + 1) - SumTo(h, base)
      invariant forall j :: 0 <= j < bucket.Length && !(base <= j < base + i) ==> bucket[j] == h[j]
    {
      bucket[base + i] := bucket[base + i] + bucket[base + i - 1];
    }
  }

  lemma {:induction false} SumToSame(h: seq<int>, g: seq<int>, lo: nat, k: nat)
    requires lo <= k <= |h| == |g| && forall j :: lo <= j < k ==> h[j] == g[j]
    ensures SumTo(h, k) - SumTo(h, lo) == SumTo(g, k) - SumTo(g, lo)
    decreases k
  {
    if lo < k { SumToSame(h, g, lo, k - 1); }
  }

  method LocalScan(bucket: array<int>, scanRadix: nat, scanBlock: nat)
    requires scanBlock > 0 && scanRadix * scanBlock <= bucket.Length
    modifies bucket
    ensures RunsDone(bucket[..], old(bucket[..]), scanBlock, scanRadix)
    ensures SameFrom(bucket[..], old(bucket[..]), scanRadix * scanBlock)
  {
    ghost var h := bucket[..];
    for r := 0 to scanRadix
      invariant RunsDone(bucket[..], h, scanBlock, r)
      invariant SameFrom(bucket[..], h, r * scanBlock)
    {
      ghost var c := bucket[..];
      var base := r * scanBlock;
      RunIn(r, scanRadix, scanBlock);
      NonNegative(r, scanBlock);
      Distribute(r, 1, scanBlock);
      ScanRun(bucket, base, scanBlock);
      RunScanned(bucket[..], c, h, scanBlock, r, base);
    }
  }

  lemma RunScanned(d: seq<int>, c: seq<int>, h: seq<int>, scanBlock: nat, r: nat, base: nat)
    requires |d| == |c| == |h| && base == r * scanBlock
    requires RunsDone(c, h, scanBlock, r) && SameFrom(c, h, base)
    requires RunDone(d, c, base, scanBlock) && SameOutside(d, c, base, scanBlock)
    ensures RunsDone(d, h, scanBlock, r + 1) && SameFrom(d, h, base + scanBlock)
  {
    assert RunDone(d, h, base, scanBlock) by {
      forall j | base <= j < base + scanBlock ensures d[j] == SumTo(h, j + 1) - SumTo(h, base) {
        SumToSame(c, h, base, j + 1);
      }
    }
    assert RunAt(d, h, scanBlock, r);
    forall q: nat | q < r ensures RunAt(d, h, scanBlock, q) {
      RunIn(q, r, scanBlock);
      assert RunAt(c, h, scanBlock, q);
      RunKept(d, c, h, q * scanBlock, scanBlock, base);
    }
  }

  lemma RunKept(d: seq<int>, c: seq<int>, h: seq<int>, lo: nat, size: nat, base: nat)
    requires |d| == |c| == |h| && lo + size <= base
    requires RunDone(c, h, lo, size) && SameOutside(d, c, base, size)
    ensures RunDone(d, h, lo, size)
  {
  }

  /** The running sum of the runs' totals. */
  method SumScan(sum: array<int>, bucket: array<int>, scanRadix: nat, scanBlock: nat, ghost h: seq<int>)
    requires sum != bucket && sum.Length == scanRadix > 0 && scanBlock > 0 && |h| == bucket.Length
    requires RunsDone(bucket[..], h, scanBlock, scanRadix)
    modifies sum
    ensures forall r: nat :: r < scanRadix ==> r * scanBlock <= |h| && sum[r] == SumTo(h, r * scanBlock)
  {
    sum[0] := 0;
    for r := 1 to scanRadix
      invariant forall q: nat :: q < r ==> q * scanBlock <= |h| && sum[q] == SumTo(h, q * scanBlock)
    {
      ghost var base := (r - 1) * scanBlock;
      assert r * scanBlock == base + scanBlock;
      assert RunAt(bucket[..], h, scanBlock, r - 1);
      sum[r] := sum[r - 1] + bucket[r * scanBlock - 1];
    }
  }

  /** Adds `x` to every cell of a run. */
  method RaiseRun(bucket: array<int>, base: nat, size: nat, x: int)
    requires base + size <= bucket.Length
    modifies bucket
    ensures forall j :: base <= j < base + size ==> bucket[j] == old(bucket[j]) + x
    ensures SameOutside(bucket[..], old(bucket[..]), base, size)
  {
    ghost var h := bucket[..];
    for i := 0 to size
      invariant forall j :: base <= j < base + i ==> bucket[j] == h[j] + x
      invariant forall j :: 0 <= j < bucket.Length && !(base <= j < base + i) ==> bucket[j] == h[j]
    {
      bucket[base + i] := bucket[base + i] + x;
    }
  }

  /** Every cell below `k` holds the inclusive sum of `h` up to it. */
  ghost predicate Summed(c: seq<int>, h: seq<int>, k: nat) {
    |c| == |h| && forall j :: 0 <= j < k && j < |h| ==> c[j] == SumTo(h, j + 1)
  }

  lemma RunRaised(d: seq<int>, c: seq<int>, l: seq<int>, h: seq<int>, size: nat, base: nat)
    requires |d| == |c| == |l| == |h| && Summed(c, h, base) && SameFrom(c, l, base) && RunDone(l, h, base, size)
    requires SameOutside(d, c, base, size) && forall j :: base <= j < base + size ==> d[j] == c[j] + SumTo(h, base)
    ensures Summed(d, h, base + size) && SameFrom(d, l, base + size)
  {
  }

  method LastStepScan(bucket: array<int>, sum: array<int>, scanRadix: nat, scanBlock: nat, ghost h: seq<int>)
    requires sum != bucket && sum.Length == scanRadix && |h| == bucket.Length
    requires RunsDone(bucket[..], h, scanBlock, scanRadix)
    requires forall r: nat :: r < scanRadix ==> r * scanBlock <= |h| && sum[r] == SumTo(h, r * scanBlock)
    modifies bucket
    ensures Summed(bucket[..], h, scanRadix * scanBlock)
  {
    ghost var l := bucket[..];
    for r := 0 to scanRadix
      invariant Summed(bucket[..], h, r * scanBlock)
      invariant SameFrom(bucket[..], l, r * scanBlock)
    {
      ghost var c := bucket[..];
      assert RunAt(l, h, scanBlock, r);
      RaiseRun(bucket, r * scanBlock, scanBlock, sum[r]);
      RunRaised(bucket[..], c, l, h, scanBlock, r * scanBlock);
      assert (r + 1) * scanBlock == r * scanBlock + scanBlock;
    }
  }

  // ----- scatter

  /** The slots up to `total` take all keys. */
  ghost predicate Slotted(a: seq<int>, slots: seq<nat>, total: nat) {
    && |a| == |slots|
    && (forall i :: 0 <= i < |slots| ==> slots[i] < total)
    && Start(a, slots, total) == |a|
  }

  /** Each slot's cursor stands behind the keys already placed. */
  ghost predicate Cursors(c: seq<int>, a: seq<int>, slots: seq<nat>, total: nat, n: nat)
    requires n <= |a| == |slots|
  {
    |c| >= total && forall s: nat :: s < total ==> CursorAt(c, a, slots, n, s)
  }

  ghost predicate CursorAt(c: seq<int>, a: seq<int>, slots: seq<nat>, n: nat, s: nat)
    requires n <= |a| == |slots| && s < |c|
  {
    c[s] == Start(a, slots, s) + |Group(a, slots, n, s)|
  }

  ghost predicate Holds(b: seq<int>, start: nat, g: seq<int>) {
    start + |g| <= |b| && b[start..start + |g|] == g
  }

  ghost predicate SlotHolds(b: seq<int>, a: seq<int>, slots: seq<nat>, n: nat, s: nat)
    requires n <= |a| == |slots|
  {
    Holds(b, Start(a, slots, s), Group(a, slots, n, s))
  }

  /** The first `n` keys are in place. */
  ghost predicate Placed(b: seq<int>, a: seq<int>, slots: seq<nat>, total: nat, n: nat)
    requires n <= |a| == |slots|
  {
    |b| == |a| && forall s :: 0 <= s < total ==> SlotHolds(b, a, slots, n, s)
  }

  /** The next key's place lies inside its own slot. */
  lemma PlaceInSlot(a: seq<int>, slots: seq<nat>, total: nat, n: nat)
    requires Slotted(a, slots, total) && n < |a|
    ensures Start(a, slots, slots[n]) + |Group(a, slots, n, slots[n])| < Start(a, slots, slots[n] + 1) <= |a|
  {
    var s := slots[n];
    GroupGrows(a, slots, n + 1, |a|, s);
    assert |Group(a, slots, n + 1, s)| == |Group(a, slots, n, s)| + 1;
    assert Start(a, slots, s + 1) == Start(a, slots, s) + |Group(a, slots, |a|, s)|;
    StartGrows(a, slots, s + 1, total);
  }

  lemma PlaceKeeps(b: seq<int>, a: seq<int>, slots: seq<nat>, total: nat, n: nat, pos: nat, t: nat)
    requires Slotted(a, slots, total) && |a| == |b| && n < |a| && t < total
    requires SlotHolds(b, a, slots, n, t)
    requires pos == Start(a, slots, slots[n]) + |Group(a, slots, n, slots[n])| < |b|
    ensures SlotHolds(b[pos := a[n]], a, slots, n + 1, t)
  {
    var s, from, g := slots[n], Start(a, slots, t), Group(a, slots, n, t);
    if t == s {
      assert Group(a, slots, n + 1, t) == g + [a[n]];
      assert b[pos := a[n]][from..pos + 1] == g + [a[n]];
    } else {
      assert Group(a, slots, n + 1, t) == g;
      PlaceInSlot(a, slots, total, n);
      if t < s { StartGrows(a, slots, t + 1, s); } else { StartGrows(a, slots, s + 1, t); }
      GroupGrows(a, slots, n, |a|, t);
      assert b[pos := a[n]][from..from + |g|] == b[from..from + |g|];
    }
  }

  /** Writing the next key at its cursor and moving the cursor on. */
  lemma PlaceStep(b: seq<int>, c: seq<int>, a: seq<int>, slots: seq<nat>, total: nat, n: nat)
    requires Slotted(a, slots, total) && n < |a| && Placed(b, a, slots, total, n) && Cursors(c, a, slots, total, n)
    ensures 0 <= c[slots[n]] < |b|
    ensures Placed(b[c[slots[n]] := a[n]], a, slots, total, n + 1)
    ensures Cursors(c[slots[n] := c[slots[n]] + 1], a, slots, total, n + 1)
  {
    PlaceInSlot(a, slots, total, n);
    assert CursorAt(c, a, slots, n, slots[n]);
    var after, m := b[c[slots[n]] := a[n]], n + 1;
    var next := c[slots[n] := c[slots[n]] + 1];
    forall s: nat | s < total ensures CursorAt(next, a, slots, m, s) { assert CursorAt(c, a, slots, n, s); }
    forall t | 0 <= t < total ensures SlotHolds(after, a, slots, m, t) {
      PlaceKeeps(b, a, slots, total, n, c[slots[n]], t);
    }
  }

  lemma Joined(b: seq<int>, from: nat, f: seq<int>, g: seq<int>)
    requires Holds(b, 0, f) && Holds(b, from, g) && from == |f|
    ensures Holds(b, 0, f + g)
  {
    assert b[0..from + |g|] == b[0..from] + b[from..from + |g|];
  }

  lemma {:induction false} PlacedIsFlat(b: seq<int>, a: seq<int>, slots: seq<nat>, total: nat, s: nat)
    requires |a| == |slots| && Placed(b, a, slots, total, |a|) && s <= total
    ensures Holds(b, 0, Flat(a, slots, s))
    decreases s
  {
    if s > 0 {
      PlacedIsFlat(b, a, slots, total, s - 1);
      assert SlotHolds(b, a, slots, |a|, s - 1);
      PlacedNext(b, a, slots, s - 1);
    }
  }

  lemma PlacedNext(b: seq<int>, a: seq<int>, slots: seq<nat>, s: nat)
    requires |a| == |slots| && Holds(b, 0, Flat(a, slots, s)) && SlotHolds(b, a, slots, |a|, s)
    ensures Holds(b, 0, Flat(a, slots, s + 1))
  {
    Joined(b, Start(a, slots, s), Flat(a, slots, s), Group(a, slots, |a|, s));
  }

  lemma PlacedStablySorted(b: seq<int>, a: seq<int>, exp: nat, blocks: nat)
    requires |a| == KEYS_PER_BLOCK * blocks && Placed(b, a, Slots(a, exp, blocks), RADIX * blocks, |a|)
    ensures StablySorted(a, b, exp)
  {
    PlacedIsFlat(b, a, Slots(a, exp, blocks), RADIX * blocks, RADIX * blocks);
    FlatStablySorted(a, exp, blocks);
    assert b[0..|b|] == b;
  }

  method PlaceKey(b: array<int>, bucket: array<int>, a: array<int>, exp: nat, blocks: nat, i: nat, block: nat,
                  ghost slots: seq<nat>)
    requires a != b && a != bucket && b != bucket && i < a.Length && block == i / 4
    requires slots == Slots(a[..], exp, blocks) && Slotted(a[..], slots, RADIX * blocks)
    requires Placed(b[..], a[..], slots, RADIX * blocks, i) && Cursors(bucket[..], a[..], slots, RADIX * blocks, i)
    modifies b, bucket
    ensures Placed(b[..], a[..], slots, RADIX * blocks, i + 1)
    ensures Cursors(bucket[..], a[..], slots, RADIX * blocks, i + 1)
  {
    ghost var before, c := b[..], bucket[..];
    PlaceStep(before, c, a[..], slots, RADIX * blocks, i);
    var value := a[i];
    var s := Digit(value, exp) * blocks + block;
    assert s == slots[i];
    var pos := bucket[s];
    b[pos] := value;
    bucket[s] := pos + 1;
    assert b[..] == before[pos := value] && bucket[..] == c[s := pos + 1];
  }

  /** Moves every key to its slot's cursor. */
  method Update(b: array<int>, bucket: array<int>, a: array<int>, exp: nat, blocks: nat)
    requires a != b && a != bucket && b != bucket && a.Length == b.Length == KEYS_PER_BLOCK * blocks
    requires Slotted(a[..], Slots(a[..], exp, blocks), RADIX * blocks)
    requires Cursors(bucket[..], a[..], Slots(a[..], exp, blocks), RADIX * blocks, 0)
    modifies b, bucket
    ensures Placed(b[..], a[..], Slots(a[..], exp, blocks), RADIX * blocks, a.Length)
  {
    ghost var keys := a[..];
    ghost var slots := Slots(keys, exp, blocks);
    NothingPlaced(b[..], keys, slots, RADIX * blocks);
    for block := 0 to blocks
      invariant a[..] == keys && Placed(b[..], keys, slots, RADIX * blocks, 4 * block)
      invariant Cursors(bucket[..], keys, slots, RADIX * blocks, 4 * block)
    {
      UpdateBlock(b, bucket, a, exp, blocks, block, slots);
    }
  }

  method UpdateBlock(b: array<int>, bucket: array<int>, a: array<int>, exp: nat, blocks: nat, block: nat,
                     ghost slots: seq<nat>)
    requires a != b && a != bucket && b != bucket && block < blocks && a.Length == KEYS_PER_BLOCK * blocks
    requires slots == Slots(a[..], exp, blocks) && Slotted(a[..], slots, RADIX * blocks)
    requires Placed(b[..], a[..], slots, RADIX * blocks, 4 * block)
    requires Cursors(bucket[..], a[..], slots, RADIX * blocks, 4 * block)
    modifies b, bucket
    ensures Placed(b[..], a[..], slots, RADIX * blocks, 4 * block + 4)
    ensures Cursors(bucket[..], a[..], slots, RADIX * blocks, 4 * block + 4)
  {
    for mask := 0 to 4
      invariant Placed(b[..], a[..], slots, RADIX * blocks, 4 * block + mask)
      invariant Cursors(bucket[..], a[..], slots, RADIX * blocks, 4 * block + mask)
    {
      PlaceKey(b, bucket, a, exp, blocks, 4 * block + mask, block, slots);
    }
  }

  lemma NothingPlaced(b: seq<int>, a: seq<int>, slots: seq<nat>, total: nat)
    requires |b| == |a| && Slotted(a, slots, total)
    ensures Placed(b, a, slots, total, 0)
  {
    forall s | 0 <= s < total ensures SlotHolds(b, a, slots, 0, s) {
      StartGrows(a, slots, s, total);
    }
  }

  // ----- the pass

  /** Scans the whole bucket in runs: afterwards every cell holds the sum of the cells up to it. */
  method Scan(bucket: array<int>, sum: array<int>, scanRadix: nat, scanBlock: nat)
    requires sum != bucket && sum.Length == scanRadix > 0 && scanBlock > 0 && scanRadix * scanBlock <= bucket.Length
    modifies bucket, sum
    ensures Summed(bucket[..], old(bucket[..]), scanRadix * scanBlock)
  {
    ghost var h := bucket[..];
    LocalScan(bucket, scanRadix, scanBlock);
    SumScan(sum, bucket, scanRadix, scanBlock, h);
    LastStepScan(bucket, sum, scanRadix, scanBlock, h);
  }

  lemma ScannedIsCursors(c: seq<int>, h: seq<int>, a: seq<int>, slots: seq<nat>, total: nat)
    requires |a| == |slots| && Counts(h, a, slots, total, |a|) && Summed(c, h, total)
    ensures Cursors(c, a, slots, total, 0)
  {
    forall s: nat | s < total ensures CursorAt(c, a, slots, 0, s) {
      CountsSumToStart(h, a, slots, total, s);
    }
  }

  lemma AllSlotted(a: seq<int>, exp: nat, blocks: nat)
    requires |a| == KEYS_PER_BLOCK * blocks
    ensures Slotted(a, Slots(a, exp, blocks), RADIX * blocks)
  {
    FlatStablySorted(a, exp, blocks);
    forall i | 0 <= i < |a| ensures Slots(a, exp, blocks)[i] < RADIX * blocks { SlotFits(a, exp, blocks, i); }
  }

  /** `b` becomes `a` stably ordered by the digit at `exp`, whatever the bucket and the sums held. */
  method Pass(a: array<int>, b: array<int>, bucket: array<int>, sum: array<int>, exp: nat, blocks: nat,
              scanRadix: nat, scanBlock: nat)
    requires a != b && a != bucket && a != sum && b != bucket && b != sum && bucket != sum
    requires a.Length == b.Length == KEYS_PER_BLOCK * blocks && scanRadix * scanBlock == RADIX * blocks && blocks > 0
    requires sum.Length == scanRadix
    requires bucket.Length > RADIX * blocks || (bucket.Length == RADIX * blocks && NoThreeInLastBlock(a[..], exp))
    modifies b, bucket, sum
    ensures StablySorted(a[..], b[..], exp)
  {
    ghost var keys, slots := a[..], Slots(a[..], exp, blocks);
    DeclaredBucketFitsIff(keys, exp, blocks);
    AllSlotted(keys, exp, blocks);
    Init(bucket, RADIX * blocks);
    Hist(bucket, a, exp, blocks);
    ghost var h := bucket[..];
    Scan(bucket, sum, scanRadix, scanBlock);
    ScannedIsCursors(bucket[..], h, keys, slots, RADIX * blocks);
    Update(b, bucket, a, exp, blocks);
    PlacedStablySorted(b[..], keys, exp, blocks);
  }
}
