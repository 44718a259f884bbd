/** What one pass of the blocked radix sort means: keys fall into slots, one per pair of 2-bit
    digit and block of four keys, and the slots laid end to end are the keys stably ordered by digit. */
module RadixGroups {
  import opened Arithmetic

  const KEYS_PER_BLOCK := 4
  const RADIX := 4

  /** `x >> exp`, arithmetic: every bit shifted out halves, rounding down. */
  function Shift(x: int, exp: nat): int
    decreases exp
  {
    if exp == 0 then x else Shift(x / 2, exp - 1)
  }

  /** `(x >> exp) & 0x3`. */
  function Digit(x: int, exp: nat): (d: nat)
    ensures d < RADIX
  {
    Shift(x, exp) % RADIX
  }

  /** The keys of one digit, in order. */
  function Keys(a: seq<int>, exp: nat, d: nat): seq<int> {
    if a == [] then []
    else Keys(a[..|a| - 1], exp, d) + (if Digit(a[|a| - 1], exp) == d then [a[|a| - 1]] else [])
  }

  function Slot(a: seq<int>, exp: nat, blocks: nat, i: nat): nat
    requires i < |a|
  {
    Digit(a[i], exp) * blocks + i / KEYS_PER_BLOCK
  }

  lemma SlotFits(a: seq<int>, exp: nat, blocks: nat, i: nat)
    requires |a| == KEYS_PER_BLOCK * blocks && i < |a|
    ensures Slot(a, exp, blocks, i) < RADIX * blocks
  {
    assert Digit(a[i], exp) * blocks <= (RADIX - 1) * blocks;
  }

  /** Equal slots mean equal digit and equal block. */
  lemma SlotSplits(blocks: nat, d: nat, k: nat, e: nat, l: nat)
    requires k < blocks && l < blocks && d * blocks + k == e * blocks + l
    ensures d == e && k == l
  {
    Times(d, e, blocks);
    Times(e, d, blocks);
  }

  function Slots(a: seq<int>, exp: nat, blocks: nat): (r: seq<nat>)
    ensures |r| == |a|
  {
    seq(|a|, i requires 0 <= i < |a| => Slot(a, exp, blocks, i))
  }

  /** The keys among the first `n` that fall into slot `s`, in order. */
  function Group(a: seq<int>, slots: seq<nat>, n: nat, s: nat): seq<int>
    requires n <= |a| == |slots|
  {
    if n == 0 then []
    else Group(a, slots, n - 1, s) + (if slots[n - 1] == s then [a[n - 1]] else [])
  }

  /** Where slot `s` begins in the output. */
  function Start(a: seq<int>, slots: seq<nat>, s: nat): nat
    requires |a| == |slots|
  {
    if s == 0 then 0
    else Start(a, slots, s - 1) + |Group(a, slots, |a|, s - 1)|
  }

  /** Slots 0 up to `s`, laid end to end. */
  function Flat(a: seq<int>, slots: seq<nat>, s: nat): (r: seq<int>)
    requires |a| == |slots|
    ensures |r| == Start(a, slots, s)
  {
    if s == 0 then []
    else Flat(a, slots, s - 1) + Group(a, slots, |a|, s - 1)
  }

  lemma {:induction false} GroupGrows(a: seq<int>, slots: seq<nat>, m: nat, n: nat, s: nat)
    requires m <= n <= |a| == |slots|
    ensures Group(a, slots, m, s) <= Group(a, slots, n, s)
    decreases n
  {
    if m < n { GroupGrows(a, slots, m, n - 1, s); }
  }

  lemma {:induction false} StartGrows(a: seq<int>, slots: seq<nat>, s: nat, t: nat)
    requires s <= t && |a| == |slots|
    ensures Start(a, slots, s) <= Start(a, slots, t)
    decreases t
  {
    if s < t { StartGrows(a, slots, s, t - 1); }
  }

  // ----- the slots of one digit, end to end, are the keys of that digit

  lemma {:induction false} GroupIsBlock(a: seq<int>, exp: nat, blocks: nat, n: nat, d: nat, base: nat, k: nat)
    requires |a| == KEYS_PER_BLOCK * blocks && n <= |a| && k < blocks && base == d * blocks
    ensures n <= 4 * k ==> Group(a, Slots(a, exp, blocks), n, base + k) == []
    ensures 4 * k <= n <= 4 * k + 4 ==>
      Keys(a[..4 * k], exp, d) + Group(a, Slots(a, exp, blocks), n, base + k) == Keys(a[..n], exp, d)
    ensures n > 4 * k + 4 ==>
      Group(a, Slots(a, exp, blocks), n, base + k) == Group(a, Slots(a, exp, blocks), n - 1, base + k)
    decreases n
  {
    if n > 0 {
      GroupIsBlock(a, exp, blocks, n - 1, d, base, k);
      if Slot(a, exp, blocks, n - 1) == base + k {
        SlotSplits(blocks, Digit(a[n - 1], exp), (n - 1) / 4, d, k);
      }
      assert a[..n][..n - 1] == a[..n - 1];
    }
  }

  lemma {:induction false} GroupComplete(a: seq<int>, exp: nat, blocks: nat, n: nat, d: nat, base: nat, k: nat)
    requires |a| == KEYS_PER_BLOCK * blocks && k < blocks && 4 * k + 4 <= n <= |a| && base == d * blocks
    ensures Keys(a[..4 * k], exp, d) + Group(a, Slots(a, exp, blocks), n, base + k) == Keys(a[..4 * k + 4], exp, d)
    decreases n
  {
    GroupIsBlock(a, exp, blocks, n, d, base, k);
    if n > 4 * k + 4 { GroupComplete(a, exp, blocks, n - 1, d, base, k); }
  }

  lemma {:induction false} FlatDigit(a: seq<int>, exp: nat, blocks: nat, d: nat, base: nat, k: nat)
    requires |a| == KEYS_PER_BLOCK * blocks && k <= blocks && base == d * blocks
    ensures Flat(a, Slots(a, exp, blocks), base + k) == Flat(a, Slots(a, exp, blocks), base) + Keys(a[..4 * k], exp, d)
    decreases k
  {
    if k > 0 {
      var j := k - 1;
      FlatDigit(a, exp, blocks, d, base, j);
      GroupComplete(a, exp, blocks, |a|, d, base, j);
      assert 4 * j + 4 == 4 * k && base + k - 1 == base + j;
      FlatUnfolds(a, Slots(a, exp, blocks), base + j);
    }
  }

  lemma FlatUnfolds(a: seq<int>, slots: seq<nat>, s: nat)
    requires |a| == |slots|
    ensures Flat(a, slots, s + 1) == Flat(a, slots, s) + Group(a, slots, |a|, s)
  {
  }

  function KeysBelow(a: seq<int>, exp: nat, d: nat): seq<int> {
    if d == 0 then [] else KeysBelow(a, exp, d - 1) + Keys(a, exp, d - 1)
  }

  lemma {:induction false} FlatIsKeys(a: seq<int>, exp: nat, blocks: nat, d: nat, base: nat)
    requires |a| == KEYS_PER_BLOCK * blocks && base == d * blocks
    ensures Flat(a, Slots(a, exp, blocks), base) == KeysBelow(a, exp, d)
  {
    if d > 0 {
      var before := base - blocks;
      assert before == (d - 1) * blocks by { Distribute(d - 1, 1, blocks); }
      NonNegative(d - 1, blocks);
      FlatIsKeys(a, exp, blocks, d - 1, before);
      FlatDigit(a, exp, blocks, d - 1, before, blocks);
      assert a[..4 * blocks] == a;
    }
  }

  // ----- the keys by digit are a stable sort

  /** `b` is `a` stably ordered by digit: digits never decrease, and the keys of each digit are
      the same keys in the same order. */
  ghost predicate StablySorted(a: seq<int>, b: seq<int>, exp: nat) {
    && (forall i, j :: 0 <= i < j < |b| ==> Digit(b[i], exp) <= Digit(b[j], exp))
    && (forall d: nat :: Keys(b, exp, d) == Keys(a, exp, d))
    && multiset(b) == multiset(a)
  }

  lemma KeysSnoc(p: seq<int>, x: int, exp: nat, d: nat)
    ensures Keys(p + [x], exp, d) == if Digit(x, exp) == d then Keys(p, exp, d) + [x] else Keys(p, exp, d)
  {
    assert (p + [x])[..|p|] == p;
  }

  lemma {:induction false} KeysConcat(a: seq<int>, b: seq<int>, exp: nat, d: nat)
    ensures Keys(a + b, exp, d) == Keys(a, exp, d) + Keys(b, exp, d)
    decreases |b|
  {
    if b == [] {
      assert a + b == a;
    } else {
      assert (a + b)[..|a + b| - 1] == a + b[..|b| - 1];
      KeysConcat(a, b[..|b| - 1], exp, d);
    }
  }

  lemma {:induction false} KeysOfKeys(a: seq<int>, exp: nat, d: nat, e: nat)
    ensures Keys(Keys(a, exp, d), exp, e) == if d == e then Keys(a, exp, d) else []
  {
    if a != [] {
      KeysOfKeys(a[..|a| - 1], exp, d, e);
      if Digit(a[|a| - 1], exp) == d { KeysSnoc(Keys(a[..|a| - 1], exp, d), a[|a| - 1], exp, e); }
      else { assert Keys(a, exp, d) == Keys(a[..|a| - 1], exp, d); }
    }
  }

  lemma KeysOfEmptyLeft(xy: seq<int>, x: seq<int>, y: seq<int>, exp: nat, e: nat, keys: seq<int>)
    requires xy == x + y && Keys(x, exp, e) == [] && Keys(y, exp, e) == keys
    ensures Keys(xy, exp, e) == keys
  {
    KeysConcat(x, y, exp, e);
  }

  lemma KeysOfEmptyRight(xy: seq<int>, x: seq<int>, y: seq<int>, exp: nat, e: nat, keys: seq<int>)
    requires xy == x + y && Keys(x, exp, e) == keys && Keys(y, exp, e) == []
    ensures Keys(xy, exp, e) == keys
  {
    KeysConcat(x, y, exp, e);
  }

  lemma {:induction false} NoHigherKeys(a: seq<int>, exp: nat, d: nat, e: nat)
    requires d <= e
    ensures Keys(KeysBelow(a, exp, d), exp, e) == []
    decreases d
  {
    if d > 0 {
      NoHigherKeys(a, exp, d - 1, e);
      NoHigherStep(a, exp, d - 1, e);
    }
  }

  lemma NoHigherStep(a: seq<int>, exp: nat, d: nat, e: nat)
    requires d < e && Keys(KeysBelow(a, exp, d), exp, e) == []
    ensures Keys(KeysBelow(a, exp, d + 1), exp, e) == []
  {
    KeysOfKeys(a, exp, d, e);
    KeysOfEmptyLeft(KeysBelow(a, exp, d + 1), KeysBelow(a, exp, d), Keys(a, exp, d), exp, e, []);
  }

  lemma KeysOfTop(a: seq<int>, exp: nat, e: nat)
    ensures Keys(KeysBelow(a, exp, e + 1), exp, e) == Keys(a, exp, e)
  {
    NoHigherKeys(a, exp, e, e);
    KeysOfKeys(a, exp, e, e);
    KeysOfEmptyLeft(KeysBelow(a, exp, e + 1), KeysBelow(a, exp, e), Keys(a, exp, e), exp, e, Keys(a, exp, e));
  }

  lemma KeysOfRest(a: seq<int>, exp: nat, d: nat, e: nat, keys: seq<int>)
    requires e < d && Keys(KeysBelow(a, exp, d), exp, e) == keys
    ensures Keys(KeysBelow(a, exp, d + 1), exp, e) == keys
  {
    KeysOfKeys(a, exp, d, e);
    KeysOfEmptyRight(KeysBelow(a, exp, d + 1), KeysBelow(a, exp, d), Keys(a, exp, d), exp, e, keys);
  }

  lemma {:induction false} KeysOfKeysBelow(a: seq<int>, exp: nat, d: nat, e: nat)
    requires e < d
    ensures Keys(KeysBelow(a, exp, d), exp, e) == Keys(a, exp, e)
    decreases d
  {
    if e == d - 1 {
      KeysOfTop(a, exp, e);
    } else {
      KeysOfKeysBelow(a, exp, d - 1, e);
      KeysOfRest(a, exp, d - 1, e, Keys(a, exp, e));
    }
  }

  lemma {:induction false} KeysHaveDigit(a: seq<int>, exp: nat, d: nat, i: nat)
    requires i < |Keys(a, exp, d)|
    ensures Digit(Keys(a, exp, d)[i], exp) == d
    decreases |a|
  {
    if i < |Keys(a[..|a| - 1], exp, d)| { KeysHaveDigit(a[..|a| - 1], exp, d, i); }
  }

  lemma {:induction false} KeysBelowSorted(a: seq<int>, exp: nat, d: nat)
    ensures forall i, j :: 0 <= i < j < |KeysBelow(a, exp, d)| ==>
      Digit(KeysBelow(a, exp, d)[i], exp) <= Digit(KeysBelow(a, exp, d)[j], exp)
    ensures forall i :: 0 <= i < |KeysBelow(a, exp, d)| ==> Digit(KeysBelow(a, exp, d)[i], exp) < d
    decreases d
  {
    if d > 0 {
      KeysBelowSorted(a, exp, d - 1);
      var run := Keys(a, exp, d - 1);
      forall i | 0 <= i < |run| ensures Digit(run[i], exp) == d - 1 {
        KeysHaveDigit(a, exp, d - 1, i);
      }
    }
  }

  /** A value occurs as often among the keys of its digit as in the whole sequence. */
  lemma {:induction false} KeysCount(a: seq<int>, exp: nat, y: int)
    ensures multiset(Keys(a, exp, Digit(y, exp)))[y] == multiset(a)[y]
  {
    if a != [] {
      KeysCount(a[..|a| - 1], exp, y);
      assert a == a[..|a| - 1] + [a[|a| - 1]];
    }
  }

  lemma {:induction false} NoKeysBeyond(a: seq<int>, exp: nat, d: nat)
    requires d >= RADIX
    ensures Keys(a, exp, d) == []
  {
    if a != [] { NoKeysBeyond(a[..|a| - 1], exp, d); }
  }

  lemma SameKeysPermute(a: seq<int>, b: seq<int>, exp: nat)
    requires forall d: nat :: Keys(b, exp, d) == Keys(a, exp, d)
    ensures multiset(b) == multiset(a) && |a| == |b|
  {
    forall y ensures multiset(b)[y] == multiset(a)[y] {
      KeysCount(a, exp, y);
      KeysCount(b, exp, y);
      assert Keys(b, exp, Digit(y, exp)) == Keys(a, exp, Digit(y, exp));
    }
    assert multiset(b) == multiset(a);
    assert |multiset(b)| == |multiset(a)|;
  }

  lemma KeysBelowStable(a: seq<int>, exp: nat)
    ensures StablySorted(a, KeysBelow(a, exp, RADIX), exp) && |KeysBelow(a, exp, RADIX)| == |a|
  {
    var b := KeysBelow(a, exp, RADIX);
    KeysBelowSorted(a, exp, RADIX);
    forall d: nat ensures Keys(b, exp, d) == Keys(a, exp, d) {
      if d < RADIX {
        KeysOfKeysBelow(a, exp, RADIX, d);
      } else {
        NoKeysBeyond(a, exp, d);
        NoHigherKeys(a, exp, RADIX, d);
      }
    }
    SameKeysPermute(a, b, exp);
  }

  /** The slots laid end to end are the stable sort, for any number of blocks. */
  lemma FlatStablySorted(a: seq<int>, exp: nat, blocks: nat)
    requires |a| == KEYS_PER_BLOCK * blocks
    ensures StablySorted(a, Flat(a, Slots(a, exp, blocks), RADIX * blocks), exp)
    ensures Start(a, Slots(a, exp, blocks), RADIX * blocks) == |a|
  {
    FlatIsKeys(a, exp, blocks, RADIX, RADIX * blocks);
    KeysBelowStable(a, exp);
  }
}
