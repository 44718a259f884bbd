/** The sort as a loop of passes: after `k` of them the keys are stably ordered by their low `2 * k` bits. */
module RadixSort {
  import opened Arithmetic
  import opened RadixGroups
  import opened RadixPass

  function Pow4(k: nat): (r: nat)
    ensures r > 0
  {
    if k == 0 then 1 else 4 * Pow4(k - 1)
  }

  /** The low `2 * k` bits of a key. */
  function Low(x: int, k: nat): (r: nat)
    ensures r < Pow4(k)
    decreases k
  {
    if k == 0 then 0 else 4 * Low(x / 4, k - 1) + x % 4
  }

  lemma {:induction false} LowIsAll(x: int, k: nat)
    requires 0 <= x < Pow4(k)
    ensures Low(x, k) == x
    decreases k
  {
    if k > 0 { LowIsAll(x / 4, k - 1); }
  }

  lemma DigitShifts(x: int, k: nat)
    ensures Digit(x, 2 * k + 2) == Digit(x / 4, 2 * k)
  {
    assert Shift(x, 2 * k + 2) == Shift(x / 2, 2 * k + 1) == Shift(x / 2 / 2, 2 * k);
    assert x / 2 / 2 == x / 4;
  }

  /** One more digit goes in front. */
  lemma {:induction false} LowTop(x: int, k: nat)
    ensures Low(x, k + 1) == Low(x, k) + Pow4(k) * Digit(x, 2 * k)
    decreases k
  {
    if k == 0 {
      assert Digit(x, 0) == x % 4 && Low(x / 4, 0) == 0;
    } else {
      LowTop(x / 4, k - 1);
      DigitShifts(x, k - 1);
      assert 4 * (Pow4(k - 1) * Digit(x, 2 * k)) == Pow4(k) * Digit(x, 2 * k);
    }
  }

  lemma LowCompares(x: int, y: int, k: nat)
    ensures Low(x, k + 1) == Low(y, k + 1) <==> Low(x, k) == Low(y, k) && Digit(x, 2 * k) == Digit(y, 2 * k)
    ensures Digit(x, 2 * k) < Digit(y, 2 * k) || (Digit(x, 2 * k) == Digit(y, 2 * k) && Low(x, k) <= Low(y, k)) ==>
      Low(x, k + 1) <= Low(y, k + 1)
  {
    LowTop(x, k);
    LowTop(y, k);
    DigitGap(Digit(x, 2 * k), Digit(y, 2 * k), Pow4(k));
    DigitGap(Digit(y, 2 * k), Digit(x, 2 * k), Pow4(k));
  }

  lemma DigitGap(d: nat, e: nat, p: nat)
    ensures d < e ==> p * d + p <= p * e
  {
    NonNegative(p, e - d - 1);
    assert p * (e - d - 1) == p * e - p * d - p;
  }

  /** The keys with the low bits of `y`, in order. */
  function Like(a: seq<int>, k: nat, y: int): seq<int> {
    if a == [] then []
    else Like(a[..|a| - 1], k, y) + if Low(a[|a| - 1], k) == Low(y, k) then [a[|a| - 1]] else []
  }

  lemma LikeSnoc(p: seq<int>, x: int, k: nat, y: int)
    ensures Like(p + [x], k, y) == if Low(x, k) == Low(y, k) then Like(p, k, y) + [x] else Like(p, k, y)
  {
    assert (p + [x])[..|p|] == p;
  }

  /** Low bits never decrease along `b`, and keys that share them are the same keys in the same order. */
  ghost predicate SortedByLow(a: seq<int>, b: seq<int>, k: nat) {
    && (forall i, j :: 0 <= i < j < |b| ==> Low(b[i], k) <= Low(b[j], k))
    && (forall y: int :: Like(b, k, y) == Like(a, k, y))
    && multiset(b) == multiset(a)
  }

  /** Selecting by one more digit is selecting by the digit before or after. */
  lemma {:induction false} LikeSplits(a: seq<int>, k: nat, y: int)
    ensures Like(a, k + 1, y) == Keys(Like(a, k, y), 2 * k, Digit(y, 2 * k))
    ensures Like(a, k + 1, y) == Like(Keys(a, 2 * k, Digit(y, 2 * k)), k, y)
  {
    if a != [] {
      var p, x, d := a[..|a| - 1], a[|a| - 1], Digit(y, 2 * k);
      LikeSplits(p, k, y);
      LowCompares(x, y, k);
      assert a == p + [x];
      LikeSnoc(p, x, k, y);
      LikeSnoc(p, x, k + 1, y);
      KeysSnoc(p, x, 2 * k, d);
      KeysSnoc(Like(p, k, y), x, 2 * k, d);
      LikeSnoc(Keys(p, 2 * k, d), x, k, y);
    }
  }

  lemma {:induction false} KeysStaySorted(a: seq<int>, k: nat, d: nat)
    requires forall i, j :: 0 <= i < j < |a| ==> Low(a[i], k) <= Low(a[j], k)
    ensures var r := Keys(a, 2 * k, d); forall i, j :: 0 <= i < j < |r| ==> Low(r[i], k) <= Low(r[j], k)
    ensures forall x :: x in Keys(a, 2 * k, d) ==> x in a
  {
    if a != [] {
      var p, x := a[..|a| - 1], a[|a| - 1];
      KeysStaySorted(p, k, d);
      var r := Keys(p, 2 * k, d);
      forall i: nat | i < |r| ensures Low(r[i], k) <= Low(x, k) {
        assert r[i] in r && r[i] in p;
        var j :| 0 <= j < |p| && p[j] == r[i];
      }
      assert a == p + [x];
      KeysSnoc(p, x, 2 * k, d);
    }
  }

  /** Two keys of one digit keep their places among the keys of that digit. */
  lemma {:induction false} KeyPlaces(a: seq<int>, exp: nat, i: nat, j: nat) returns (p: nat, q: nat)
    requires i < j < |a| && Digit(a[i], exp) == Digit(a[j], exp)
    ensures var r := Keys(a, exp, Digit(a[i], exp)); p < q < |r| && r[p] == a[i] && r[q] == a[j]
    decreases |a|
  {
    var n := |a| - 1;
    if j < n {
      p, q := KeyPlaces(a[..n], exp, i, j);
    } else {
      p := KeyPlace(a[..n], exp, i);
      q := |Keys(a[..n], exp, Digit(a[i], exp))|;
    }
  }

  lemma {:induction false} KeyPlace(a: seq<int>, exp: nat, i: nat) returns (p: nat)
    requires i < |a|
    ensures var r := Keys(a, exp, Digit(a[i], exp)); p < |r| && r[p] == a[i]
    decreases |a|
  {
    var n := |a| - 1;
    if i < n {
      p := KeyPlace(a[..n], exp, i);
    } else {
      p := |Keys(a[..n], exp, Digit(a[i], exp))|;
    }
  }

  /** A pass over the next digit. */
  lemma PassExtends(a: seq<int>, b: seq<int>, c: seq<int>, k: nat)
    requires SortedByLow(a, b, k) && StablySorted(b, c, 2 * k)
    ensures SortedByLow(a, c, k + 1)
  {
    var m := k + 1;
    forall i: nat, j: nat | i < j < |c| ensures Low(c[i], m) <= Low(c[j], m) { PairSorted(a, b, c, k, i, j); }
    forall y: int ensures Like(c, m, y) == Like(a, m, y) {
      var d := Digit(y, 2 * k);
      LikeSplits(a, k, y);
      LikeSplits(b, k, y);
      LikeSplits(c, k, y);
      assert Keys(c, 2 * k, d) == Keys(b, 2 * k, d) && Like(b, k, y) == Like(a, k, y);
    }
  }

  lemma PairSorted(a: seq<int>, b: seq<int>, c: seq<int>, k: nat, i: nat, j: nat)
    requires SortedByLow(a, b, k) && StablySorted(b, c, 2 * k) && i < j < |c|
    ensures Low(c[i], k + 1) <= Low(c[j], k + 1)
  {
    LowCompares(c[i], c[j], k);
    if Digit(c[i], 2 * k) == Digit(c[j], 2 * k) {
      var d := Digit(c[i], 2 * k);
      var p, q := KeyPlaces(c, 2 * k, i, j);
      KeysStaySorted(b, k, d);
      assert Keys(c, 2 * k, d) == Keys(b, 2 * k, d);
    }
  }

  lemma Unsorted(a: seq<int>)
    ensures SortedByLow(a, a, 0)
  {
  }

  /** One turn: `flag` says which array holds the keys. */
  method Turn(a: array<int>, b: array<int>, bucket: array<int>, sum: array<int>, was: bool, exp: nat,
              blocks: nat, scanRadix: nat, scanBlock: nat)
    returns (flag: bool)
    requires a != b && a != bucket && a != sum && b != bucket && b != sum && bucket != sum
    requires a.Length == b.Length == KEYS_PER_BLOCK * blocks && scanRadix * scanBlock == RADIX * blocks && blocks > 0
    requires sum.Length == scanRadix
    requires bucket.Length > RADIX * blocks ||
      (bucket.Length == RADIX * blocks && NoThreeInLastBlock(if was then b[..] else a[..], exp))
    modifies a, b, bucket, sum
    ensures flag == !was
    ensures StablySorted(old(if was then b[..] else a[..]), if flag then b[..] else a[..], exp)
    ensures if was then b[..] == old(b[..]) else a[..] == old(a[..])
  {
    if !was {
      Pass(a, b, bucket, sum, exp, blocks, scanRadix, scanBlock);
      flag := true;
    } else {
      Pass(b, a, bucket, sum, exp, blocks, scanRadix, scanBlock);
      flag := false;
    }
  }

  /** A turn after `k` others. */
  method NextTurn(a: array<int>, b: array<int>, bucket: array<int>, sum: array<int>, was: bool, ghost k: nat, exp: nat,
                  blocks: nat, scanRadix: nat, scanBlock: nat, ghost orig: seq<int>)
    returns (flag: bool)
    requires a != b && a != bucket && a != sum && b != bucket && b != sum && bucket != sum
    requires a.Length == b.Length == KEYS_PER_BLOCK * blocks && scanRadix * scanBlock == RADIX * blocks && blocks > 0
    requires sum.Length == scanRadix && exp == 2 * k
    requires bucket.Length > RADIX * blocks ||
      (bucket.Length == RADIX * blocks && NoThreeInLastBlock(if was then b[..] else a[..], exp))
    requires SortedByLow(orig, if was then b[..] else a[..], k)
    modifies a, b, bucket, sum
    ensures flag == !was
    ensures SortedByLow(orig, if flag then b[..] else a[..], k + 1)
    ensures if was then b[..] == old(b[..]) else a[..] == old(a[..])
  {
    ghost var keys := if was then b[..] else a[..];
    flag := Turn(a, b, bucket, sum, was, exp, blocks, scanRadix, scanBlock);
    PassExtends(orig, keys, if flag then b[..] else a[..], k);
  }

  function Passes(limit: nat): nat {
    (limit + 1) / 2
  }

  predicate IsOdd(k: nat) {
    k > 0 && !IsOdd(k - 1)
  }

  /** The loop over `exp`: each turn reads one of the two arrays and writes the other. After it the keys are
      in one of them, stably ordered by their low bits. */
  method SortDigits(a: array<int>, b: array<int>, bucket: array<int>, sum: array<int>, limit: nat, blocks: nat,
                    scanRadix: nat, scanBlock: nat)
    returns (flag: bool)
    requires a != b && a != bucket && a != sum && b != bucket && b != sum && bucket != sum
    requires a.Length == b.Length == KEYS_PER_BLOCK * blocks && scanRadix * scanBlock == RADIX * blocks && blocks > 0
    requires sum.Length == scanRadix
    requires bucket.Length > RADIX * blocks ||
      (limit <= 2 && bucket.Length == RADIX * blocks && NoThreeInLastBlock(a[..], 0))
    modifies a, b, bucket, sum
    ensures flag == IsOdd(Passes(limit))
    ensures SortedByLow(old(a[..]), if flag then b[..] else a[..], Passes(limit))
    ensures limit <= 2 ==> a[..] == old(a[..])
  {
    var exp: nat := 0;
    ghost var k: nat, orig := 0, a[..];
    flag := false;
    Unsorted(orig);
    while exp < limit
      invariant exp == 2 * k && k <= Passes(limit) && flag == IsOdd(k)
      invariant SortedByLow(orig, if flag then b[..] else a[..], k)
      invariant k <= 1 ==> a[..] == orig
      decreases limit - exp
    {
      flag := NextTurn(a, b, bucket, sum, flag, k, exp, blocks, scanRadix, scanBlock, orig);
      exp, k := exp + 2, k + 1;
    }
  }

  /** The sort as written: its bound of 2 lets the loop turn once, so `b` is ordered by the low two bits and
      `a` is as it was. */
  method SsSort(a: array<int>, b: array<int>, bucket: array<int>, sum: array<int>, blocks: nat, scanRadix: nat,
                scanBlock: nat)
    requires a != b && a != bucket && a != sum && b != bucket && b != sum && bucket != sum
    requires a.Length == b.Length == KEYS_PER_BLOCK * blocks && scanRadix * scanBlock == RADIX * blocks && blocks > 0
    requires sum.Length == scanRadix
    requires bucket.Length > RADIX * blocks || (bucket.Length == RADIX * blocks && NoThreeInLastBlock(a[..], 0))
    modifies a, b, bucket, sum
    ensures a[..] == old(a[..]) && SortedByLow(a[..], b[..], 1)
  {
    var flag := SortDigits(a, b, bucket, sum, 2, blocks, scanRadix, scanBlock);
  }

  /** With enough passes, keys that fit their bits are in ascending order. */
  lemma FullySorted(a: seq<int>, b: seq<int>, k: nat)
    requires SortedByLow(a, b, k) && forall i :: 0 <= i < |a| ==> 0 <= a[i] < Pow4(k)
    ensures forall i, j :: 0 <= i < j < |b| ==> b[i] <= b[j]
    ensures multiset(b) == multiset(a)
  {
    forall i: nat | i < |b| ensures Low(b[i], k) == b[i] {
      assert b[i] in multiset(b) && b[i] in multiset(a);
      LowIsAll(b[i], k);
    }
  }
}
