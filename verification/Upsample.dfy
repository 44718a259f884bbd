/** Upsampling: per-loop correction cycles, each propagated up the tree to the root, add up to a
    recursive meaning where the factors are whole numbers. */
module Upsample {
  import A = Arithmetic
  import opened Collections
  import opened LoopTree
  import opened LoopInfos

  /** A built loop tree with a sampling factor per loop; loops that are not sampled have factor 1. */
  datatype RawTree = RawTree(loops: seq<Interval>, links: Forest, factor: seq<real>)

  ghost predicate Sound(t: RawTree) {
    && Distinct(t.loops) && Tree(t.loops, t.links, |t.loops|)
    && |t.links.children| == |t.loops| == |t.factor|
  }

  type SampledTree = t: RawTree | Sound(t) ghost witness RawTree([ROOT], Forest([0], [[]]), [1.0])

  ghost function Descendants(t: SampledTree, k: nat): set<nat>
    requires k < |t.loops|
  {
    set m | 0 < m < |t.loops| && m != k && Contains(t.loops, k, m)
  }

  lemma ChildOf(t: SampledTree, k: nat, i: nat)
    requires k < |t.loops| && i < |t.links.children[k]|
    ensures var c := t.links.children[k][i];
      && 0 < c < |t.loops| && t.links.parent[c] == k && Contains(t.loops, k, c)
      && Descendants(t, c) < Descendants(t, k)
  {
    var c := t.links.children[k][i];
    assert Listed(t.links, |t.loops|, k, c);
    forall m | m in Descendants(t, c) ensures m in Descendants(t, k) {
      if m == k { SameContents(t.loops, c, k); }
    }
    assert c in Descendants(t, k);
  }

  // ----- handing cycles up

  /** The conversion of a product to a number of cycles: truncation toward zero. */
  function Trunc(x: real): int {
    if x >= 0.0 then x.Floor else -((-x).Floor)
  }

  /** A number of cycles times a factor. */
  function Times(cycles: int, factor: real): int {
    Trunc(cycles as real * factor)
  }

  /** What `cycles` at `k` come to at the root, truncated at every loop on the way. */
  ghost function HandUp(t: SampledTree, k: nat, cycles: int): int
    requires k < |t.loops|
    decreases Above(t.loops, |t.loops|, k)
  {
    if k == 0 then cycles
    else
      ParentHasFewerAbove(t.loops, t.links.parent, |t.loops|, k);
      HandUp(t, t.links.parent[k], Times(cycles, t.factor[k]))
  }

  /** What the corrections of the loops below `n` come to. */
  ghost function Total(t: SampledTree, c: seq<int>, n: nat): int
    requires |c| == |t.loops| && n <= |t.loops|
  {
    if n <= 1 then 0 else Total(t, c, n - 1) + HandUp(t, t.links.parent[n - 1], c[n - 1])
  }

  lemma {:induction false} NothingHandedUp(t: SampledTree, k: nat)
    requires k < |t.loops|
    ensures HandUp(t, k, 0) == 0
    decreases Above(t.loops, |t.loops|, k)
  {
    if k > 0 {
      ParentHasFewerAbove(t.loops, t.links.parent, |t.loops|, k);
      NothingHandedUp(t, t.links.parent[k]);
    }
  }

  // ----- whole factors

  ghost predicate Whole(t: SampledTree) {
    forall k :: 0 <= k < |t.loops| ==> t.factor[k] == t.factor[k].Floor as real
  }

  ghost function Factor(t: SampledTree, k: nat): int
    requires k < |t.loops|
  {
    t.factor[k].Floor
  }

  /** What one cycle at `k` is worth at the root when `k` hands it on to its parent. */
  ghost function Scale(t: SampledTree, k: nat): int
    requires k < |t.loops|
    decreases Above(t.loops, |t.loops|, k)
  {
    if k == 0 then 1
    else
      ParentHasFewerAbove(t.loops, t.links.parent, |t.loops|, k);
      Factor(t, k) * Scale(t, t.links.parent[k])
  }

  lemma {:induction false} RealTimes(x: int, n: int)
    requires n >= 0
    ensures (x * n) as real == x as real * n as real
  {
    if n > 0 {
      RealTimes(x, n - 1);
      assert x * n == x * (n - 1) + x;
      assert x as real * n as real == x as real * (n - 1) as real + x as real;
    }
  }

  lemma TimesWhole(x: int, f: real, n: int)
    requires f == n as real
    ensures Times(x, f) == x * n
  {
    if n >= 0 {
      RealTimes(x, n);
    } else {
      RealTimes(x, -n);
      assert x as real * n as real == -(x as real * (-n) as real);
      assert x * n == -(x * -n);
    }
  }

  /** With whole factors nothing is lost on the way. */
  lemma {:induction false} HandUpScales(t: SampledTree, k: nat, cycles: int)
    requires Whole(t) && k < |t.loops|
    ensures HandUp(t, k, cycles) == cycles * Scale(t, k)
    decreases Above(t.loops, |t.loops|, k)
  {
    if k > 0 {
      ParentHasFewerAbove(t.loops, t.links.parent, |t.loops|, k);
      TimesWhole(cycles, t.factor[k], Factor(t, k));
      HandUpScales(t, t.links.parent[k], cycles * Factor(t, k));
      Regroup(cycles, Factor(t, k), Scale(t, t.links.parent[k]));
    }
  }

  lemma Regroup(x: int, y: int, z: int)
    ensures (x * y) * z == x * (y * z)
  {
  }

  /** D(k) = C(k) + f * (sum of D over the children of k), with C the correction of a loop. */
  ghost function Meaning(t: SampledTree, c: seq<int>, k: nat): int
    requires |c| == |t.loops| && k < |t.loops|
    decreases Descendants(t, k), |t.loops| + 1
  {
    c[k] + Factor(t, k) * MeaningOfFirst(t, c, k, |t.links.children[k]|)
  }

  /** The sum over the first `i` children of `k`. */
  ghost function MeaningOfFirst(t: SampledTree, c: seq<int>, k: nat, i: nat): int
    requires |c| == |t.loops| && k < |t.loops| && i <= |t.links.children[k]|
    decreases Descendants(t, k), 0, i
  {
    if i == 0 then 0
    else
      ChildOf(t, k, i - 1);
      MeaningOfFirst(t, c, k, i - 1) + Meaning(t, c, t.links.children[k][i - 1])
  }

  /** What the root should report: the sum over its children. */
  ghost function RootMeaning(t: SampledTree, c: seq<int>): int
    requires |c| == |t.loops|
  {
    MeaningOfFirst(t, c, 0, |t.links.children[0]|)
  }

  // ----- changing the correction of one loop

  /** A loop outside `k` has no bearing on the meaning of `k`. */
  lemma {:induction false} Unaffected(t: SampledTree, e: seq<int>, k: nat, j: nat, x: int)
    requires |e| == |t.loops| && 0 < k < |t.loops| && 0 < j < |t.loops| && !Contains(t.loops, k, j)
    ensures Meaning(t, e[j := x], k) == Meaning(t, e, k)
    decreases Descendants(t, k), |t.loops| + 1
  {
    forall m | 0 <= m < |t.links.children[k]| ensures Avoids(t, k, m, j) { ChildOf(t, k, m); }
    UnaffectedFirst(t, e, k, |t.links.children[k]|, j, x);
  }

  ghost predicate Avoids(t: SampledTree, k: nat, i: nat, j: nat)
    requires k < |t.loops| && j < |t.loops| && i < |t.links.children[k]|
  {
    t.links.children[k][i] < |t.loops| && !Contains(t.loops, t.links.children[k][i], j)
  }

  lemma {:induction false} UnaffectedFirst(t: SampledTree, e: seq<int>, k: nat, i: nat, j: nat, x: int)
    requires |e| == |t.loops| && k < |t.loops| && i <= |t.links.children[k]| && 0 < j < |t.loops|
    requires forall m :: 0 <= m < i ==> Avoids(t, k, m, j)
    ensures MeaningOfFirst(t, e[j := x], k, i) == MeaningOfFirst(t, e, k, i)
    decreases Descendants(t, k), 0, i
  {
    if i > 0 {
      UnaffectedFirst(t, e, k, i - 1, j, x);
      ChildOf(t, k, i - 1);
      assert Avoids(t, k, i - 1, j);
      Unaffected(t, e, t.links.children[k][i - 1], j, x);
    }
  }

  /** Exactly one child of `k` lies on the way down to `j`. */
  lemma WayDown(t: SampledTree, k: nat, j: nat) returns (q: nat)
    requires k < |t.loops| && 0 < j < |t.loops| && k != j && Contains(t.loops, k, j)
    ensures q < |t.links.children[k]| && !Avoids(t, k, q, j)
    ensures forall m :: 0 <= m < |t.links.children[k]| && m != q ==> Avoids(t, k, m, j)
  {
    var kids := t.links.children[k];
    var c := ChildAbove(t.loops, t.links, |t.loops|, k, j);
    q :| 0 <= q < |kids| && kids[q] == c;
    forall m | 0 <= m < |kids| && m != q ensures Avoids(t, k, m, j) {
      ChildOf(t, k, m);
      ChildOf(t, k, q);
      assert NoDuplicates(kids) && kids[m] != kids[q];
      if Contains(t.loops, kids[m], j) { SiblingsApart(t, k, kids[m], kids[q], j); }
    }
  }

  lemma SiblingsApart(t: SampledTree, k: nat, a: nat, b: nat, j: nat)
    requires k < |t.loops| && 0 < j < |t.loops| && 0 < a < |t.loops| && 0 < b < |t.loops| && a != b
    requires t.links.parent[a] == t.links.parent[b] == k && Contains(t.loops, a, j)
    ensures !Contains(t.loops, b, j)
  {
    if Contains(t.loops, b, j) {
      if a != j && b != j { TreeNeedsChains(t.loops, t.links.parent, |t.loops|, j, a, b); }
      if Contains(t.loops, a, b) { SameContents(t.loops, a, k); } else { SameContents(t.loops, b, k); }
    }
  }

  /** Only the child on the way down changes. */
  lemma {:induction false} OneChanges(t: SampledTree, e: seq<int>, k: nat, i: nat, j: nat, x: int, q: nat)
    requires |e| == |t.loops| && k < |t.loops| && q < i <= |t.links.children[k]| && 0 < j < |t.loops|
    requires forall m :: 0 <= m < |t.links.children[k]| && m != q ==> Avoids(t, k, m, j)
    requires t.links.children[k][q] < |t.loops|
    ensures MeaningOfFirst(t, e[j := x], k, i) - MeaningOfFirst(t, e, k, i) ==
      Meaning(t, e[j := x], t.links.children[k][q]) - Meaning(t, e, t.links.children[k][q])
    decreases i
  {
    ChildOf(t, k, i - 1);
    if q < i - 1 {
      assert Avoids(t, k, i - 1, j);
      OneChanges(t, e, k, i - 1, j, x, q);
      Unaffected(t, e, t.links.children[k][i - 1], j, x);
    } else {
      UnaffectedFirst(t, e, k, i - 1, j, x);
    }
  }

  /** A change at `j` reaches every loop around it, weighed so that the root sees the same amount. */
  lemma {:induction false} Affected(t: SampledTree, e: seq<int>, k: nat, j: nat, x: int)
    requires |e| == |t.loops| && 0 < k < |t.loops| && 0 < j < |t.loops| && Contains(t.loops, k, j)
    ensures Scale(t, t.links.parent[k]) * (Meaning(t, e[j := x], k) - Meaning(t, e, k)) ==
      (x - e[j]) * Scale(t, t.links.parent[j])
    decreases Descendants(t, k)
  {
    if k == j {
      forall m | 0 <= m < |t.links.children[k]| ensures Avoids(t, k, m, j) {
        ChildOf(t, k, m);
        if Contains(t.loops, t.links.children[k][m], k) { SameContents(t.loops, k, t.links.children[k][m]); }
      }
      UnaffectedFirst(t, e, k, |t.links.children[k]|, j, x);
    } else {
      var q := WayDown(t, k, j);
      ChildOf(t, k, q);
      var c := t.links.children[k][q];
      OneChanges(t, e, k, |t.links.children[k]|, j, x, q);
      Affected(t, e, c, j, x);
      Handed(Factor(t, k), Scale(t, t.links.parent[k]), e[k], MeaningOfFirst(t, e[j := x], k, |t.links.children[k]|),
             MeaningOfFirst(t, e, k, |t.links.children[k]|), Meaning(t, e[j := x], c) - Meaning(t, e, c));
    }
  }

  lemma Handed(f: int, s: int, y: int, m: int, n: int, d: int)
    requires m - n == d
    ensures s * ((y + f * m) - (y + f * n)) == (f * s) * d
  {
    assert f * m - f * n == f * d;
  }

  lemma RootAffected(t: SampledTree, e: seq<int>, j: nat, x: int)
    requires |e| == |t.loops| && 0 < j < |t.loops|
    ensures RootMeaning(t, e[j := x]) - RootMeaning(t, e) == (x - e[j]) * Scale(t, t.links.parent[j])
  {
    var q := WayDown(t, 0, j);
    ChildOf(t, 0, q);
    OneChanges(t, e, 0, |t.links.children[0]|, j, x, q);
    Affected(t, e, t.links.children[0][q], j, x);
  }

  // ----- the main result

  ghost function Cut(e: seq<int>, n: nat): (r: seq<int>)
    ensures |r| == |e|
  {
    seq(|e|, i requires 0 <= i < |e| => if i < n then e[i] else 0)
  }

  lemma {:induction false} NoCycles(t: SampledTree, e: seq<int>, k: nat, i: nat)
    requires |e| == |t.loops| && k < |t.loops| && i <= |t.links.children[k]| && forall m :: 0 < m < |e| ==> e[m] == 0
    ensures MeaningOfFirst(t, e, k, i) == 0
    decreases Descendants(t, k), i
  {
    if i > 0 {
      ChildOf(t, k, i - 1);
      NoCycles(t, e, k, i - 1);
      var c := t.links.children[k][i - 1];
      NoCycles(t, e, c, |t.links.children[c]|);
    }
  }

  /** The corrections handed up by the loops below `n` add up to the meaning of a tree where only they have any. */
  lemma {:induction false} TotalIsMeaning(t: SampledTree, c: seq<int>, n: nat)
    requires Whole(t) && |c| == |t.loops| && 0 < n <= |t.loops|
    ensures Total(t, c, n) == RootMeaning(t, Cut(c, n))
    decreases n
  {
    if n == 1 {
      NoCycles(t, Cut(c, n), 0, |t.links.children[0]|);
    } else {
      TotalIsMeaning(t, c, n - 1);
      HandUpScales(t, t.links.parent[n - 1], c[n - 1]);
      RootAffected(t, Cut(c, n - 1), n - 1, c[n - 1]);
      assert Cut(c, n) == Cut(c, n - 1)[n - 1 := c[n - 1]];
    }
  }

  // ----- fractional factors

  function Product(x: real, factor: real): real {
    x * factor
  }

  /** What `x` cycles at `k` would come to without truncation. */
  ghost function ExactUp(t: SampledTree, k: nat, x: real): real
    requires k < |t.loops|
    decreases Above(t.loops, |t.loops|, k)
  {
    if k == 0 then x
    else
      ParentHasFewerAbove(t.loops, t.links.parent, |t.loops|, k);
      ExactUp(t, t.links.parent[k], Product(x, t.factor[k]))
  }

  /** The product is a whole number at every loop on the way. */
  ghost predicate NothingLost(t: SampledTree, k: nat, cycles: int)
    requires k < |t.loops|
    decreases Above(t.loops, |t.loops|, k)
  {
    k == 0 ||
    (ParentHasFewerAbove(t.loops, t.links.parent, |t.loops|, k);
     Times(cycles, t.factor[k]) as real == Product(cycles as real, t.factor[k]) &&
     NothingLost(t, t.links.parent[k], Times(cycles, t.factor[k])))
  }

  lemma Larger(x: real, y: real, s: real)
    requires s > 0.0 && x <= y
    ensures Product(x, s) <= Product(y, s) && (Product(x, s) == Product(y, s) <==> x == y)
  {
    assert (y - x) * s == y * s - x * s;
    if x < y { assert (y - x) * s > 0.0; }
  }

  ghost predicate Positive(t: SampledTree) {
    forall i :: 0 <= i < |t.loops| ==> t.factor[i] > 0.0
  }

  lemma {:induction false} MoreComesToMore(t: SampledTree, k: nat, x: real, y: real)
    requires Positive(t) && k < |t.loops| && x <= y
    ensures ExactUp(t, k, x) <= ExactUp(t, k, y) && (ExactUp(t, k, x) == ExactUp(t, k, y) <==> x == y)
    decreases Above(t.loops, |t.loops|, k)
  {
    if k > 0 {
      ParentHasFewerAbove(t.loops, t.links.parent, |t.loops|, k);
      Larger(x, y, t.factor[k]);
      MoreComesToMore(t, t.links.parent[k], Product(x, t.factor[k]), Product(y, t.factor[k]));
    }
  }

  lemma TimesAtMost(x: int, f: real)
    requires x >= 0 && f > 0.0
    ensures 0 <= Times(x, f) && Times(x, f) as real <= Product(x as real, f)
  {
    Larger(0.0, x as real, f);
  }

  /** Truncation only takes cycles away: the root sees the exact product if and only if it is whole at every step. */
  lemma {:induction false} HandUpExactIff(t: SampledTree, k: nat, cycles: int)
    requires Positive(t) && k < |t.loops| && cycles >= 0
    ensures HandUp(t, k, cycles) as real <= ExactUp(t, k, cycles as real)
    ensures HandUp(t, k, cycles) as real == ExactUp(t, k, cycles as real) <==> NothingLost(t, k, cycles)
    decreases Above(t.loops, |t.loops|, k)
  {
    if k > 0 {
      var q, e := t.links.parent[k], Times(cycles, t.factor[k]);
      ParentHasFewerAbove(t.loops, t.links.parent, |t.loops|, k);
      TimesAtMost(cycles, t.factor[k]);
      HandUpExactIff(t, q, e);
      MoreComesToMore(t, q, e as real, Product(cycles as real, t.factor[k]));
    }
  }

  /** The failing case: of 3 cycles at a loop sampled 1.5 times, 1 is added instead of 1.5. */
  lemma FractionsAreLost()
    ensures PlainCorrection(3, 1.5) == 1 && 3 as real * (1.5 - 1.0) == 1.5
  {
  }

  // ----- which loops are corrected, and by how much

  /** What is measured of a loop and known of it: iterations of one loop share its name. */
  datatype Measured = Measured(sampled: bool, pipelined: bool, name: nat, end: int)

  /** The iterations in `kids` with the given name. */
  function Alike(ms: seq<Measured>, kids: seq<nat>, name: nat): (r: seq<nat>)
    requires forall i :: 0 <= i < |kids| ==> kids[i] < |ms|
    ensures forall x :: x in r <==> x in kids && ms[x].name == name
    ensures forall i :: 0 <= i < |r| ==> r[i] < |ms|
  {
    if kids == [] then []
    else
      var rest := Alike(ms, kids[..|kids| - 1], name);
      assert kids == kids[..|kids| - 1] + [kids[|kids| - 1]];
      if ms[kids[|kids| - 1]].name == name then rest + [kids[|kids| - 1]] else rest
  }

  /** The intervals between the ends of adjacent iterations. */
  function Intervals(ms: seq<Measured>, group: seq<nat>): int
    requires forall i :: 0 <= i < |group| ==> group[i] < |ms|
  {
    if |group| <= 1 then 0
    else Intervals(ms, group[..|group| - 1]) + ms[group[|group| - 1]].end - ms[group[|group| - 2]].end
  }

  /** They telescope: only the first and the last end count. */
  lemma {:induction false} IntervalsTelescope(ms: seq<Measured>, group: seq<nat>)
    requires |group| > 0 && forall i :: 0 <= i < |group| ==> group[i] < |ms|
    ensures Intervals(ms, group) == ms[group[|group| - 1]].end - ms[group[0]].end
  {
    if |group| > 1 { IntervalsTelescope(ms, group[..|group| - 1]); }
  }

  /** The conversions of the source: to `size_t`, and back to `int`. */
  function ToSize(x: int): nat {
    x % 0x1_0000_0000_0000_0000
  }

  function ToInt(x: nat): int {
    var y := x % 0x1_0000_0000;
    if y < 0x8000_0000 then y else y - 0x1_0000_0000
  }

  /** The average interval between adjacent iterations, an `int` divided by a `size_t`. */
  function Average(total: int, n: nat): int {
    if n > 1 then ToInt(ToSize(total) / (n - 1)) else 0
  }

  /** It, for every iteration of a pipelined loop. */
  function PipelinedCorrection(ms: seq<Measured>, group: seq<nat>, factor: real): int
    requires forall i :: 0 <= i < |group| ==> group[i] < |ms|
  {
    Times(ToSize(Average(Intervals(ms, group), |group|) * |group|), factor - 1.0)
  }

  /** Where the ends do not go down, the conversions change nothing. */
  lemma AverageIsExact(total: int, n: nat)
    requires 0 <= total < 0x8000_0000 && 1 < n
    ensures Average(total, n) == total / (n - 1) && 0 <= Average(total, n) <= total
  {
    A.QuotientBelow(total, n - 1);
  }

  function PlainCorrection(elapsed: int, factor: real): int {
    Times(elapsed, factor - 1.0)
  }

  /** With a whole factor: D = (f - 1) * E for a loop without children. */
  lemma PlainIsWhole(elapsed: int, factor: int)
    ensures PlainCorrection(elapsed, factor as real) == (factor - 1) * elapsed
  {
    TimesWhole(elapsed, factor as real - 1.0, factor - 1);
  }

  /** Per loop: the correction applied in this call, 0 if none, and whether it is done with. */
  datatype Applied = Applied(correction: seq<int>, upsampled: seq<bool>)

  ghost predicate Describes(t: SampledTree, ms: seq<Measured>, elapsed: seq<int>) {
    && |ms| == |elapsed| == |t.loops| && !ms[0].sampled
    && (forall k :: 0 <= k < |ms| && ms[k].pipelined ==> t.links.children[k] == [])
  }

  ghost predicate Fits(t: SampledTree, a: Applied) {
    |a.correction| == |a.upsampled| == |t.loops|
  }

  ghost function GroupOf(t: SampledTree, ms: seq<Measured>, k: nat): seq<nat>
    requires |ms| == |t.loops| && 0 < k < |ms|
  {
    KidsInRange(t, t.links.parent[k]);
    Alike(ms, t.links.children[t.links.parent[k]], ms[k].name)
  }

  lemma KidsInRange(t: SampledTree, k: nat)
    requires k < |t.loops|
    ensures forall i :: 0 <= i < |t.links.children[k]| ==> t.links.children[k][i] < |t.loops|
  {
    forall i: nat | i < |t.links.children[k]| ensures t.links.children[k][i] < |t.loops| { ChildOf(t, k, i); }
  }

  ghost function CorrectionOf(t: SampledTree, ms: seq<Measured>, elapsed: seq<int>, k: nat): int
    requires Describes(t, ms, elapsed) && 0 < k < |ms|
  {
    KidsInRange(t, t.links.parent[k]);
    if ms[k].pipelined then PipelinedCorrection(ms, GroupOf(t, ms, k), t.factor[k])
    else PlainCorrection(elapsed[k], t.factor[k])
  }

  /** Loop `k`, if it is sampled and not done with. The iterations of a pipelined loop are done with together. */
  ghost function Corrected(t: SampledTree, ms: seq<Measured>, elapsed: seq<int>, a: Applied, k: nat): (r: Applied)
    requires Describes(t, ms, elapsed) && Fits(t, a) && k < |ms|
    ensures Fits(t, r)
  {
    if !ms[k].sampled || a.upsampled[k] then a
    else
      KidsInRange(t, t.links.parent[k]);
      var up := if ms[k].pipelined then Marked(a.upsampled, GroupOf(t, ms, k)) else a.upsampled;
      Applied(a.correction[k := CorrectionOf(t, ms, elapsed, k)], up[k := true])
  }

  function Marked(up: seq<bool>, group: seq<nat>): (r: seq<bool>)
    ensures |r| == |up|
  {
    seq(|up|, i requires 0 <= i < |up| => up[i] || i in group)
  }

  /** The loops below `n`, one after the other. */
  ghost function AllCorrected(t: SampledTree, ms: seq<Measured>, elapsed: seq<int>, up: seq<bool>, n: nat): (r: Applied)
    requires Describes(t, ms, elapsed) && |up| == |ms| && n <= |ms|
    ensures Fits(t, r) && forall k :: n <= k < |ms| ==> r.correction[k] == 0
  {
    if n == 0 then Applied(seq(|ms|, i => 0), up)
    else Corrected(t, ms, elapsed, AllCorrected(t, ms, elapsed, up, n - 1), n - 1)
  }

  /** A pipelined loop is corrected once, however many of its iterations are sampled. */
  lemma {:induction false} GroupCorrectedOnce(t: SampledTree, ms: seq<Measured>, elapsed: seq<int>,
                                              up: seq<bool>, n: nat, j: nat, k: nat)
    requires Describes(t, ms, elapsed) && |up| == |ms| && 0 < j < n <= |ms| && 0 < k < n && j != k
    requires ms[j].pipelined && ms[k].pipelined && k in GroupOf(t, ms, j) && j in GroupOf(t, ms, k)
    ensures var c := AllCorrected(t, ms, elapsed, up, n).correction; c[j] == 0 || c[k] == 0
    decreases n
  {
    var before := AllCorrected(t, ms, elapsed, up, n - 1);
    if j < n - 1 && k < n - 1 {
      GroupCorrectedOnce(t, ms, elapsed, up, n - 1, j, k);
    } else {
      var first := if j < k then j else k;
      if before.correction[first] != 0 {
        CorrectedMarks(t, ms, elapsed, up, n - 1, first, if j < k then k else j);
      }
    }
  }

  lemma {:induction false} CorrectedMarks(t: SampledTree, ms: seq<Measured>, elapsed: seq<int>, up: seq<bool>,
                                          n: nat, j: nat, k: nat)
    requires Describes(t, ms, elapsed) && |up| == |ms| && 0 < j < |ms| && k < |ms| && n <= |ms|
    requires ms[j].pipelined && k in GroupOf(t, ms, j) && AllCorrected(t, ms, elapsed, up, n).correction[j] != 0
    ensures AllCorrected(t, ms, elapsed, up, n).upsampled[k]
    decreases n
  {
    if n > 0 && AllCorrected(t, ms, elapsed, up, n - 1).correction[j] != 0 {
      CorrectedMarks(t, ms, elapsed, up, n - 1, j, k);
    }
  }

  /** Without pipelined loops: exactly the sampled loops not upsampled before, each by its own correction. */
  lemma {:induction false} PlainLoopsCorrected(t: SampledTree, ms: seq<Measured>, elapsed: seq<int>,
                                               up: seq<bool>, n: nat, k: nat)
    requires Describes(t, ms, elapsed) && |up| == |ms| && 0 < k < n <= |ms|
    requires forall i :: 0 <= i < |ms| ==> !ms[i].pipelined
    ensures AllCorrected(t, ms, elapsed, up, n).correction[k] ==
      if ms[k].sampled && !up[k] then PlainCorrection(elapsed[k], t.factor[k]) else 0
    decreases n
  {
    NotYetDone(t, ms, elapsed, up, n - 1, k);
    if k < n - 1 { PlainLoopsCorrected(t, ms, elapsed, up, n - 1, k); }
  }

  lemma {:induction false} NotYetDone(t: SampledTree, ms: seq<Measured>, elapsed: seq<int>, up: seq<bool>,
                                      n: nat, k: nat)
    requires Describes(t, ms, elapsed) && |up| == |ms| && k < |ms| && n <= |ms|
    requires forall i :: 0 <= i < |ms| ==> !ms[i].pipelined
    ensures n <= k ==> AllCorrected(t, ms, elapsed, up, n).upsampled[k] == up[k]
    decreases n
  {
    if 0 < n <= k { NotYetDone(t, ms, elapsed, up, n - 1, k); }
  }

  class LoopCycles {
    const loops: seq<Interval>
    const parent: seq<nat>
    const children: seq<seq<nat>>
    const factor: seq<real>
    const measured: seq<Measured>
    ghost const tree: SampledTree
    var elapsed: seq<int>
    var upsampled: seq<bool>

    ghost predicate Valid()
      reads this
    {
      && tree == RawTree(loops, Forest(parent, children), factor) && Describes(tree, measured, elapsed)
      && |upsampled| == |loops|
    }

    /** No loop upsampled yet, no cycles at the root. */
    constructor (loops: seq<Interval>, parent: seq<nat>, children: seq<seq<nat>>, factor: seq<real>,
                 measured: seq<Measured>)
      requires Sound(RawTree(loops, Forest(parent, children), factor))
      requires |measured| == |loops| && !measured[0].sampled
      requires forall k :: 0 <= k < |measured| && measured[k].pipelined ==> children[k] == []
      ensures Valid() && (forall k :: 0 <= k < |this.loops| ==> elapsed[k] == 0 && !upsampled[k])
      ensures this.measured == measured && tree == RawTree(loops, Forest(parent, children), factor)
    {
      this.loops, this.parent, this.children, this.factor, this.measured := loops, parent, children, factor, measured;
      tree := RawTree(loops, Forest(parent, children), factor);
      elapsed := seq(|loops|, i => 0);
      upsampled := seq(|loops|, i => false);
    }

    /** Hands the correction up, multiplied by each factor on the way and truncated, and adds it at the root. */
    method UpsampleLoop(node: nat, correction: int)
      requires Valid() && node < |loops|
      modifies this`elapsed
      ensures Valid() && elapsed == old(elapsed)[0 := old(elapsed[0]) + HandUp(tree, node, correction)]
      decreases Above(loops, |loops|, node)
    {
      if node == 0 {
        elapsed := elapsed[0 := elapsed[0] + correction];
      } else {
        ParentHasFewerAbove(loops, parent, |loops|, node);
        UpsampleLoop(parent[node], Times(correction, factor[node]));
      }
    }

    /** Takes over the measured cycles of every sampled loop. */
    method SetElapsed(span: seq<int>)
      requires Valid() && |span| == |loops|
      modifies this`elapsed
      ensures Valid()
      ensures forall k :: 0 <= k < |loops| ==> elapsed[k] == if measured[k].sampled then span[k] else old(elapsed[k])
    {
      ghost var base := elapsed;
      for k := 0 to |loops|
        invariant Valid()
        invariant forall i :: 0 <= i < |loops| ==>
          elapsed[i] == if i < k && measured[i].sampled then span[i] else base[i]
      {
        if measured[k].sampled {
          elapsed := elapsed[k := span[k]];
        }
      }
    }
    /** Collects the iterations of a pipelined loop and marks them. */
    method MarkGroup(k: nat) returns (group: seq<nat>)
      requires Valid() && 0 < k < |loops|
      modifies this`upsampled
      ensures Valid() && group == GroupOf(tree, measured, k) && upsampled == Marked(old(upsampled), group)
    {
      var kids := children[parent[k]];
      KidsInRange(tree, parent[k]);
      ghost var was := upsampled;
      group := [];
      for i := 0 to |kids|
        invariant Valid() && group == Alike(measured, kids[..i], measured[k].name) && upsampled == Marked(was, group)
      {
        assert kids[..i + 1][..i] == kids[..i];
        if measured[kids[i]].name == measured[k].name {
          MarkOneMore(was, group, kids[i]);
          group := group + [kids[i]];
          upsampled := upsampled[kids[i] := true];
        }
      }
      assert kids[..|kids|] == kids;
    }

    static lemma MarkOneMore(up: seq<bool>, group: seq<nat>, x: nat)
      requires x < |up|
      ensures Marked(up, group + [x]) == Marked(up, group)[x := true]
    {
    }

    /** The intervals between adjacent iterations of a group. */
    method SumIntervals(group: seq<nat>) returns (total: int)
      requires forall i :: 0 <= i < |group| ==> group[i] < |measured|
      ensures total == Intervals(measured, group)
    {
      total := 0;
      for i := 0 to |group|
        invariant total == Intervals(measured, group[..if i < |group| then i + 1 else i])
      {
        if i + 1 < |group| {
          assert group[..i + 2][..i + 1] == group[..i + 1];
          total := total + measured[group[i + 1]].end - measured[group[i]].end;
        }
      }
      assert group[..|group|] == group;
    }

    /** The correction of loop `k`; the iterations of a pipelined one are marked together. */
    method Correct(k: nat) returns (correction: int)
      requires Valid() && 0 < k < |loops|
      modifies this`upsampled
      ensures Valid() && correction == CorrectionOf(tree, measured, elapsed, k)
      ensures upsampled ==
        if measured[k].pipelined then Marked(old(upsampled), GroupOf(tree, measured, k)) else old(upsampled)
    {
      correction := PlainCorrection(elapsed[k], factor[k]);
      if measured[k].pipelined {
        KidsInRange(tree, parent[k]);
        var group := MarkGroup(k);
        correction := CorrectGroup(group, factor[k]);
      }
    }

    method CorrectGroup(group: seq<nat>, f: real) returns (correction: int)
      requires forall i :: 0 <= i < |group| ==> group[i] < |measured|
      ensures correction == PipelinedCorrection(measured, group, f)
    {
      var total := SumIntervals(group);
      var average := if |group| > 1 then ToInt(ToSize(total) / (|group| - 1)) else 0;
      correction := Times(ToSize(average * |group|), f - 1.0);
    }

    /** Upsamples one loop, unless it is the root, not sampled, or upsampled before. */
    method UpsampleOne(k: nat, ghost base: seq<int>, ghost c: seq<int>)
      requires Valid() && k < |loops| && |base| == |c| == |loops| && elapsed == base[0 := elapsed[0]] && c[k] == 0
      modifies this`elapsed, this`upsampled
      ensures Valid()
      ensures var r := Corrected(tree, measured, base, Applied(c, old(upsampled)), k);
        && upsampled == r.upsampled
        && elapsed == base[0 := old(elapsed[0]) + if k == 0 then 0 else HandUp(tree, parent[k], r.correction[k])]
    {
      if k != 0 { NothingHandedUp(tree, parent[k]); }
      if measured[k].sampled && k != 0 && !upsampled[k] {
        var correction := Correct(k);
        UpsampleLoop(parent[k], correction);
        upsampled := upsampled[k := true];
      }
    }

    /** Upsamples every sampled loop that was not upsampled before. */
    method Propagate(ghost base: seq<int>, ghost was: seq<bool>)
      requires Valid() && elapsed == base && upsampled == was
      modifies this`elapsed, this`upsampled
      ensures Valid() && var r := AllCorrected(tree, measured, base, was, |loops|);
        upsampled == r.upsampled && elapsed == base[0 := base[0] + Total(tree, r.correction, |loops|)]
    {
      for k := 0 to |loops|
        invariant Valid() && upsampled == AllCorrected(tree, measured, base, was, k).upsampled
        invariant elapsed == base[0 := base[0] + Total(tree, AllCorrected(tree, measured, base, was, k).correction, k)]
      {
        ghost var a := AllCorrected(tree, measured, base, was, k);
        UpsampleOne(k, base, a.correction);
        TotalAgrees(tree, a.correction, AllCorrected(tree, measured, base, was, k + 1).correction, k);
      }
    }

    /** The root's total grows by what the corrections applied now come to; with whole factors, by the recursive
        meaning of the tree. */
    method UpsampleLoops(span: seq<int>) returns (total: int)
      requires Valid() && |span| == |loops|
      modifies this`elapsed, this`upsampled
      ensures Valid() && total == elapsed[0]
      ensures var r := AllCorrected(tree, measured, span, old(upsampled), |loops|);
        && upsampled == r.upsampled
        && total == old(elapsed[0]) + Total(tree, r.correction, |loops|)
        && (Whole(tree) ==> total == old(elapsed[0]) + RootMeaning(tree, r.correction))
    {
      SetElapsed(span);
      ghost var base, was := elapsed, upsampled;
      Propagate(base, was);
      ghost var c := AllCorrected(tree, measured, span, was, |loops|).correction;
      SameCorrections(tree, measured, base, span, was, |loops|);
      if Whole(tree) {
        TotalIsMeaning(tree, c, |loops|);
        assert Cut(c, |loops|) == c;
      }
      total := elapsed[0];
    }
  }

  lemma {:induction false} TotalAgrees(t: SampledTree, c: seq<int>, d: seq<int>, n: nat)
    requires |c| == |d| == |t.loops| && n <= |t.loops| && forall k :: 0 <= k < n ==> c[k] == d[k]
    ensures Total(t, c, n) == Total(t, d, n)
    decreases n
  {
    if n > 1 { TotalAgrees(t, c, d, n - 1); }
  }

  /** Only the cycles of sampled loops count. */
  lemma {:induction false} SameCorrections(t: SampledTree, ms: seq<Measured>, e: seq<int>, f: seq<int>,
                                           up: seq<bool>, n: nat)
    requires Describes(t, ms, e) && Describes(t, ms, f) && |up| == |ms| && n <= |ms|
    requires forall k :: 0 <= k < |ms| && ms[k].sampled ==> e[k] == f[k]
    ensures AllCorrected(t, ms, e, up, n) == AllCorrected(t, ms, f, up, n)
    decreases n
  {
    if n > 0 { SameCorrections(t, ms, e, f, up, n - 1); }
  }

  /** Once every sampled loop is upsampled, nothing is left to add, whatever the factors. */
  lemma NothingLeft(t: SampledTree, ms: seq<Measured>, span: seq<int>, up: seq<bool>)
    requires Describes(t, ms, span) && |up| == |ms| && forall k :: 0 <= k < |ms| && ms[k].sampled ==> up[k]
    ensures Total(t, AllCorrected(t, ms, span, up, |ms|).correction, |ms|) == 0
  {
    NothingCorrected(t, ms, span, up, |ms|);
    NothingTotals(t, AllCorrected(t, ms, span, up, |ms|).correction, |ms|);
  }

  lemma {:induction false} NothingCorrected(t: SampledTree, ms: seq<Measured>, span: seq<int>, up: seq<bool>, n: nat)
    requires Describes(t, ms, span) && |up| == |ms| && n <= |ms| && forall k :: 0 <= k < |ms| && ms[k].sampled ==> up[k]
    ensures AllCorrected(t, ms, span, up, n) == Applied(seq(|ms|, i => 0), up)
    decreases n
  {
    if n > 0 { NothingCorrected(t, ms, span, up, n - 1); }
  }

  lemma {:induction false} NothingTotals(t: SampledTree, c: seq<int>, n: nat)
    requires |c| == |t.loops| && n <= |c| && forall k :: 0 <= k < n ==> c[k] == 0
    ensures Total(t, c, n) == 0
    decreases n
  {
    if n > 1 {
      NothingTotals(t, c, n - 1);
      NothingHandedUp(t, t.links.parent[n - 1]);
    }
  }

  /** The iterations upsampled by a call are upsampled for good: the next call has nothing to do. */
  lemma {:induction false} CallUpsamplesAll(t: SampledTree, ms: seq<Measured>, elapsed: seq<int>, up: seq<bool>,
                                            n: nat, k: nat)
    requires Describes(t, ms, elapsed) && |up| == |ms| && k < n <= |ms| && ms[k].sampled
    ensures AllCorrected(t, ms, elapsed, up, n).upsampled[k]
    decreases n
  {
    if k < n - 1 { CallUpsamplesAll(t, ms, elapsed, up, n - 1, k); }
  }
}
