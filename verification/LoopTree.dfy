/** The tree of loop iterations: what it means, and what splicing in one more loop does.
    Loops are numbered in order of insertion; number 0 is the root, which contains every loop. */
module LoopTree {
  import opened Collections

  /** The node ids at which a loop iteration starts and ends. */
  datatype Interval = Interval(start: nat, end: nat)

  /** `LoopIteration::contains`. */
  predicate Contains(loops: seq<Interval>, m: nat, k: nat)
    requires m < |loops| && k < |loops|
  {
    m == 0 || (k != 0 && loops[m].start <= loops[k].start && loops[m].end >= loops[k].end)
  }

  ghost predicate Distinct(loops: seq<Interval>) {
    forall i, j :: 0 < i < j < |loops| ==> loops[i] != loops[j]
  }

  /** The loops around any one loop are nested in each other. */
  ghost predicate Chained(loops: seq<Interval>) {
    forall k, a, b | 0 < k < |loops| && 0 < a < |loops| && 0 < b < |loops| && a != k && b != k ::
      Contains(loops, a, k) && Contains(loops, b, k) ==> Contains(loops, a, b) || Contains(loops, b, a)
  }

  datatype Forest = Forest(parent: seq<nat>, children: seq<seq<nat>>)

  /** Each loop's parent contains it, and whatever else contains the loop contains the parent. */
  ghost predicate SmallestParents(loops: seq<Interval>, parent: seq<nat>, n: nat) {
    && 1 <= n <= |loops| == |parent|
    && (forall k :: 0 < k < n ==> parent[k] < n && parent[k] != k && Contains(loops, parent[k], k))
    && (forall k, m :: 0 < k < n && 0 <= m < n && m != k && Contains(loops, m, k) ==> Contains(loops, m, parent[k]))
  }

  /** Each loop is in the child list of its parent, once, and in no other. */
  ghost predicate ListedOnce(f: Forest, n: nat) {
    && n <= |f.parent| == |f.children|
    && (forall p: nat, k: nat :: p < n ==> Listed(f, n, p, k))
    && (forall p: nat :: p < n ==> NoDuplicates(f.children[p]))
  }

  ghost predicate Listed(f: Forest, n: nat, p: nat, k: nat)
    requires p < n <= |f.parent| == |f.children|
  {
    k in f.children[p] <==> 0 < k < n && f.parent[k] == p
  }

  ghost predicate Tree(loops: seq<Interval>, f: Forest, n: nat) {
    SmallestParents(loops, f.parent, n) && ListedOnce(f, n)
  }

  lemma SameContents(loops: seq<Interval>, a: nat, b: nat)
    requires Distinct(loops) && a < |loops| && b < |loops| && Contains(loops, a, b) && Contains(loops, b, a)
    ensures a == b
  {
    if a > 0 && b > 0 {
      assert loops[a] == loops[b];
    }
  }

  // ----- when such a tree exists

  ghost function Above(loops: seq<Interval>, n: nat, k: nat): set<nat>
    requires k < n <= |loops|
  {
    set m | 0 <= m < n && m != k && Contains(loops, m, k)
  }

  lemma ParentHasFewerAbove(loops: seq<Interval>, parent: seq<nat>, n: nat, k: nat)
    requires Distinct(loops) && SmallestParents(loops, parent, n) && 0 < k < n
    ensures Above(loops, n, parent[k]) < Above(loops, n, k)
  {
    var p := parent[k];
    forall m | m in Above(loops, n, p) ensures m in Above(loops, n, k) {
      if m == k { SameContents(loops, k, p); }
    }
    assert p in Above(loops, n, k);
  }

  /** A tree of smallest parents exists only for chained loops. */
  lemma {:induction false} TreeNeedsChains(loops: seq<Interval>, parent: seq<nat>, n: nat, k: nat, a: nat, b: nat)
    requires Distinct(loops) && SmallestParents(loops, parent, n)
    requires k < n && a < n && b < n && a != k && b != k && Contains(loops, a, k) && Contains(loops, b, k)
    ensures Contains(loops, a, b) || Contains(loops, b, a)
    decreases Above(loops, n, k)
  {
    if a != 0 && b != 0 {
      var p := parent[k];
      assert Contains(loops, a, p) && Contains(loops, b, p);
      if a != p && b != p {
        ParentHasFewerAbove(loops, parent, n, k);
        TreeNeedsChains(loops, parent, n, p, a, b);
      }
    }
  }

  /** Loops that are nested or share at most an endpoint, and that end after they start, are chained. */
  lemma NestedOrApartIsChained(loops: seq<Interval>)
    requires forall i :: 0 < i < |loops| ==> loops[i].start < loops[i].end
    requires forall i, j :: 0 < i < |loops| && 0 < j < |loops| ==>
      Contains(loops, i, j) || Contains(loops, j, i) || loops[i].end <= loops[j].start || loops[j].end <= loops[i].start
    ensures Chained(loops)
  {
  }

  /** A loop that starts and ends at the same node, where two others touch, has no smallest parent. */
  lemma PointBetweenTwoLoops(parent: seq<nat>)
    requires |parent| == 4
    ensures !SmallestParents([Interval(0, 0), Interval(1, 5), Interval(5, 9), Interval(5, 5)], parent, 4)
  {
    var loops := [Interval(0, 0), Interval(1, 5), Interval(5, 9), Interval(5, 5)];
    if SmallestParents(loops, parent, 4) {
      TreeNeedsChains(loops, parent, 4, 3, 1, 2);
    }
  }

  // ----- the host of a new loop

  /** The node under which `loop` belongs: it contains the loop and none of its children does. */
  ghost predicate Host(loops: seq<Interval>, f: Forest, n: nat, m: nat, loop: nat) {
    && m < n <= loop < |loops| == |f.children|
    && Contains(loops, m, loop) && Below(f.children[m], |loops|)
    && (forall c: nat :: c in f.children[m] ==> !Contains(loops, c, loop))
  }

  /** Whatever lies inside a node lies inside one of its children. */
  lemma {:induction false} ChildAbove(loops: seq<Interval>, f: Forest, n: nat, m: nat, k: nat) returns (c: nat)
    requires Distinct(loops) && Tree(loops, f, n) && m < n && 0 < k < n && m != k && Contains(loops, m, k)
    ensures c in f.children[m] && 0 < c < n && Contains(loops, c, k)
    decreases Above(loops, n, k)
  {
    var p := f.parent[k];
    if p == m {
      assert Listed(f, n, m, k);
      c := k;
    } else {
      ParentHasFewerAbove(loops, f.parent, n, k);
      assert Contains(loops, m, p);
      c := ChildAbove(loops, f, n, m, p);
    }
  }

  lemma HostIsSmallest(loops: seq<Interval>, f: Forest, n: nat, m: nat, loop: nat, a: nat)
    requires Distinct(loops) && Chained(loops) && Tree(loops, f, n) && Host(loops, f, n, m, loop)
    requires a < n && Contains(loops, a, loop)
    ensures Contains(loops, a, m)
  {
    if !Contains(loops, a, m) {
      assert m == 0 || Contains(loops, m, a);
      var c := ChildAbove(loops, f, n, m, a);
    }
  }

  // ----- splicing

  predicate Below(s: seq<nat>, n: nat) {
    forall i :: 0 <= i < |s| ==> s[i] < n
  }

  /** The children that the new loop contains, in order. */
  function Moved(loops: seq<Interval>, loop: nat, kids: seq<nat>): seq<nat>
    requires loop < |loops| && Below(kids, |loops|)
  {
    if kids == [] then []
    else
      var c := kids[|kids| - 1];
      Moved(loops, loop, kids[..|kids| - 1]) + if Contains(loops, loop, c) then [c] else []
  }

  /** The children that stay; the new loop stands in for the first one it takes over. */
  function Kept(loops: seq<Interval>, loop: nat, kids: seq<nat>): seq<nat>
    requires loop < |loops| && Below(kids, |loops|)
  {
    if kids == [] then []
    else
      var s, c := kids[..|kids| - 1], kids[|kids| - 1];
      Kept(loops, loop, s) +
        if !Contains(loops, loop, c) then [c] else if Moved(loops, loop, s) == [] then [loop] else []
  }

  function Adopt(parent: seq<nat>, loop: nat, kids: seq<nat>): (r: seq<nat>)
    requires Below(kids, |parent|)
    ensures |r| == |parent|
  {
    if kids == [] then parent
    else Adopt(parent, loop, kids[..|kids| - 1])[kids[|kids| - 1] := loop]
  }

  lemma {:induction false} AdoptAt(parent: seq<nat>, loop: nat, kids: seq<nat>, k: nat)
    requires k < |parent| && Below(kids, |parent|)
    ensures Adopt(parent, loop, kids)[k] == if k in kids then loop else parent[k]
  {
    if kids != [] {
      AdoptAt(parent, loop, kids[..|kids| - 1], k);
      assert kids == kids[..|kids| - 1] + [kids[|kids| - 1]];
    }
  }

  lemma {:induction false} MovedMembers(loops: seq<Interval>, loop: nat, kids: seq<nat>, k: nat)
    requires loop < |loops| && Below(kids, |loops|)
    ensures k in Moved(loops, loop, kids) <==> k in kids && Contains(loops, loop, k)
  {
    if kids != [] {
      MovedMembers(loops, loop, kids[..|kids| - 1], k);
      assert kids == kids[..|kids| - 1] + [kids[|kids| - 1]];
    }
  }

  lemma {:induction false} KeptMembers(loops: seq<Interval>, loop: nat, kids: seq<nat>, k: nat)
    requires loop < |loops| && Below(kids, |loops|) && loop !in kids
    ensures k in Kept(loops, loop, kids) <==>
      (k in kids && !Contains(loops, loop, k)) || (k == loop && Moved(loops, loop, kids) != [])
  {
    if kids != [] {
      KeptMembers(loops, loop, kids[..|kids| - 1], k);
      assert kids == kids[..|kids| - 1] + [kids[|kids| - 1]];
    }
  }

  lemma {:induction false} SplitsKeepOrder(loops: seq<Interval>, loop: nat, kids: seq<nat>)
    requires loop < |loops| && Below(kids, |loops|) && loop !in kids && NoDuplicates(kids)
    ensures NoDuplicates(Moved(loops, loop, kids)) && NoDuplicates(Kept(loops, loop, kids))
  {
    if kids != [] {
      var s, c := kids[..|kids| - 1], kids[|kids| - 1];
      SplitsKeepOrder(loops, loop, s);
      MovedMembers(loops, loop, s, c);
      KeptMembers(loops, loop, s, c);
      KeptMembers(loops, loop, s, loop);
    }
  }

  /** The children of `m` after the whole insertion. */
  function Settled(loops: seq<Interval>, loop: nat, kids: seq<nat>): seq<nat>
    requires loop < |loops| && Below(kids, |loops|)
  {
    Kept(loops, loop, kids) + if Moved(loops, loop, kids) == [] then [loop] else []
  }

  /** `loop` under `m`, taking over the children of `m` it contains. */
  function Splice(loops: seq<Interval>, f: Forest, m: nat, loop: nat): Forest
    requires |f.parent| == |f.children| == |loops| && m < |loops| && loop < |loops| && Below(f.children[m], |loops|)
  {
    var kids := f.children[m];
    var moved := Moved(loops, loop, kids);
    MovedInRange(loops, loop, kids);
    Forest(Adopt(f.parent, loop, moved)[loop := m], f.children[m := Settled(loops, loop, kids)][loop := moved])
  }

  lemma MovedInRange(loops: seq<Interval>, loop: nat, kids: seq<nat>)
    requires loop < |loops| && Below(kids, |loops|)
    ensures Below(Moved(loops, loop, kids), |loops|)
  {
    var moved := Moved(loops, loop, kids);
    forall i | 0 <= i < |moved| ensures moved[i] < |loops| { MovedMembers(loops, loop, kids, moved[i]); }
  }

  lemma SplicedParent(loops: seq<Interval>, f: Forest, n: nat, m: nat, loop: nat, k: nat)
    requires Tree(loops, f, n) && Host(loops, f, n, m, loop) && loop == n && k <= n
    ensures Splice(loops, f, m, loop).parent[k] ==
      if k == loop then m else if k in f.children[m] && Contains(loops, loop, k) then loop else f.parent[k]
  {
    var moved := Moved(loops, loop, f.children[m]);
    MovedInRange(loops, loop, f.children[m]);
    AdoptAt(f.parent, loop, moved, k);
    MovedMembers(loops, loop, f.children[m], k);
  }

  /** A loop inside the new one is taken over exactly when the host was its parent. */
  lemma InnerParent(loops: seq<Interval>, f: Forest, n: nat, m: nat, loop: nat, k: nat)
    requires Distinct(loops) && Chained(loops) && Tree(loops, f, n) && Host(loops, f, n, m, loop) && loop == n
    requires 0 < k < n && Contains(loops, loop, k)
    ensures f.parent[k] == m || Contains(loops, loop, f.parent[k])
  {
    var p := f.parent[k];
    if !Contains(loops, loop, p) {
      assert p == 0 || Contains(loops, p, loop);
      HostIsSmallest(loops, f, n, m, loop, p);
      assert m != k by {
        if m == k { SameContents(loops, m, loop); }
      }
      assert Contains(loops, m, k) && Contains(loops, m, p);
      SameContents(loops, m, p);
    }
  }

  lemma SpliceSmallest(loops: seq<Interval>, f: Forest, n: nat, m: nat, loop: nat)
    requires Distinct(loops) && Chained(loops) && Tree(loops, f, n) && Host(loops, f, n, m, loop) && loop == n
    ensures SmallestParents(loops, Splice(loops, f, m, loop).parent, n + 1)
  {
    var parent := Splice(loops, f, m, loop).parent;
    forall k | 0 < k < n + 1
      ensures parent[k] < n + 1 && parent[k] != k && Contains(loops, parent[k], k)
    {
      SplicedParent(loops, f, n, m, loop, k);
    }
    forall k, a | 0 < k < n + 1 && 0 <= a < n + 1 && a != k && Contains(loops, a, k)
      ensures Contains(loops, a, parent[k])
    {
      SplicedParent(loops, f, n, m, loop, k);
      assert Listed(f, n, m, k);
      if k == loop {
        HostIsSmallest(loops, f, n, m, loop, a);
      } else if a == loop {
        InnerParent(loops, f, n, m, loop, k);
      } else if parent[k] == loop {
        assert Contains(loops, a, m);
      }
    }
  }

  lemma SplicedMember(loops: seq<Interval>, f: Forest, n: nat, m: nat, loop: nat, p: nat, k: nat)
    requires Tree(loops, f, n) && Host(loops, f, n, m, loop) && loop == n && p <= n
    ensures Listed(Splice(loops, f, m, loop), n + 1, p, k)
  {
    var kids := f.children[m];
    assert Listed(f, n, m, loop);
    MovedMembers(loops, loop, kids, k);
    KeptMembers(loops, loop, kids, k);
    if k <= n { SplicedParent(loops, f, n, m, loop, k); }
    assert p < n ==> Listed(f, n, p, k);
    assert Listed(f, n, m, k);
  }

  lemma SpliceListed(loops: seq<Interval>, f: Forest, n: nat, m: nat, loop: nat)
    requires Distinct(loops) && Tree(loops, f, n) && Host(loops, f, n, m, loop) && loop == n
    ensures ListedOnce(Splice(loops, f, m, loop), n + 1)
  {
    var g, next := Splice(loops, f, m, loop), n + 1;
    forall p: nat, k: nat | p < next ensures Listed(g, next, p, k) {
      SplicedMember(loops, f, n, m, loop, p, k);
    }
    forall p: nat | p < next ensures NoDuplicates(g.children[p]) {
      var kids := f.children[m];
      assert Listed(f, n, m, loop);
      SplitsKeepOrder(loops, loop, kids);
      KeptMembers(loops, loop, kids, loop);
    }
  }

  /** Splicing under the host keeps the tree. */
  lemma SpliceKeepsTree(loops: seq<Interval>, f: Forest, n: nat, m: nat, loop: nat)
    requires Distinct(loops) && Chained(loops) && Tree(loops, f, n) && Host(loops, f, n, m, loop) && loop == n
    ensures Tree(loops, Splice(loops, f, m, loop), n + 1)
  {
    SpliceSmallest(loops, f, n, m, loop);
    SpliceListed(loops, f, n, m, loop);
  }
}
