/** Building the tree of loop iterations by inserting one loop after another, as the class
    `LoopInfo` does: child lists and parent links are rewired in place. */
module LoopInfos {
  import opened Collections
  import opened LoopTree

  /** Some child already contains the loop, so the loop belongs further down. */
  ghost predicate Deeper(loops: seq<Interval>, kids: seq<nat>, loop: nat)
    requires loop < |loops| && Below(kids, |loops|)
  {
    exists i :: 0 <= i < |kids| && Contains(loops, kids[i], loop)
  }

  /** The parent links and the child list of `node` when `kids[..j]` have been looked at and none contains the loop. */
  ghost function PartialParents(loops: seq<Interval>, parent: seq<nat>, node: nat, loop: nat, kids: seq<nat>,
                                j: nat): (r: seq<nat>)
    requires |parent| == |loops| && loop < |loops| && j <= |kids| && Below(kids, |loops|)
    ensures |r| == |parent|
  {
    var moved := Moved(loops, loop, kids[..j]);
    MovedInRange(loops, loop, kids[..j]);
    if moved == [] then parent else Adopt(parent, loop, moved)[loop := node]
  }

  ghost function PartialKids(loops: seq<Interval>, loop: nat, kids: seq<nat>, j: nat): seq<nat>
    requires loop < |loops| && j <= |kids| && Below(kids, |loops|)
  {
    Kept(loops, loop, kids[..j]) + kids[j..]
  }

  ghost predicate TakingOver(loops: seq<Interval>, f: Forest, g: Forest, node: nat, loop: nat, j: nat, i: nat,
                             inserted: bool)
    requires |f.parent| == |f.children| == |loops| && node < |loops| && loop < |loops|
    requires Below(f.children[node], |loops|)
    requires j <= |f.children[node]|
  {
    var kids := f.children[node];
    && i == |Kept(loops, loop, kids[..j])|
    && (inserted <==> Moved(loops, loop, kids[..j]) != [])
    && g.parent == PartialParents(loops, f.parent, node, loop, kids, j)
    && g.children == f.children[node := PartialKids(loops, loop, kids, j)][loop := Moved(loops, loop, kids[..j])]
  }

  ghost predicate PassedDown(loops: seq<Interval>, f: Forest, g: Forest, node: nat, loop: nat, j: nat, i: nat,
                             inserted: bool, spot: nat)
    requires |f.parent| == |f.children| == |loops| && node < |loops| && loop < |loops|
    requires Below(f.children[node], |loops|)
    requires j <= |f.children[node]|
  {
    && i == j
    && (inserted <==> Deeper(loops, f.children[node][..j], loop))
    && (inserted ==> Host(loops, f, loop, spot, loop) && spot != node && Contains(loops, node, spot))
    && g == if inserted then Splice(loops, f, spot, loop) else f
  }

  ghost predicate Progress(loops: seq<Interval>, f: Forest, g: Forest, node: nat, loop: nat, j: nat, i: nat,
                           inserted: bool, spot: nat)
    requires |f.parent| == |f.children| == |loops| && node < |loops| && loop < |loops|
    requires Below(f.children[node], |loops|)
  {
    && j <= |f.children[node]|
    && if Deeper(loops, f.children[node], loop) then PassedDown(loops, f, g, node, loop, j, i, inserted, spot)
       else TakingOver(loops, f, g, node, loop, j, i, inserted)
  }

  ghost predicate Ready(loops: seq<Interval>, f: Forest, loop: nat) {
    && 0 < loop < |loops| && Distinct(loops) && Chained(loops)
    && Tree(loops, f, loop) && |f.children| == |loops| && f.children[loop] == []
  }

  /** Where the walk stands, the rest of the child list is still the original one. */
  lemma RestOfList(loops: seq<Interval>, f: Forest, g: Forest, node: nat, loop: nat, j: nat, i: nat,
                   inserted: bool, spot: nat)
    requires Ready(loops, f, loop) && node < loop && Below(f.children[node], |loops|)
    requires Progress(loops, f, g, node, loop, j, i, inserted, spot)
    ensures |g.children| == |g.parent| == |loops| && i <= |g.children[node]|
    ensures g.children[node][i..] == f.children[node][j..]
  {
  }

  lemma Begin(loops: seq<Interval>, f: Forest, node: nat, loop: nat)
    requires Ready(loops, f, loop) && node < loop && Below(f.children[node], |loops|)
    ensures Progress(loops, f, f, node, loop, 0, 0, false, node)
  {
    var kids := f.children[node];
    assert kids[..0] == [] && kids[0..] == kids;
    assert PartialKids(loops, loop, kids, 0) == kids;
    assert f.children == f.children[node := kids][loop := []];
  }

  lemma ChildrenInRange(loops: seq<Interval>, f: Forest, loop: nat, node: nat)
    requires Tree(loops, f, loop) && node < loop && |f.children| == |loops|
    ensures Below(f.children[node], loop) && Below(f.children[node], |loops|)
    ensures forall i :: 0 <= i < |f.children[node]| ==>
      0 < f.children[node][i] < loop && f.parent[f.children[node][i]] == node
  {
    forall i | 0 <= i < |f.children[node]|
      ensures 0 < f.children[node][i] < loop && f.parent[f.children[node][i]] == node
    {
      assert Listed(f, loop, node, f.children[node][i]);
    }
  }

  /** Siblings do not contain each other, and a child that contains the loop rules out the others. */
  lemma OneWayDown(loops: seq<Interval>, f: Forest, loop: nat, node: nat, a: nat, b: nat)
    requires Ready(loops, f, loop) && node < loop
    requires a in f.children[node] && b in f.children[node] && 0 < a < loop && 0 < b < loop && a != b
    requires Contains(loops, a, loop)
    ensures !Contains(loops, b, loop) && !Contains(loops, loop, b)
  {
    assert Listed(f, loop, node, a) && Listed(f, loop, node, b);
    assert !Contains(loops, a, b) by { if Contains(loops, a, b) { SameContents(loops, a, node); } }
    assert !Contains(loops, b, a) by { if Contains(loops, b, a) { SameContents(loops, b, node); } }
  }

  ghost function Inner(loops: seq<Interval>, n: nat, node: nat): set<nat>
    requires n <= |loops| && node < |loops|
  {
    set k | 0 < k < n && k != node && Contains(loops, node, k)
  }

  lemma InnerShrinks(loops: seq<Interval>, f: Forest, loop: nat, node: nat, c: nat)
    requires Ready(loops, f, loop) && node < loop && 0 < c < loop && f.parent[c] == node
    ensures Inner(loops, loop, c) < Inner(loops, loop, node)
  {
    forall k | k in Inner(loops, loop, c) ensures k in Inner(loops, loop, node) {
      if k == node { SameContents(loops, c, node); }
    }
    assert c in Inner(loops, loop, node);
  }

  // ----- how a child is passed

  lemma SplitStep(loops: seq<Interval>, loop: nat, kids: seq<nat>, j: nat)
    requires loop < |loops| && j < |kids| && Below(kids, |loops|)
    ensures var inside := Contains(loops, loop, kids[j]);
      && Moved(loops, loop, kids[..j + 1]) ==
        (if inside then Moved(loops, loop, kids[..j]) + [kids[j]] else Moved(loops, loop, kids[..j]))
      && Kept(loops, loop, kids[..j + 1]) == Kept(loops, loop, kids[..j]) +
           if !inside then [kids[j]] else if Moved(loops, loop, kids[..j]) == [] then [loop] else []
  {
    assert kids[..j + 1][..j] == kids[..j];
  }

  lemma ParentsStep(loops: seq<Interval>, parent: seq<nat>, node: nat, loop: nat, kids: seq<nat>, j: nat)
    requires |parent| == |loops| && loop < |loops| && j < |kids| && Below(kids, |loops|) && kids[j] != loop
    requires Contains(loops, loop, kids[j])
    ensures PartialParents(loops, parent, node, loop, kids, j + 1) ==
      PartialParents(loops, parent, node, loop, kids, j)[loop := node][kids[j] := loop]
  {
    SplitStep(loops, loop, kids, j);
    var moved := Moved(loops, loop, kids[..j]);
    MovedInRange(loops, loop, kids[..j]);
    assert (moved + [kids[j]])[..|moved|] == moved;
    SwapUpdates(Adopt(parent, loop, moved), loop, node, kids[j]);
  }

  lemma SwapUpdates(s: seq<nat>, loop: nat, node: nat, c: nat)
    requires loop < |s| && c < |s| && c != loop
    ensures s[c := loop][loop := node] == s[loop := node][c := loop]
    ensures s[loop := node][loop := node] == s[loop := node]
  {
  }

  /** The child list after the iterator erased entry `i` and, the first time, put the loop in its place. */
  function Replaced(list: seq<nat>, i: nat, loop: nat): seq<nat>
    requires i < |list|
  {
    var rest := list[..i] + list[i + 1..];
    if loop !in rest then rest[..i] + [loop] + rest[i..] else rest
  }

  lemma KidsStep(loops: seq<Interval>, loop: nat, kids: seq<nat>, j: nat, i: nat)
    requires loop < |loops| && j < |kids| && Below(kids, |loops|) && loop !in kids
    requires Contains(loops, loop, kids[j]) && i == |Kept(loops, loop, kids[..j])|
    ensures var list := PartialKids(loops, loop, kids, j);
      && i < |list| && list[i] == kids[j] && |list[..i] + list[i + 1..]| == |list| - 1
      && (loop !in list[..i] + list[i + 1..] <==> Moved(loops, loop, kids[..j]) == [])
      && Replaced(list, i, loop) == PartialKids(loops, loop, kids, j + 1)
  {
    var kept, tail := Kept(loops, loop, kids[..j]), kids[j + 1..];
    SplitStep(loops, loop, kids, j);
    KeptMembers(loops, loop, kids[..j], loop);
    assert kids[j..] == [kids[j]] + tail;
    assert loop !in tail;
    ReplacedMiddle(kept, kids[j], tail, loop);
  }

  lemma ReplacedMiddle(kept: seq<nat>, x: nat, tail: seq<nat>, loop: nat)
    requires loop !in tail
    ensures var list, i := kept + ([x] + tail), |kept|;
      && list[i] == x && list[..i] + list[i + 1..] == kept + tail && (loop in kept + tail <==> loop in kept)
      && Replaced(list, i, loop) == (if loop !in kept then kept + [loop] else kept) + tail
  {
    var list, i := kept + ([x] + tail), |kept|;
    assert list[..i] == kept && list[i + 1..] == tail;
    assert (kept + tail)[..i] == kept && (kept + tail)[i..] == tail;
  }

  lemma NotDeeper(loops: seq<Interval>, f: Forest, node: nat, loop: nat, j: nat)
    requires Ready(loops, f, loop) && node < loop && Below(f.children[node], |loops|)
    requires j < |f.children[node]| && Contains(loops, loop, f.children[node][j])
    ensures !Deeper(loops, f.children[node], loop)
  {
    var kids := f.children[node];
    ChildrenInRange(loops, f, loop, node);
    if e :| 0 <= e < |kids| && Contains(loops, kids[e], loop) {
      if kids[e] == kids[j] {
        SameContents(loops, kids[j], loop);
      } else {
        OneWayDown(loops, f, loop, node, kids[e], kids[j]);
      }
    }
  }

  /** A child inside the loop is taken over. */
  lemma TakenOver(loops: seq<Interval>, f: Forest, g: Forest, node: nat, loop: nat, j: nat, i: nat,
                  inserted: bool, spot: nat)
    requires Ready(loops, f, loop) && node < loop && Below(f.children[node], |loops|)
    requires Progress(loops, f, g, node, loop, j, i, inserted, spot) && j < |f.children[node]|
    requires |g.children| == |g.parent| == |loops| && i < |g.children[node]|
    requires Contains(loops, loop, f.children[node][j])
    ensures var c := f.children[node][j];
      var list := g.children[node];
      && list[i] == c < |loops|
      && Progress(loops, f,
                  Forest(g.parent[loop := node][c := loop],
                         g.children[loop := g.children[loop] + [c]][node := Replaced(list, i, loop)]),
                  node, loop, j + 1, if loop !in list[..i] + list[i + 1..] then i + 1 else i, true, spot)
  {
    var kids := f.children[node];
    ChildrenInRange(loops, f, loop, node);
    NotDeeper(loops, f, node, loop, j);
    assert loop !in kids;
    TakeOverNext(loops, f, g, node, loop, j, i, inserted);
  }

  lemma TakeOverNext(loops: seq<Interval>, f: Forest, g: Forest, node: nat, loop: nat, j: nat, i: nat, inserted: bool)
    requires |f.parent| == |f.children| == |loops| && node < |loops| && loop < |loops| && node != loop
    requires Below(f.children[node], |loops|) && loop !in f.children[node] && j < |f.children[node]|
    requires TakingOver(loops, f, g, node, loop, j, i, inserted) && Contains(loops, loop, f.children[node][j])
    ensures |g.children| == |g.parent| == |loops| && i < |g.children[node]|
    ensures g.children[node][i] == f.children[node][j]
    ensures var c, list := f.children[node][j], g.children[node];
      var after := Forest(g.parent[loop := node][c := loop],
                          g.children[loop := g.children[loop] + [c]][node := Replaced(list, i, loop)]);
      TakingOver(loops, f, after, node, loop, j + 1, if loop !in list[..i] + list[i + 1..] then i + 1 else i, true)
  {
    var kids := f.children[node];
    UpdatesOverride(f.children, node, loop, PartialKids(loops, loop, kids, j), Moved(loops, loop, kids[..j]),
                    PartialKids(loops, loop, kids, j + 1), Moved(loops, loop, kids[..j + 1]));
    KidsStep(loops, loop, kids, j, i);
    ParentsStep(loops, f.parent, node, loop, kids, j);
    SplitStep(loops, loop, kids, j);
  }

  lemma UpdatesOverride(s: seq<seq<nat>>, i: nat, j: nat, a: seq<nat>, b: seq<nat>, x: seq<nat>, y: seq<nat>)
    requires i < |s| && j < |s| && i != j
    ensures s[i := a][j := b][i] == a && s[i := a][j := b][j] == b
    ensures s[i := a][j := b][j := y][i := x] == s[i := x][j := y]
  {
  }

  /** A child that neither contains the loop nor lies in it is stepped over. */
  lemma SteppedOver(loops: seq<Interval>, f: Forest, g: Forest, node: nat, loop: nat, j: nat, i: nat,
                    inserted: bool, spot: nat)
    requires Ready(loops, f, loop) && node < loop && Below(f.children[node], |loops|)
    requires Progress(loops, f, g, node, loop, j, i, inserted, spot) && j < |f.children[node]|
    requires !Contains(loops, loop, f.children[node][j]) && !Contains(loops, f.children[node][j], loop)
    ensures Progress(loops, f, g, node, loop, j + 1, i + 1, inserted, spot)
  {
    var kids := f.children[node];
    if Deeper(loops, kids, loop) {
      DeeperStep(loops, kids, loop, j);
    } else {
      KidStays(loops, f.parent, node, loop, kids, j);
    }
  }

  lemma KidStays(loops: seq<Interval>, parent: seq<nat>, node: nat, loop: nat, kids: seq<nat>, j: nat)
    requires |parent| == |loops| && loop < |loops| && j < |kids| && Below(kids, |loops|)
    requires !Contains(loops, loop, kids[j])
    ensures Moved(loops, loop, kids[..j + 1]) == Moved(loops, loop, kids[..j])
    ensures |Kept(loops, loop, kids[..j + 1])| == |Kept(loops, loop, kids[..j])| + 1
    ensures PartialKids(loops, loop, kids, j + 1) == PartialKids(loops, loop, kids, j)
    ensures PartialParents(loops, parent, node, loop, kids, j + 1) == PartialParents(loops, parent, node, loop, kids, j)
  {
    SplitStep(loops, loop, kids, j);
    assert kids[j..] == [kids[j]] + kids[j + 1..];
  }

  lemma DeeperStep(loops: seq<Interval>, kids: seq<nat>, loop: nat, j: nat)
    requires loop < |loops| && Below(kids, |loops|) && j < |kids|
    ensures Deeper(loops, kids[..j + 1], loop) <==> Deeper(loops, kids[..j], loop) || Contains(loops, kids[j], loop)
  {
    var next := kids[..j + 1];
    if i :| 0 <= i < |next| && Contains(loops, next[i], loop) {
      assert i < j ==> kids[..j][i] == kids[i];
    }
    if i :| 0 <= i < |kids[..j]| && Contains(loops, kids[..j][i], loop) { assert kids[..j + 1][i] == kids[i]; }
    assert kids[..j + 1][j] == kids[j];
  }

  /** The one child that contains the loop took it. */
  lemma PassedOn(loops: seq<Interval>, f: Forest, g: Forest, node: nat, loop: nat, j: nat, i: nat,
                 inserted: bool, spot: nat, host: nat)
    requires Ready(loops, f, loop) && node < loop && Below(f.children[node], |loops|)
    requires Progress(loops, f, g, node, loop, j, i, inserted, spot) && j < |f.children[node]|
    requires Contains(loops, f.children[node][j], loop)
    ensures !inserted && g == f
    ensures Host(loops, f, loop, host, loop) && Contains(loops, f.children[node][j], host) ==>
      Progress(loops, f, Splice(loops, f, host, loop), node, loop, j + 1, i + 1, true, host)
  {
    var kids := f.children[node];
    ChildrenInRange(loops, f, loop, node);
    assert Deeper(loops, kids, loop);
    if e :| 0 <= e < |kids[..j]| && Contains(loops, kids[..j][e], loop) {
      assert NoDuplicates(kids) && kids[e] != kids[j];
      OneWayDown(loops, f, loop, node, kids[e], kids[j]);
    }
    DeeperStep(loops, kids, loop, j);
    assert Contains(loops, node, kids[j]);
    if Contains(loops, kids[j], node) { SameContents(loops, kids[j], node); }
  }

  /** All children passed: either the loop is in place further down, or it goes here. */
  lemma Ended(loops: seq<Interval>, f: Forest, g: Forest, node: nat, loop: nat, j: nat, i: nat, inserted: bool,
              spot: nat) returns (host: nat)
    requires Ready(loops, f, loop) && node < loop && Below(f.children[node], |loops|) && Contains(loops, node, loop)
    requires Progress(loops, f, g, node, loop, j, i, inserted, spot)
    requires |g.children| == |g.parent| == |loops| && i >= |g.children[node]|
    ensures Host(loops, f, loop, host, loop) && Contains(loops, node, host)
    ensures Splice(loops, f, host, loop) ==
      if inserted then g else Forest(g.parent[loop := node], g.children[node := g.children[node] + [loop]])
  {
    host := if Deeper(loops, f.children[node], loop) then spot else node;
    var kids := f.children[node];
    RestOfList(loops, f, g, node, loop, j, i, inserted, spot);
    assert |kids[j..]| == 0;
    assert kids[..|kids|] == kids;
    if Deeper(loops, kids, loop) {
      assert Host(loops, f, loop, spot, loop) && Contains(loops, node, spot) && g == Splice(loops, f, spot, loop);
    } else {
      assert kids[|kids|..] == [];
      assert Host(loops, f, loop, node, loop) by {
        forall c: nat | c in kids ensures !Contains(loops, c, loop) {}
      }
      assert PartialKids(loops, loop, kids, |kids|) == Kept(loops, loop, kids);
      if inserted {
        assert g.children == Splice(loops, f, node, loop).children;
        assert g == Splice(loops, f, node, loop) && Contains(loops, node, node);
      } else {
        assert g.children[node := g.children[node] + [loop]] == Splice(loops, f, node, loop).children;
      }
    }
  }

  class LoopInfo {
    /** One entry per loop iteration, the root first. */
    var loops: seq<Interval>
    var parent: seq<nat>
    var children: seq<seq<nat>>

    ghost function Links(): Forest
      reads this`parent, this`children
    {
      Forest(parent, children)
    }

    /** Moves the child at `i` from `node` to `loop`; returns where the walk goes on. */
    method TakeOver(node: nat, loop: nat, i: nat) returns (next: nat)
      requires |parent| == |children| == |loops| && node < |loops| && loop < |loops| && node != loop
      requires i < |children[node]| && children[node][i] < |loops|
      modifies this`parent, this`children
      ensures var list, c := old(children[node]), old(children[node][i]);
        && Links() == Forest(old(parent)[loop := node][c := loop],
                             old(children)[loop := old(children[loop]) + [c]][node := Replaced(list, i, loop)])
        && next == if loop !in list[..i] + list[i + 1..] then i + 1 else i
    {
      var c := children[node][i];
      parent := parent[loop := node];
      children := children[loop := children[loop] + [c]];
      parent := parent[c := loop];
      next := i;
      var rest := children[node][..i] + children[node][i + 1..];
      if loop !in rest {
        rest := rest[..i] + [loop] + rest[i..];
        next := i + 1;
      }
      children := children[node := rest];
    }

    /** Inserts the newest loop below `node` if `node` contains it: it ends up under the smallest
        loop that contains it, and takes over the children there that it contains. */
    method InsertLoop(node: nat, loop: nat) returns (inserted: bool, ghost host: nat)
      requires |parent| == |children| == |loops| && node < loop == |loops| - 1
      requires Contains(loops, node, loop) ==> Ready(loops, Links(), loop)
      modifies this`parent, this`children
      ensures inserted <==> Contains(loops, node, loop)
      ensures !inserted ==> Links() == old(Links())
      ensures inserted ==> Host(loops, old(Links()), loop, host, loop) && Contains(loops, node, host)
      ensures inserted ==> Links() == Splice(loops, old(Links()), host, loop)
      decreases Inner(loops, loop, node), 3
    {
      if !Contains(loops, node, loop) {
        return false, node;
      }
      ghost var f := Links();
      ChildrenInRange(loops, f, loop, node);
      if |children[node]| == 0 {
        children := children[node := children[node] + [loop]];
        parent := parent[loop := node];
        return true, node;
      }
      inserted, host := InsertBelow(node, loop);
    }

    /** Walks over the children of `node`, then adds the loop here if it found no other place. */
    method InsertBelow(node: nat, loop: nat) returns (inserted: bool, ghost host: nat)
      requires |parent| == |children| == |loops| && node < loop == |loops| - 1
      requires Contains(loops, node, loop) && Ready(loops, Links(), loop)
      modifies this`parent, this`children
      ensures inserted
      ensures Host(loops, old(Links()), loop, host, loop) && Contains(loops, node, host)
      ensures Links() == Splice(loops, old(Links()), host, loop)
      decreases Inner(loops, loop, node), 2
    {
      ghost var f := Links();
      ChildrenInRange(loops, f, loop, node);
      Begin(loops, f, node, loop);
      var i: nat;
      ghost var j: nat, spot: nat;
      inserted, i, j, spot := WalkChildren(node, loop, f);
      host := Ended(loops, f, Links(), node, loop, j, i, inserted, spot);
      if !inserted {
        children := children[node := children[node] + [loop]];
        parent := parent[loop := node];
        inserted := true;
      }
    }

    method WalkChildren(node: nat, loop: nat, ghost f: Forest)
      returns (inserted: bool, i: nat, ghost j: nat, ghost spot: nat)
      requires |parent| == |children| == |loops| && node < loop == |loops| - 1
      requires Ready(loops, f, loop) && Below(f.children[node], |loops|)
      requires Progress(loops, f, Links(), node, loop, 0, 0, false, node)
      modifies this`parent, this`children
      ensures |parent| == |children| == |loops|
      ensures i >= |children[node]| && Progress(loops, f, Links(), node, loop, j, i, inserted, spot)
      decreases Inner(loops, loop, node), 1
    {
      inserted, i, j, spot := false, 0, 0, node;
      while i < |children[node]|
        invariant |parent| == |children| == |loops|
        invariant Progress(loops, f, Links(), node, loop, j, i, inserted, spot)
        decreases |f.children[node]| - j
      {
        i, inserted, spot := PassChild(node, loop, i, f, j, inserted, spot);
        j := j + 1;
      }
    }

    /** One turn of the walk over the children of `node`. */
    method PassChild(node: nat, loop: nat, i: nat, ghost f: Forest, ghost j: nat, was: bool, ghost at: nat)
      returns (next: nat, inserted: bool, ghost spot: nat)
      requires |parent| == |children| == |loops| && node < loop == |loops| - 1
      requires Ready(loops, f, loop) && Below(f.children[node], |loops|)
      requires Progress(loops, f, Links(), node, loop, j, i, was, at)
      requires i < |children[node]|
      modifies this`parent, this`children
      ensures |parent| == |children| == |loops|
      ensures j < |f.children[node]| && Progress(loops, f, Links(), node, loop, j + 1, next, inserted, spot)
      decreases Inner(loops, loop, node), 0
    {
      ChildrenInRange(loops, f, loop, node);
      RestOfList(loops, f, Links(), node, loop, j, i, was, at);
      var c := children[node][i];
      assert c == children[node][i..][0] == f.children[node][j];
      InnerShrinks(loops, f, loop, node, c);
      if Contains(loops, loop, c) {
        TakenOver(loops, f, Links(), node, loop, j, i, was, at);
        next := TakeOver(node, loop, i);
        return next, true, at;
      }
      ghost var before := Links();
      if Contains(loops, c, loop) {
        PassedOn(loops, f, before, node, loop, j, i, was, at, at);
      } else {
        SteppedOver(loops, f, before, node, loop, j, i, was, at);
      }
      var below, host := InsertLoop(c, loop);
      if below {
        PassedOn(loops, f, before, node, loop, j, i, was, at, host);
      }
      return i + 1, was || below, if below then host else at;
    }

    /** Numbers one more loop and inserts it below the root. */
    method AddLoop(bound: Interval)
      requires Distinct(loops + [bound]) && Chained(loops + [bound])
      requires Tree(loops, Links(), |loops|) && |parent| == |children| == |loops|
      modifies this
      ensures loops == old(loops) + [bound] && |parent| == |children| == |loops|
      ensures Tree(loops, Links(), |loops|)
    {
      Append(bound);
      InsertNewest();
    }

    /** One more loop, not in the tree yet. */
    method Append(bound: Interval)
      requires Distinct(loops + [bound]) && Chained(loops + [bound])
      requires Tree(loops, Links(), |loops|) && |parent| == |children| == |loops|
      modifies this
      ensures loops == old(loops) + [bound] && |parent| == |children| == |loops|
      ensures Ready(loops, Links(), |loops| - 1)
    {
      ghost var before, f := loops, Links();
      loops, parent, children := loops + [bound], parent + [0], children + [[]];
      TreeWidens(before, loops, f, Links(), |before|);
    }

    method InsertNewest()
      requires |parent| == |children| == |loops| > 1 && Ready(loops, Links(), |loops| - 1)
      modifies this`parent, this`children
      ensures |parent| == |children| == |loops| && Tree(loops, Links(), |loops|)
    {
      ghost var g, n := Links(), |loops| - 1;
      var inserted, host := InsertLoop(0, |loops| - 1);
      SpliceKeepsTree(loops, g, n, host, n);
    }

    /** Whatever the order of the loops, every one ends up once in the tree, under the smallest
        loop that contains it or under the root. */
    method BuildLoopTree(bounds: seq<Interval>)
      requires Distinct([ROOT] + bounds) && Chained([ROOT] + bounds)
      modifies this
      ensures loops == [ROOT] + bounds
      ensures Tree(loops, Links(), |loops|)
    {
      loops, parent, children := [ROOT], [0], [[]];
      for i := 0 to |bounds|
        invariant loops == [ROOT] + bounds[..i]
        invariant Tree(loops, Links(), |loops|) && |parent| == |children| == |loops|
      {
        PrefixChained([ROOT] + bounds, i + 2);
        assert ([ROOT] + bounds)[..i + 2] == loops + [bounds[i]];
        AddLoop(bounds[i]);
      }
    }
  }

  const ROOT := Interval(0, 0)

  lemma PrefixChained(loops: seq<Interval>, n: nat)
    requires Distinct(loops) && Chained(loops) && n <= |loops|
    ensures Distinct(loops[..n]) && Chained(loops[..n])
  {
    var p := loops[..n];
    forall k, a, b | 0 < k < n && 0 < a < n && 0 < b < n && a != k && b != k && Contains(p, a, k) && Contains(p, b, k)
      ensures Contains(p, a, b) || Contains(p, b, a)
    {
      assert Contains(loops, a, k) && Contains(loops, b, k);
    }
  }

  lemma TreeWidens(small: seq<Interval>, loops: seq<Interval>, f: Forest, g: Forest, n: nat)
    requires Tree(small, f, n) && |small| == n == |f.children| && |loops| == n + 1 && small == loops[..n]
    requires g == Forest(f.parent + [0], f.children + [[]])
    ensures Tree(loops, g, n)
  {
    forall k | 0 < k < n ensures g.parent[k] < n && g.parent[k] != k && Contains(loops, g.parent[k], k) {
      assert Contains(small, f.parent[k], k);
    }
    forall k, m | 0 < k < n && 0 <= m < n && m != k && Contains(loops, m, k) ensures Contains(loops, m, g.parent[k]) {
      assert Contains(small, m, k) && Contains(small, f.parent[k], k);
      assert Contains(small, m, f.parent[k]);
    }
    forall p: nat, k: nat | p < n ensures Listed(g, n, p, k) {
      assert Listed(f, n, p, k);
    }
  }
}
