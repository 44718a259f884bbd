/** Breadth-first search without a visited set, over the edges that are not control edges. */
module ShortestDistance {
  import opened Collections
  import opened ExecNodes
  import opened DependenceGraph

  /** The targets of the edges that are not control edges, in order. */
  function DataChildren(es: seq<Edge>): seq<nat> {
    ChildrenFrom(es, 0)
  }

  function ChildrenFrom(es: seq<Edge>, k: nat): seq<nat>
    requires k <= |es|
    decreases |es| - k
  {
    if k == |es| then []
    else (if es[k].parid != CONTROL_EDGE then [es[k].dst] else []) + ChildrenFrom(es, k + 1)
  }

  predicate DataEdge(g: Graph, u: nat, v: nat) {
    u < |g.out| && v in DataChildren(g.out[u])
  }

  lemma {:induction false} ChildrenInside(es: seq<Edge>, k: nat, v: nat)
    requires k <= |es| && v in ChildrenFrom(es, k)
    ensures exists i :: 0 <= i < |es| && es[i].dst == v && es[i].parid != CONTROL_EDGE
    decreases |es| - k
  {
    if !(es[k].parid != CONTROL_EDGE && es[k].dst == v) {
      ChildrenInside(es, k + 1, v);
    }
  }

  lemma {:induction false} ChildrenComplete(es: seq<Edge>, k: nat, i: nat)
    requires k <= i < |es| && es[i].parid != CONTROL_EDGE
    ensures es[i].dst in ChildrenFrom(es, k)
    decreases |es| - k
  {
    if k < i { ChildrenComplete(es, k + 1, i); }
  }

  /** The search follows the edges of every kind but control edges, whose kind is 11. */
  lemma DataEdgeIff(g: Graph, u: nat, v: nat)
    requires u < |g.nodes|
    ensures DataEdge(g, u, v) <==> exists k :: 0 <= k < |g.out[u]| && g.out[u][k].dst == v && g.out[u][k].parid != 11
  {
    if DataEdge(g, u, v) { ChildrenInside(g.out[u], 0, v); }
    if k :| 0 <= k < |g.out[u]| && g.out[u][k].dst == v && g.out[u][k].parid != 11 {
      ChildrenComplete(g.out[u], 0, k);
    }
  }

  lemma DataEdgeIsEdge(g: Graph, u: nat, v: nat)
    requires DataEdge(g, u, v)
    ensures HasEdge(g, u, v) && v < |g.nodes|
  {
    ChildrenInside(g.out[u], 0, v);
    var k :| 0 <= k < |g.out[u]| && g.out[u][k].dst == v && g.out[u][k].parid != CONTROL_EDGE;
    assert g.out[u][k] in g.out[u];
  }

  // ----- the meaning of the search

  /** A walk along data edges; its length is |p| - 1. */
  ghost predicate DataPath(g: Graph, p: seq<nat>) {
    && |p| > 0
    && (forall i :: 0 <= i < |p| ==> p[i] < |g.nodes|)
    && (forall i :: 0 <= i < |p| - 1 ==> DataEdge(g, p[i], p[i + 1]))
  }

  ghost predicate Walk(g: Graph, u: nat, v: nat, len: nat) {
    exists p :: DataPath(g, p) && |p| == len + 1 && p[0] == u && p[|p| - 1] == v
  }

  /** The nodes at the end of walks of a given length from `u`. */
  ghost function Layer(g: Graph, u: nat, len: nat): (r: set<nat>)
    requires u < |g.nodes|
  {
    if len == 0 then {u}
    else Successors(g, Layer(g, u, len - 1))
  }

  ghost function Successors(g: Graph, s: set<nat>): set<nat> {
    set x, v | x in s && 0 <= v < |g.nodes| && DataEdge(g, x, v) :: v
  }

  lemma WalkExtends(g: Graph, u: nat, x: nat, v: nat, len: nat)
    requires Walk(g, u, x, len) && DataEdge(g, x, v)
    ensures Walk(g, u, v, len + 1)
  {
    DataEdgeIsEdge(g, x, v);
    var q :| DataPath(g, q) && |q| == len + 1 && q[0] == u && q[|q| - 1] == x;
    var p := q + [v];
    forall i | 0 <= i < |p| - 1 ensures DataEdge(g, p[i], p[i + 1]) {
      if i < |q| - 1 { assert DataEdge(g, q[i], q[i + 1]); }
    }
    assert DataPath(g, p) && |p| == len + 2 && p[0] == u && p[|p| - 1] == v;
  }

  lemma WalkShortens(g: Graph, u: nat, v: nat, len: nat) returns (x: nat)
    requires Walk(g, u, v, len + 1)
    ensures x < |g.nodes| && v < |g.nodes| && Walk(g, u, x, len) && DataEdge(g, x, v)
  {
    var p :| DataPath(g, p) && |p| == len + 2 && p[0] == u && p[|p| - 1] == v;
    assert DataEdge(g, p[len], p[len + 1]);
    x := p[len];
    var q := p[..len + 1];
    assert DataPath(g, q) && |q| == len + 1 && q[0] == u && q[|q| - 1] == x;
  }

  lemma {:induction false} LayerWalked(g: Graph, u: nat, v: nat, len: nat)
    requires u < |g.nodes| && v in Layer(g, u, len)
    ensures Walk(g, u, v, len)
    decreases len
  {
    if len == 0 {
      assert DataPath(g, [u]) && |[u]| == 1 && [u][0] == u;
    } else {
      var x :| x in Layer(g, u, len - 1) && DataEdge(g, x, v);
      LayerWalked(g, u, x, len - 1);
      WalkExtends(g, u, x, v, len - 1);
    }
  }

  lemma {:induction false} WalkLayered(g: Graph, u: nat, v: nat, len: nat)
    requires u < |g.nodes| && Walk(g, u, v, len)
    ensures v in Layer(g, u, len)
    decreases len
  {
    if len > 0 {
      var x := WalkShortens(g, u, v, len - 1);
      WalkLayered(g, u, x, len - 1);
    }
  }

  lemma LayerIsWalks(g: Graph, u: nat, v: nat, len: nat)
    requires u < |g.nodes|
    ensures v in Layer(g, u, len) <==> Walk(g, u, v, len)
  {
    if v in Layer(g, u, len) { LayerWalked(g, u, v, len); }
    if Walk(g, u, v, len) { WalkLayered(g, u, v, len); }
  }

  lemma {:induction false} EmptyLayers(g: Graph, u: nat, d: nat, len: nat)
    requires u < |g.nodes| && d <= len && Layer(g, u, d) == {}
    ensures Layer(g, u, len) == {}
    decreases len - d
  {
    if d < len {
      EmptyLayers(g, u, d + 1, len);
    }
  }

  // ----- termination: every queued node leaves finitely many paths

  /** Number of walks that leave a node, counting the empty one. */
  ghost function PathCount(g: Graph, u: nat): nat
    requires Acyclic(g) && u < |g.nodes|
    decreases Descendants(g, u), 1, 0
  {
    1 + PathCounts(g, u, DataChildren(g.out[u]))
  }

  ghost function PathCounts(g: Graph, u: nat, children: seq<nat>): nat
    requires Acyclic(g) && u < |g.nodes|
    requires forall k :: 0 <= k < |children| ==> DataEdge(g, u, children[k])
    decreases Descendants(g, u), 0, |children|
  {
    if children == [] then 0
    else
      DataEdgeIsEdge(g, u, children[0]);
      ChildHasFewer(g, u, children[0]);
      PathCount(g, children[0]) + PathCounts(g, u, children[1..])
  }

  datatype Item = Item(node: nat, dist: nat)

  ghost predicate InGraph(g: Graph, queue: seq<Item>) {
    forall k :: 0 <= k < |queue| ==> queue[k].node < |g.nodes|
  }

  ghost function Pending(g: Graph, queue: seq<Item>): nat
    requires Acyclic(g) && InGraph(g, queue)
  {
    if queue == [] then 0 else PathCount(g, queue[0].node) + Pending(g, queue[1..])
  }

  lemma {:induction false} PendingConcat(g: Graph, queue: seq<Item>, tail: seq<Item>)
    requires Acyclic(g) && InGraph(g, queue) && InGraph(g, tail)
    ensures InGraph(g, queue + tail)
    ensures Pending(g, queue + tail) == Pending(g, queue) + Pending(g, tail)
  {
    if queue == [] {
      assert queue + tail == tail;
    } else {
      assert (queue + tail)[1..] == queue[1..] + tail;
      PendingConcat(g, queue[1..], tail);
    }
  }

  function Items(children: seq<nat>, dist: nat): (r: seq<Item>)
    ensures |r| == |children|
  {
    if children == [] then [] else [Item(children[0], dist)] + Items(children[1..], dist)
  }

  lemma {:induction false} ItemAt(children: seq<nat>, dist: nat, k: nat)
    requires k < |children|
    ensures Items(children, dist)[k] == Item(children[k], dist)
  {
    if k > 0 { ItemAt(children[1..], dist, k - 1); }
  }

  /** One more edge looked at. */
  lemma EdgeQueued(es: seq<Edge>, k: nat, dist: nat)
    requires k < |es|
    ensures Items(ChildrenFrom(es, k), dist) ==
      (if es[k].parid != CONTROL_EDGE then [Item(es[k].dst, dist)] else []) + Items(ChildrenFrom(es, k + 1), dist)
  {
    if es[k].parid != CONTROL_EDGE {
      assert ChildrenFrom(es, k)[1..] == ChildrenFrom(es, k + 1);
    } else {
      assert ChildrenFrom(es, k) == ChildrenFrom(es, k + 1);
    }
  }

  /** Of the children `all`, those behind the edges before `k` are queued, and none of them is `to`. */
  ghost predicate QueuedTo(all: seq<nat>, es: seq<Edge>, k: nat, to: nat, dist: nat, tail: seq<Item>)
    requires k <= |es|
  {
    && (to in all <==> to in ChildrenFrom(es, k))
    && tail + Items(ChildrenFrom(es, k), dist) == Items(all, dist)
  }

  lemma QueuedNext(all: seq<nat>, es: seq<Edge>, k: nat, to: nat, dist: nat, tail: seq<Item>)
    requires k < |es| && QueuedTo(all, es, k, to, dist, tail)
    ensures if es[k].parid == CONTROL_EDGE then QueuedTo(all, es, k + 1, to, dist, tail)
      else if es[k].dst == to then to in all
      else QueuedTo(all, es, k + 1, to, dist, tail + [Item(es[k].dst, dist)])
  {
    EdgeQueued(es, k, dist);
    Regroup(tail, Item(es[k].dst, dist), Items(ChildrenFrom(es, k + 1), dist));
  }

  lemma Regroup(tail: seq<Item>, x: Item, rest: seq<Item>)
    ensures tail + ([x] + rest) == tail + [x] + rest && tail + ([] + rest) == tail + rest
  {
    assert [] + rest == rest;
  }

  lemma {:induction false} ItemsPending(g: Graph, u: nat, children: seq<nat>, dist: nat)
    requires Acyclic(g) && u < |g.nodes|
    requires forall k :: 0 <= k < |children| ==> DataEdge(g, u, children[k])
    requires InGraph(g, Items(children, dist))
    ensures Pending(g, Items(children, dist)) == PathCounts(g, u, children)
  {
    if children != [] {
      assert Items(children, dist)[1..] == Items(children[1..], dist);
      assert forall k :: 0 <= k < |children| - 1 ==> Items(children[1..], dist)[k] == Items(children, dist)[k + 1];
      ItemsPending(g, u, children[1..], dist);
    }
  }

  // ----- the search

  function Nodes(q: seq<Item>): set<nat> {
    set x | x in q :: x.node
  }

  /** The layer `dist` is `done` plus the first `m` queued nodes; the rest of the queue is what
      `done` leads to; the target has not been met. */
  ghost predicate Searching(g: Graph, from: nat, to: nat, queue: seq<Item>, dist: nat, done: set<nat>, m: nat)
    requires from < |g.nodes|
  {
    && m <= |queue|
    && InGraph(g, queue)
    && (forall k :: 0 <= k < |queue| ==> queue[k].dist == if k < m then dist else dist + 1)
    && Layer(g, from, dist) == done + Nodes(queue[..m])
    && Successors(g, done) == Nodes(queue[m..])
    && to !in Successors(g, done)
    && (forall len :: 0 < len <= dist ==> to !in Layer(g, from, len))
  }

  /** When the current layer is used up, the queue is the next layer. */
  lemma NextLayer(g: Graph, from: nat, to: nat, queue: seq<Item>, dist: nat, done: set<nat>)
    requires from < |g.nodes| && Searching(g, from, to, queue, dist, done, 0)
    ensures Searching(g, from, to, queue, dist + 1, {}, |queue|)
  {
    assert Nodes(queue[..0]) == {};
    assert queue[0..] == queue && queue[..|queue|] == queue && Nodes(queue[|queue|..]) == {};
    assert Successors(g, {}) == {};
  }

  lemma SuccessorsGrow(g: Graph, done: set<nat>, x: nat)
    requires x < |g.nodes|
    ensures Successors(g, done + {x}) == Successors(g, done) + Elements(DataChildren(g.out[x]))
  {
    forall v | v in DataChildren(g.out[x]) ensures v < |g.nodes| && DataEdge(g, x, v) {
      DataEdgeIsEdge(g, x, v);
    }
  }

  /** Expanding the front of the queue. */
  lemma Expanded(g: Graph, from: nat, to: nat, queue: seq<Item>, dist: nat, done: set<nat>, m: nat, tail: seq<Item>)
    requires from < |g.nodes| && Searching(g, from, to, queue, dist, done, m) && m > 0
    requires InGraph(g, tail) && forall k :: 0 <= k < |tail| ==> tail[k].dist == dist + 1
    requires Nodes(tail) == Elements(DataChildren(g.out[queue[0].node]))
    requires to !in DataChildren(g.out[queue[0].node])
    ensures Searching(g, from, to, (queue + tail)[1..], dist, done + {queue[0].node}, m - 1)
  {
    var x := queue[0].node;
    var next := (queue + tail)[1..];
    SuccessorsGrow(g, done, x);
    FrontNodes(queue, tail, m);
  }

  lemma FrontNodes(queue: seq<Item>, tail: seq<Item>, m: nat)
    requires 0 < m <= |queue|
    ensures var next := (queue + tail)[1..];
      && next[..m - 1] == queue[..m][1..] && next[m - 1..] == queue[m..] + tail
      && Nodes(queue[..m]) == {queue[0].node} + Nodes(next[..m - 1])
      && Nodes(next[m - 1..]) == Nodes(queue[m..]) + Nodes(tail)
  {
    var next := (queue + tail)[1..];
    assert next[..m - 1] == queue[..m][1..] && queue[..m] == [queue[0]] + queue[..m][1..];
    assert next[m - 1..] == queue[m..] + tail;
  }

  lemma Exhausted(g: Graph, from: nat, to: nat, dist: nat, done: set<nat>, m: nat)
    requires from < |g.nodes| && Searching(g, from, to, [], dist, done, m)
    ensures forall len: nat :: len > 0 ==> !Walk(g, from, to, len)
  {
    assert Layer(g, from, dist + 1) == {} by {
      assert Nodes([]) == {};
    }
    forall len: nat | len > 0 ensures !Walk(g, from, to, len) {
      LayerIsWalks(g, from, to, len);
      if len > dist { EmptyLayers(g, from, dist + 1, len); }
    }
  }

  /** `d` is the length of the shortest nonempty walk. */
  ghost predicate Shortest(g: Graph, from: nat, to: nat, d: nat)
    requires from < |g.nodes|
  {
    d > 0 && Walk(g, from, to, d) && forall len: nat :: 0 < len < d ==> !Walk(g, from, to, len)
  }

  /** Found below the front of the queue. */
  lemma Found(g: Graph, from: nat, to: nat, queue: seq<Item>, dist: nat, done: set<nat>, m: nat)
    requires from < |g.nodes| && Searching(g, from, to, queue, dist, done, m) && m > 0
    requires to in DataChildren(g.out[queue[0].node])
    ensures Shortest(g, from, to, dist + 1)
  {
    assert queue[..m][0] == queue[0];
    assert queue[0].node in Layer(g, from, dist);
    LayerIsWalks(g, from, queue[0].node, dist);
    WalkExtends(g, from, queue[0].node, to, dist);
    forall len: nat | 0 < len <= dist ensures !Walk(g, from, to, len) { LayerIsWalks(g, from, to, len); }
  }

  /** Popping the front and queueing its children leaves one path less. */
  lemma PendingShrinks(g: Graph, queue: seq<Item>, tail: seq<Item>, dist: nat)
    requires Acyclic(g) && queue != [] && InGraph(g, queue)
    requires tail == Items(DataChildren(g.out[queue[0].node]), dist) && InGraph(g, tail)
    ensures InGraph(g, (queue + tail)[1..])
    ensures Pending(g, (queue + tail)[1..]) + 1 == Pending(g, queue)
  {
    var rest := queue[1..];
    assert (queue + tail)[1..] == rest + tail;
    assert Pending(g, tail) + 1 == PathCount(g, queue[0].node) by {
      ItemsPending(g, queue[0].node, DataChildren(g.out[queue[0].node]), dist);
    }
    PendingConcat(g, rest, tail);
  }

  /** Queues the data children of one node; stops at the target. */
  method Expand(g: Graph, x: nat, to: nat, dist: nat) returns (found: bool, tail: seq<Item>)
    requires x < |g.nodes|
    ensures found <==> to in DataChildren(g.out[x])
    ensures !found ==> tail == Items(DataChildren(g.out[x]), dist + 1)
  {
    found, tail := false, [];
    var es := g.out[x];
    for k := 0 to |es|
      invariant QueuedTo(DataChildren(es), es, k, to, dist + 1, tail)
    {
      QueuedNext(DataChildren(es), es, k, to, dist + 1, tail);
      if es[k].parid != CONTROL_EDGE {
        if es[k].dst == to {
          return true, tail;
        }
        tail := tail + [Item(es[k].dst, dist + 1)];
      }
    }
  }

  lemma ItemsInGraph(g: Graph, x: nat, dist: nat)
    requires x < |g.nodes|
    ensures var tail := Items(DataChildren(g.out[x]), dist);
      && InGraph(g, tail)
      && (forall k :: 0 <= k < |tail| ==> tail[k].dist == dist)
      && Nodes(tail) == Elements(DataChildren(g.out[x]))
  {
    var children := DataChildren(g.out[x]);
    var tail := Items(children, dist);
    forall k | 0 <= k < |tail| ensures tail[k].node < |g.nodes| && tail[k].dist == dist && tail[k].node in children {
      ItemAt(children, dist, k);
      DataEdgeIsEdge(g, x, children[k]);
    }
    forall v | v in children ensures v in Nodes(tail) {
      var k :| 0 <= k < |children| && children[k] == v;
      ItemAt(children, dist, k);
      assert tail[k] in tail && tail[k].node == v;
    }
  }

  /** One turn of the search that does not meet the target. */
  lemma Turn(g: Graph, from: nat, to: nat, queue: seq<Item>, dist: nat, done: set<nat>, m: nat, tail: seq<Item>)
    requires Acyclic(g) && from < |g.nodes| && Searching(g, from, to, queue, dist, done, m) && m > 0
    requires to !in DataChildren(g.out[queue[0].node])
    requires tail == Items(DataChildren(g.out[queue[0].node]), dist + 1)
    ensures Searching(g, from, to, (queue + tail)[1..], dist, done + {queue[0].node}, m - 1)
    ensures Pending(g, (queue + tail)[1..]) < Pending(g, queue)
  {
    ItemsInGraph(g, queue[0].node, dist + 1);
    Expanded(g, from, to, queue, dist, done, m, tail);
    PendingShrinks(g, queue, tail, dist + 1);
  }

  /** What the search knows besides the queue. */
  datatype Progress = Progress(dist: nat, done: set<nat>, m: nat)

  ghost predicate At(g: Graph, from: nat, to: nat, queue: seq<Item>, p: Progress)
    requires from < |g.nodes|
  {
    Searching(g, from, to, queue, p.dist, p.done, p.m)
  }

  lemma Current(g: Graph, from: nat, to: nat, queue: seq<Item>, p: Progress) returns (r: Progress)
    requires from < |g.nodes| && At(g, from, to, queue, p) && queue != []
    ensures At(g, from, to, queue, r) && r.m > 0 && queue[0].dist == r.dist && queue[0].node < |g.nodes|
  {
    r := p;
    if p.m == 0 {
      NextLayer(g, from, to, queue, p.dist, p.done);
      r := Progress(p.dist + 1, {}, |queue|);
    }
  }

  lemma Start(g: Graph, from: nat, to: nat)
    requires from < |g.nodes|
    ensures Searching(g, from, to, [Item(from, 0)], 0, {}, 1)
  {
    var queue := [Item(from, 0)];
    assert queue[..1] == [Item(from, 0)] && queue[1..] == [];
    assert Successors(g, {}) == {} && Nodes(queue[..1]) == {from} && Nodes(queue[1..]) == {};
  }

  /** Expands the front of the queue. */
  method Advance(g: Graph, from: nat, to: nat, queue: seq<Item>, ghost p: Progress)
    returns (found: bool, d: nat, next: seq<Item>, ghost r: Progress)
    requires Acyclic(g) && from < |g.nodes| && queue != [] && At(g, from, to, queue, p)
    ensures found ==> Shortest(g, from, to, d)
    ensures !found ==> At(g, from, to, next, r) && Pending(g, next) < Pending(g, queue)
  {
    r := Current(g, from, to, queue, p);
    var x := queue[0];
    var tail;
    found, tail := Expand(g, x.node, to, x.dist);
    d, next := x.dist + 1, (queue + tail)[1..];
    if found {
      Found(g, from, to, queue, r.dist, r.done, r.m);
    } else {
      r := TurnAt(g, from, to, queue, r, tail);
    }
  }

  lemma TurnAt(g: Graph, from: nat, to: nat, queue: seq<Item>, p: Progress, tail: seq<Item>) returns (r: Progress)
    requires Acyclic(g) && from < |g.nodes| && queue != [] && At(g, from, to, queue, p) && p.m > 0
    requires queue[0].node < |g.nodes| && to !in DataChildren(g.out[queue[0].node])
    requires tail == Items(DataChildren(g.out[queue[0].node]), p.dist + 1)
    ensures At(g, from, to, (queue + tail)[1..], r)
    ensures InGraph(g, (queue + tail)[1..]) && InGraph(g, queue) && Pending(g, (queue + tail)[1..]) < Pending(g, queue)
  {
    Turn(g, from, to, queue, p.dist, p.done, p.m, tail);
    r := Progress(p.dist, p.done + {queue[0].node}, p.m - 1);
  }

  /** The length of the shortest nonempty path avoiding control edges, or -1 when there is none. */
  method ShortestDistanceBetweenNodes(g: Graph, from: nat, to: nat) returns (d: int)
    requires Acyclic(g) && from < |g.nodes|
    ensures d == -1 <==> forall len: nat :: len > 0 ==> !Walk(g, from, to, len)
    ensures d != -1 ==> d > 0 && Walk(g, from, to, d) && forall len: nat :: 0 < len < d ==> !Walk(g, from, to, len)
  {
    var queue := [Item(from, 0)];
    ghost var p := Progress(0, {}, 1);
    Start(g, from, to);
    while queue != []
      invariant At(g, from, to, queue, p)
      decreases Pending(g, queue)
    {
      var found;
      found, d, queue, p := Advance(g, from, to, queue, p);
      if found {
        return;
      }
    }
    Exhausted(g, from, to, p.dist, p.done, p.m);
    d := -1;
  }
}
