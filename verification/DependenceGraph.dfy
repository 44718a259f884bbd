/** The dynamic data dependence graph and the facts about acyclic graphs that the scheduler,
    the ALAP pass and the breadth-first search rest on. Vertices are dense indices, as in the
    boost adjacency list; edges carry the `parid` byte of the source. */
module DependenceGraph {
  import opened ExecNodes

  const MEMORY_EDGE := 255
  const REGISTER_EDGE := 5
  const FUSED_BRANCH_EDGE := 6
  const CONTROL_EDGE := 11

  datatype Edge = Edge(dst: nat, parid: nat)

  datatype Digraph = Digraph(nodes: seq<Node>, out: seq<seq<Edge>>)

  /** Out-edge lists are sets keyed by target (`setS`): no parallel edges. */
  ghost predicate WellFormed(g: Digraph) {
    && |g.out| == |g.nodes|
    && (forall u, k :: 0 <= u < |g.out| && 0 <= k < |g.out[u]| ==> g.out[u][k].dst < |g.nodes|)
    && (forall u, j, k :: 0 <= u < |g.out| && 0 <= j < k < |g.out[u]| ==> g.out[u][j].dst != g.out[u][k].dst)
  }

  type Graph = g: Digraph | WellFormed(g) witness Digraph([], [])

  function Targets(es: seq<Edge>): set<nat> {
    set e | e in es :: e.dst
  }

  predicate HasEdge(g: Graph, u: nat, v: nat) {
    u < |g.out| && v in Targets(g.out[u])
  }

  function Parents(g: Graph, v: nat): set<nat> {
    set u | 0 <= u < |g.out| && HasEdge(g, u, v)
  }

  /** The nodes that take part in scheduling. */
  predicate Connected(g: Graph, v: nat)
    requires v < |g.nodes|
  {
    g.out[v] != [] || Parents(g, v) != {} || g.nodes[v].IsDmaTransfer()
  }

  ghost predicate IsPath(g: Graph, p: seq<nat>) {
    && |p| > 0
    && (forall i :: 0 <= i < |p| ==> p[i] < |g.out|)
    && (forall i :: 0 <= i < |p| - 1 ==> HasEdge(g, p[i], p[i + 1]))
  }

  ghost predicate Acyclic(g: Graph) {
    forall p :: IsPath(g, p) && |p| >= 2 ==> p[0] != p[|p| - 1]
  }

  lemma EdgeEndsConnected(g: Graph, u: nat, v: nat)
    requires HasEdge(g, u, v)
    ensures u < |g.nodes| && v < |g.nodes| && Connected(g, u) && Connected(g, v)
    ensures u in Parents(g, v)
  {
    var e :| e in g.out[u] && e.dst == v;
    var k :| 0 <= k < |g.out[u]| && g.out[u][k] == e;
    assert u in Parents(g, v);
  }

  lemma SliceOfPath(g: Graph, p: seq<nat>, i: nat, j: nat)
    requires IsPath(g, p) && i <= j < |p|
    ensures IsPath(g, p[i..j + 1])
  {
    var q := p[i..j + 1];
    forall k | 0 <= k < |q| - 1 ensures HasEdge(g, q[k], q[k + 1]) {
      assert HasEdge(g, p[i + k], p[i + k + 1]);
    }
  }

  lemma PathNodesDistinct(g: Graph, p: seq<nat>)
    requires Acyclic(g) && IsPath(g, p)
    ensures forall i, j :: 0 <= i < j < |p| ==> p[i] != p[j]
  {
    forall i, j | 0 <= i < j < |p| ensures p[i] != p[j] {
      SliceOfPath(g, p, i, j);
      var q := p[i..j + 1];
      assert q[0] == p[i] && q[|q| - 1] == p[j];
    }
  }

  lemma {:induction false} DistinctFits(p: seq<nat>, s: set<nat>)
    requires forall i, j :: 0 <= i < j < |p| ==> p[i] != p[j]
    requires forall i :: 0 <= i < |p| ==> p[i] in s
    ensures |p| <= |s|
  {
    if p != [] {
      DistinctFits(p[1..], s - {p[0]});
    }
  }

  /** A path of any length stays inside a set in which every node has a parent. */
  lemma {:induction false} BackwardPath(g: Graph, s: set<nat>, len: nat) returns (p: seq<nat>)
    requires len > 0 && s != {}
    requires forall v :: v in s ==> v < |g.out| && Parents(g, v) * s != {}
    ensures IsPath(g, p) && |p| == len
    ensures forall i :: 0 <= i < |p| ==> p[i] in s
  {
    if len == 1 {
      var v :| v in s;
      p := [v];
    } else {
      var q := BackwardPath(g, s, len - 1);
      var u :| u in Parents(g, q[0]) * s;
      p := [u] + q;
      forall i | 0 <= i < |p| - 1 ensures HasEdge(g, p[i], p[i + 1]) {
        if i > 0 { assert HasEdge(g, q[i - 1], q[i]); }
      }
    }
  }

  /** Every nonempty set of nodes of an acyclic graph has a member none of whose parents is in it. */
  lemma SourceExists(g: Graph, s: set<nat>) returns (v: nat)
    requires Acyclic(g) && s != {}
    requires forall w :: w in s ==> w < |g.out|
    ensures v in s && Parents(g, v) * s == {}
  {
    if forall w :: w in s ==> Parents(g, w) * s != {} {
      var p := BackwardPath(g, s, |s| + 1);
      PathNodesDistinct(g, p);
      DistinctFits(p, s);
    }
    v :| v in s && Parents(g, v) * s == {};
  }

  /** Edges that always go from a smaller to a larger index leave no cycle. */
  lemma ForwardEdgesAcyclic(g: Graph)
    requires forall u, v :: HasEdge(g, u, v) ==> u < v
    ensures Acyclic(g)
  {
    forall p | IsPath(g, p) && |p| >= 2 ensures p[0] != p[|p| - 1] {
      ForwardPathGrows(g, p);
    }
  }

  lemma {:induction false} ForwardPathGrows(g: Graph, p: seq<nat>)
    requires forall u, v :: HasEdge(g, u, v) ==> u < v
    requires IsPath(g, p) && |p| >= 2
    ensures p[0] < p[|p| - 1]
    decreases |p|
  {
    assert HasEdge(g, p[0], p[1]);
    if |p| > 2 {
      SliceOfPath(g, p, 1, |p| - 1);
      var q := p[1..|p| - 1 + 1];
      assert q[|q| - 1] == p[|p| - 1];
      ForwardPathGrows(g, q);
    }
  }

  // ----- what lies below a node

  ghost predicate Leads(g: Graph, u: nat, v: nat) {
    exists p :: IsPath(g, p) && |p| >= 2 && p[0] == u && p[|p| - 1] == v
  }

  ghost function Descendants(g: Graph, u: nat): set<nat> {
    set v | 0 <= v < |g.out| && Leads(g, u, v)
  }

  lemma LeadsBack(g: Graph, u: nat, v: nat, w: nat)
    requires HasEdge(g, u, v) && Leads(g, v, w)
    ensures Leads(g, u, w)
  {
    var p :| IsPath(g, p) && |p| >= 2 && p[0] == v && p[|p| - 1] == w;
    var q := [u] + p;
    forall i | 0 <= i < |q| - 1 ensures HasEdge(g, q[i], q[i + 1]) {
      if i > 0 { assert HasEdge(g, p[i - 1], p[i]); }
    }
    assert IsPath(g, q) && q[0] == u && q[|q| - 1] == w;
  }

  /** A child has fewer descendants: recursion over the children of an acyclic graph ends. */
  lemma ChildHasFewer(g: Graph, u: nat, v: nat)
    requires Acyclic(g) && HasEdge(g, u, v)
    ensures Descendants(g, v) < Descendants(g, u)
  {
    EdgeEndsConnected(g, u, v);
    forall w | w in Descendants(g, v) ensures w in Descendants(g, u) {
      LeadsBack(g, u, v, w);
    }
    var p := [u, v];
    assert IsPath(g, p) && p[0] == u && p[|p| - 1] == v;
    assert v in Descendants(g, u) && v !in Descendants(g, v);
  }
}
