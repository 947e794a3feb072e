/**
 * The graph data model: labelled nodes identified by their position in the
 * node list, undirected weighted edges that refer to nodes by position, label
 * lookup with `find` semantics, the edge-resolution loop of graph generation,
 * and the walks and walk weights that the shortest-path contract is stated in.
 */
module Graphs {
  import opened Wrappers

  /** A node. The source also stores an `id` equal to the label and random
      screen coordinates; the core never reads them. */
  datatype Node = Node(nodeLabel: string)

  /** An undirected edge between the nodes at positions `source` and `target`. */
  datatype Edge = Edge(id: nat, source: nat, target: nat, weight: int)

  /** One already-parsed edge spec "labelA-labelB weight". */
  datatype EdgeSpec = EdgeSpec(labelA: string, labelB: string, weight: int)

  datatype Graph = Graph(nodes: seq<Node>, edges: seq<Edge>)

  /** `nodes.find(node => node.nodeLabel === label)`: the position of the FIRST
      node labelled `wanted`, or None when no node carries it. */
  function Find(nodes: seq<Node>, wanted: string): (r: Option<nat>)
    ensures r.Some? ==> r.value < |nodes| && nodes[r.value].nodeLabel == wanted
    ensures r.Some? ==> forall j :: 0 <= j < r.value ==> nodes[j].nodeLabel != wanted
    ensures r.None? <==> forall j :: 0 <= j < |nodes| ==> nodes[j].nodeLabel != wanted
  {
    if nodes == [] then None
    else if nodes[0].nodeLabel == wanted then Some(0)
    else match Find(nodes[1..], wanted)
      case None => None
      case Some(i) => Some(i + 1)
  }

  /** Node `i` is the one `find` returns for its own label. */
  predicate IsFirst(nodes: seq<Node>, i: nat) {
    i < |nodes| && Find(nodes, nodes[i].nodeLabel) == Some(i)
  }

  /** Both labels of the spec resolve to a node. */
  predicate Resolves(nodes: seq<Node>, sp: EdgeSpec) {
    Find(nodes, sp.labelA).Some? && Find(nodes, sp.labelB).Some?
  }

  /** A spec resolves exactly when some node carries each of its two labels. */
  lemma ResolvesMeaning(nodes: seq<Node>, sp: EdgeSpec)
    ensures Resolves(nodes, sp) <==>
      (exists i :: 0 <= i < |nodes| && nodes[i].nodeLabel == sp.labelA) &&
      (exists j :: 0 <= j < |nodes| && nodes[j].nodeLabel == sp.labelB)
  {
    if Find(nodes, sp.labelA).Some? && Find(nodes, sp.labelB).Some? {
      assert nodes[Find(nodes, sp.labelA).value].nodeLabel == sp.labelA;
      assert nodes[Find(nodes, sp.labelB).value].nodeLabel == sp.labelB;
    }
  }

  /** The specs that survive edge resolution, in input order. */
  function Kept(nodes: seq<Node>, specs: seq<EdgeSpec>): (r: seq<EdgeSpec>)
    ensures |r| <= |specs|
    ensures forall k :: 0 <= k < |r| ==> Resolves(nodes, r[k])
  {
    if specs == [] then []
    else
      var last := specs[|specs| - 1];
      Kept(nodes, specs[..|specs| - 1]) + (if Resolves(nodes, last) then [last] else [])
  }

  /** The edge built from a resolving spec when it receives identifier `id`. */
  function EdgeFor(nodes: seq<Node>, id: nat, sp: EdgeSpec): (e: Edge)
    requires Resolves(nodes, sp)
    ensures e.id == id && e.weight == sp.weight
    ensures IsFirst(nodes, e.source) && nodes[e.source].nodeLabel == sp.labelA
    ensures IsFirst(nodes, e.target) && nodes[e.target].nodeLabel == sp.labelB
  {
    Edge(id, Find(nodes, sp.labelA).value, Find(nodes, sp.labelB).value, sp.weight)
  }

  /** A spec is kept exactly when it is one of the input specs and both its labels resolve. */
  lemma {:induction false} KeptMembers(nodes: seq<Node>, specs: seq<EdgeSpec>, sp: EdgeSpec)
    ensures sp in Kept(nodes, specs) <==> sp in specs && Resolves(nodes, sp)
  {
    if specs != [] {
      var init := specs[..|specs| - 1];
      KeptMembers(nodes, init, sp);
      assert specs == init + [specs[|specs| - 1]];
    }
  }

  /** Resolution treats every spec on its own and keeps input order: the
      result for a concatenation is the concatenation of the results. */
  lemma {:induction false} KeptAppend(nodes: seq<Node>, front: seq<EdgeSpec>, back: seq<EdgeSpec>)
    ensures Kept(nodes, front + back) == Kept(nodes, front) + Kept(nodes, back)
  {
    if back == [] {
      assert front + back == front;
    } else {
      var init := back[..|back| - 1];
      var last := back[|back| - 1];
      assert (front + back)[..|front + back| - 1] == front + init;
      assert (front + back)[|front + back| - 1] == last;
      KeptAppend(nodes, front, init);
    }
  }

  /**
   * The edge-building loop of graph generation: every spec whose two labels
   * both resolve becomes an edge between the first nodes carrying them, with
   * identifiers 0, 1, 2, ... over the kept specs; other specs are dropped
   * without error.
   */
  method BuildEdges(nodes: seq<Node>, specs: seq<EdgeSpec>) returns (edges: seq<Edge>)
    ensures |edges| == |Kept(nodes, specs)|
    ensures forall k :: 0 <= k < |edges| ==> edges[k] == EdgeFor(nodes, k, Kept(nodes, specs)[k])
    ensures forall k :: 0 <= k < |edges| ==>
      IsFirst(nodes, edges[k].source) && IsFirst(nodes, edges[k].target)
  {
    edges := [];
    var edgeId := 0;
    for i := 0 to |specs|
      invariant edgeId == |edges| == |Kept(nodes, specs[..i])|
      invariant forall k :: 0 <= k < |edges| ==> edges[k] == EdgeFor(nodes, k, Kept(nodes, specs[..i])[k])
    {
      var sp := specs[i];
      var sourceNode := Find(nodes, sp.labelA);
      var targetNode := Find(nodes, sp.labelB);
      KeptSnoc(nodes, specs, i);
      if sourceNode.Some? && targetNode.Some? {
        edges := edges + [Edge(edgeId, sourceNode.value, targetNode.value, sp.weight)];
        edgeId := edgeId + 1;
      }
    }
    assert specs[..|specs|] == specs;
    forall k | 0 <= k < |edges|
      ensures IsFirst(nodes, edges[k].source) && IsFirst(nodes, edges[k].target)
    {
      var sp := Kept(nodes, specs)[k];
      assert sp in Kept(nodes, specs);
    }
  }

  /** The shape of every graph the shortest-path engine accepts: edges refer
      to existing nodes and carry non-negative weights. */
  predicate WellFormed(g: Graph) {
    forall j :: 0 <= j < |g.edges| ==>
      g.edges[j].source < |g.nodes| && g.edges[j].target < |g.nodes| && g.edges[j].weight >= 0
  }

  /** Edge `e` connects `u` and `v`, in either direction. */
  predicate Joins(e: Edge, u: nat, v: nat) {
    (e.source == u && e.target == v) || (e.source == v && e.target == u)
  }

  /** `p` is a walk in `g` whose i-th step uses edge `es[i]`. */
  ghost predicate IsWalk(g: Graph, p: seq<nat>, es: seq<nat>) {
    |p| == |es| + 1 &&
    (forall i :: 0 <= i < |p| ==> p[i] < |g.nodes|) &&
    (forall i :: 0 <= i < |es| ==> es[i] < |g.edges| && Joins(g.edges[es[i]], p[i], p[i + 1]))
  }

  /** Total weight of the edges `es`. */
  function Weight(g: Graph, es: seq<nat>): int
    requires forall i :: 0 <= i < |es| ==> es[i] < |g.edges|
  {
    if es == [] then 0 else Weight(g, es[..|es| - 1]) + g.edges[es[|es| - 1]].weight
  }

  /** Some walk leads from `s` to `t`. */
  ghost predicate Reachable(g: Graph, s: nat, t: nat) {
    exists p, es :: IsWalk(g, p, es) && p[0] == s && p[|p| - 1] == t
  }

  /** `p` (with edges `es`) is a walk from `s` to `t` that no walk from `s` to `t` undercuts. */
  ghost predicate IsShortestWalk(g: Graph, s: nat, t: nat, p: seq<nat>, es: seq<nat>) {
    IsWalk(g, p, es) && p[0] == s && p[|p| - 1] == t &&
    forall q, fs :: IsWalk(g, q, fs) && q[0] == s && q[|q| - 1] == t ==> Weight(g, es) <= Weight(g, fs)
  }

  /** A walk extended at its front by an edge into its first node is a walk. */
  lemma WalkCons(g: Graph, v: nat, e: nat, p: seq<nat>, es: seq<nat>)
    requires IsWalk(g, p, es) && v < |g.nodes| && e < |g.edges| && Joins(g.edges[e], v, p[0])
    ensures IsWalk(g, [v] + p, [e] + es)
  {
    var p', es' := [v] + p, [e] + es;
    forall i | 0 <= i < |es'|
      ensures es'[i] < |g.edges| && Joins(g.edges[es'[i]], p'[i], p'[i + 1])
    {
      if i > 0 {
        assert es'[i] == es[i - 1] && p'[i] == p[i - 1] && p'[i + 1] == p[i];
      }
    }
  }

  /** Resolution of one more spec appends it when it resolves. */
  lemma KeptSnoc(nodes: seq<Node>, specs: seq<EdgeSpec>, i: nat)
    requires i < |specs|
    ensures Kept(nodes, specs[..i + 1]) ==
      Kept(nodes, specs[..i]) + (if Resolves(nodes, specs[i]) then [specs[i]] else [])
  {
    assert specs[..i + 1][..i] == specs[..i];
  }

  /** Prepending one edge adds its weight. */
  lemma {:induction false} WeightCons(g: Graph, e: nat, es: seq<nat>)
    requires e < |g.edges|
    requires forall i :: 0 <= i < |es| ==> es[i] < |g.edges|
    ensures Weight(g, [e] + es) == g.edges[e].weight + Weight(g, es)
  {
    if es != [] {
      var init := es[..|es| - 1];
      assert ([e] + es)[..|[e] + es| - 1] == [e] + init;
      WeightCons(g, e, init);
    } else {
      assert ([e] + es)[..0] == [];
    }
  }
}
