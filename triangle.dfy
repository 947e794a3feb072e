/**
 * A worked scenario: nodes A, B, C and an isolated D; edges A-B (2),
 * B-C (3), A-C (10), and a spec C-X (1) naming a node that does not exist.
 * Building the edges drops the C-X spec; the search from A to C takes the
 * two-hop route through B; D is unreachable from A; a search from A to A
 * yields just A; and a search naming a missing node computes nothing.
 */
module Triangle {
  import opened Wrappers
  import opened Graphs
  import opened ShortestPath

  const Nodes: seq<Node> := [Node("A"), Node("B"), Node("C"), Node("D")]
  const Specs: seq<EdgeSpec> :=
    [EdgeSpec("A", "B", 2), EdgeSpec("B", "C", 3), EdgeSpec("A", "C", 10), EdgeSpec("C", "X", 1)]
  const G: Graph := Graph(Nodes, [Edge(0, 0, 1, 2), Edge(1, 1, 2, 3), Edge(2, 0, 2, 10)])

  /** Every edge weighs at least 2, so a walk weighs at least twice its length. */
  lemma {:induction false} WeightAtLeastTwice(es: seq<nat>)
    requires forall i :: 0 <= i < |es| ==> es[i] < |G.edges|
    ensures Weight(G, es) >= 2 * |es|
  {
    if es != [] {
      WeightAtLeastTwice(es[..|es| - 1]);
    }
  }

  /** The only shortest walk from A to C is A, B, C. */
  lemma ShortestAtoC(p: seq<nat>, es: seq<nat>)
    requires IsShortestWalk(G, 0, 2, p, es)
    ensures p == [0, 1, 2] && es == [0, 1]
  {
    var viaB, viaBEdges := [0, 1, 2], [0, 1];
    assert Weight(G, viaBEdges) == 5 by {
      assert viaBEdges[..1] == [0];
      assert [0][..0] == [];
    }
    assert IsWalk(G, viaB, viaBEdges);
    WeightAtLeastTwice(es);
    assert |es| == 2;
    assert Joins(G.edges[es[0]], 0, p[1]) && Joins(G.edges[es[1]], p[1], 2);
    assert es[..1] == [es[0]];
  }

  /** No walk from A ever visits D: no edge touches it. */
  lemma DUnreachable()
    ensures !Reachable(G, 0, 3)
  {
    forall p, es | IsWalk(G, p, es) && p[0] == 0
      ensures p[|p| - 1] != 3
    {
      if |p| > 1 {
        assert Joins(G.edges[es[|es| - 1]], p[|p| - 2], p[|p| - 1]);
      }
    }
  }

  /** The scenario's labels are pairwise distinct, and none is "X". */
  lemma DistinctLabels()
    ensures forall i, j :: 0 <= i < j < |Nodes| ==> Nodes[i].nodeLabel != Nodes[j].nodeLabel
    ensures forall j :: 0 <= j < |Nodes| ==> Nodes[j].nodeLabel != "X"
  {
    assert Nodes[0].nodeLabel == "A" && Nodes[1].nodeLabel == "B" && Nodes[2].nodeLabel == "C" && Nodes[3].nodeLabel == "D";
    assert "A" != "B" && "A" != "C" && "A" != "D" && "B" != "C" && "B" != "D" && "C" != "D";
    assert "X" != "A" && "X" != "B" && "X" != "C" && "X" != "D";
  }

  /** Where each label of the scenario resolves. */
  lemma Lookups()
    ensures Find(Nodes, "A") == Some(0) && Find(Nodes, "B") == Some(1)
    ensures Find(Nodes, "C") == Some(2) && Find(Nodes, "D") == Some(3)
    ensures Find(Nodes, "X").None?
  {
    DistinctLabels();
    assert Nodes[0].nodeLabel == "A" && Nodes[1].nodeLabel == "B" && Nodes[2].nodeLabel == "C" && Nodes[3].nodeLabel == "D";
  }

  /** Three-element sequences that agree at every index are equal. */
  lemma SameThree<T>(a: seq<T>, b: seq<T>)
    requires |a| == 3 && |b| == 3
    requires a[0] == b[0] && a[1] == b[1] && a[2] == b[2]
    ensures a == b
  {
    assert forall k :: 0 <= k < 3 ==> a[k] == b[k];
  }

  /** Resolution keeps the first three specs, in order. */
  lemma KeptScenario()
    ensures Kept(Nodes, Specs) == Specs[..3]
  {
    ResolvesScenario();
    KeptDropsLast(Nodes, Specs);
  }

  /** Of four specs where only the last fails to resolve, the first three are kept. */
  lemma KeptDropsLast(nodes: seq<Node>, specs: seq<EdgeSpec>)
    requires |specs| == 4
    requires Resolves(nodes, specs[0]) && Resolves(nodes, specs[1]) && Resolves(nodes, specs[2])
    requires !Resolves(nodes, specs[3])
    ensures Kept(nodes, specs) == specs[..3]
  {
    assert Kept(nodes, specs[..1]) == [specs[0]] by {
      KeptSnoc(nodes, specs, 0);
      assert specs[..0] == [];
    }
    assert Kept(nodes, specs[..2]) == [specs[0], specs[1]] by {
      KeptSnoc(nodes, specs, 1);
    }
    assert Kept(nodes, specs[..3]) == [specs[0], specs[1], specs[2]] by {
      KeptSnoc(nodes, specs, 2);
    }
    assert Kept(nodes, specs) == Kept(nodes, specs[..3]) by {
      KeptSnoc(nodes, specs, 3);
      assert specs[..4] == specs;
    }
    SameThree(specs[..3], [specs[0], specs[1], specs[2]]);
  }

  /** The first three specs resolve; the fourth names the missing X. */
  lemma ResolvesScenario()
    ensures Resolves(Nodes, Specs[0]) && Resolves(Nodes, Specs[1]) && Resolves(Nodes, Specs[2])
    ensures !Resolves(Nodes, Specs[3])
  {
    Lookups();
  }

  /** Every edge of the scenario joins two of its nodes and weighs no less than zero. */
  lemma ScenarioWellFormed()
    ensures WellFormed(G)
  {
    assert G.edges[0].target < 4 && G.edges[1].target < 4 && G.edges[2].target < 4;
  }

  /** A reaches C, through B. */
  lemma CReachable()
    ensures Reachable(G, 0, 2)
  {
    assert IsWalk(G, [0, 1, 2], [0, 1]);
  }

  /** The edges that building must produce for the scenario's specs. */
  lemma ScenarioEdges(edges: seq<Edge>)
    requires |edges| == |Kept(Nodes, Specs)|
    requires forall k :: 0 <= k < |edges| ==> edges[k] == EdgeFor(Nodes, k, Kept(Nodes, Specs)[k])
    ensures edges == G.edges
  {
    Lookups();
    KeptScenario();
    var kept := Kept(Nodes, Specs);
    assert kept == [Specs[0], Specs[1], Specs[2]];
    assert EdgeFor(Nodes, 0, Specs[0]) == G.edges[0];
    assert EdgeFor(Nodes, 1, Specs[1]) == G.edges[1];
    assert EdgeFor(Nodes, 2, Specs[2]) == G.edges[2];
    assert |edges| == 3;
    assert edges[0] == G.edges[0];
    assert edges[1] == G.edges[1];
    assert edges[2] == G.edges[2];
    SameThree(edges, G.edges);
  }

  /** Building the scenario's edges keeps the first three specs, with ids 0, 1, 2. */
  method BuildScenario() returns (g: Graph)
    ensures g == G
  {
    var edges := BuildEdges(Nodes, Specs);
    ScenarioEdges(edges);
    g := Graph(Nodes, edges);
  }

  /** The four searches of the scenario and what they produce. */
  method Run() returns (aToC: Option<seq<nat>>, aToD: Option<seq<nat>>, aToA: Option<seq<nat>>, aToX: Option<seq<nat>>)
    ensures aToC == Some([0, 1, 2])
    ensures aToD == Some([3])
    ensures aToA == Some([0])
    ensures aToX == None
  {
    var g := BuildScenario();
    Lookups();
    CReachable();
    ScenarioWellFormed();
    ghost var es;
    aToC, es := FindShortestPath(g, "A", "C");
    ShortestAtoC(aToC.value, es);
    aToD, es := FindShortestPath(g, "A", "D");
    DUnreachable();
    aToA, es := FindShortestPath(g, "A", "A");
    aToX, es := FindShortestPath(g, "A", "X");
  }
}
