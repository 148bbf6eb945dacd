/** The test graph of `build_custom_graph`: nine nodes "0" to "8" joined by
    fifteen weighted edges. */
module Fixture {
  import opened Graphs

  /** The node names, `str(i)` for `i` in `range(9)`, in the order added. */
  const FixtureNames: seq<Name> := ["0", "1", "2", "3", "4", "5", "6", "7", "8"]

  /** The edges as (origin index, destination index, weight), in the order added. */
  const FixtureEdges: seq<(nat, nat, int)> := [
    (0, 1, 2), (0, 2, 4), (0, 4, -2), (0, 5, 1), (0, 6, 5),
    (2, 3, 3), (2, 4, 2), (3, 8, -4), (4, 3, 5), (4, 8, 1),
    (4, 7, 2), (5, 7, -1), (5, 8, -3), (6, 7, 6), (7, 8, 2)]

  /** What `add_edge` does to the adjacency for one fixture edge. */
  function Link(g: Adjacency, e: (nat, nat, int)): Adjacency
  {
    if e.0 < |FixtureNames| && e.1 < |FixtureNames| && FixtureNames[e.0] in g && FixtureNames[e.1] in g then
      g[FixtureNames[e.0] := g[FixtureNames[e.0]] + [(FixtureNames[e.1], e.2)]]
    else g
  }

  /** The adjacency after adding the edges `es` in order. */
  function Connect(g: Adjacency, es: seq<(nat, nat, int)>): Adjacency
  {
    if es == [] then g else Link(Connect(g, es[..|es| - 1]), es[|es| - 1])
  }

  lemma ConnectPrefix(g: Adjacency, es: seq<(nat, nat, int)>, k: nat)
    requires k < |es|
    ensures Connect(g, es[..k + 1]) == Link(Connect(g, es[..k]), es[k])
  {
    assert es[..k + 1][..k] == es[..k];
  }

  /** The nine nodes, none with an edge yet. */
  function Unlinked(): Adjacency
  {
    map["0" := [], "1" := [], "2" := [], "3" := [], "4" := [], "5" := [], "6" := [], "7" := [], "8" := []]
  }

  /** The adjacency of the test graph. */
  function FixtureAdjacency(): Adjacency
  {
    map[
      "0" := [("1", 2), ("2", 4), ("4", -2), ("5", 1), ("6", 5)],
      "1" := [],
      "2" := [("3", 3), ("4", 2)],
      "3" := [("8", -4)],
      "4" := [("3", 5), ("8", 1), ("7", 2)],
      "5" := [("7", -1), ("8", -3)],
      "6" := [("7", 6)],
      "7" := [("8", 2)],
      "8" := []
    ]
  }

  // The edge list is grouped by origin; each lemma below adds one group.

  lemma Group0Start()
    ensures Connect(Unlinked(), FixtureEdges[..3]) == Unlinked()["0" := [("1", 2), ("2", 4), ("4", -2)]]
  {
    assert FixtureEdges[..0] == [];
    ConnectPrefix(Unlinked(), FixtureEdges, 0);
    ConnectPrefix(Unlinked(), FixtureEdges, 1);
    ConnectPrefix(Unlinked(), FixtureEdges, 2);
    assert [] + [("1", 2)] + [("2", 4)] + [("4", -2)] == [("1", 2), ("2", 4), ("4", -2)];
  }

  lemma Group0()
    ensures Connect(Unlinked(), FixtureEdges[..5]) == Unlinked()["0" := FixtureAdjacency()["0"]]
  {
    Group0Start();
    ConnectPrefix(Unlinked(), FixtureEdges, 3);
    ConnectPrefix(Unlinked(), FixtureEdges, 4);
    assert [("1", 2), ("2", 4), ("4", -2)] + [("5", 1)] + [("6", 5)] == FixtureAdjacency()["0"];
  }

  lemma Group2()
    ensures Connect(Unlinked(), FixtureEdges[..7]) ==
            Unlinked()["0" := FixtureAdjacency()["0"]]["2" := FixtureAdjacency()["2"]]
  {
    Group0();
    ConnectPrefix(Unlinked(), FixtureEdges, 5);
    ConnectPrefix(Unlinked(), FixtureEdges, 6);
    assert [] + [("3", 3)] + [("4", 2)] == FixtureAdjacency()["2"];
  }

  lemma Group3()
    ensures Connect(Unlinked(), FixtureEdges[..8]) ==
            Unlinked()["0" := FixtureAdjacency()["0"]]["2" := FixtureAdjacency()["2"]]
                      ["3" := FixtureAdjacency()["3"]]
  {
    Group2();
    ConnectPrefix(Unlinked(), FixtureEdges, 7);
    assert [] + [("8", -4)] == FixtureAdjacency()["3"];
  }

  lemma Group4()
    ensures Connect(Unlinked(), FixtureEdges[..11]) ==
            Unlinked()["0" := FixtureAdjacency()["0"]]["2" := FixtureAdjacency()["2"]]
                      ["3" := FixtureAdjacency()["3"]]["4" := FixtureAdjacency()["4"]]
  {
    Group3();
    ConnectPrefix(Unlinked(), FixtureEdges, 8);
    ConnectPrefix(Unlinked(), FixtureEdges, 9);
    ConnectPrefix(Unlinked(), FixtureEdges, 10);
    assert [] + [("3", 5)] + [("8", 1)] + [("7", 2)] == FixtureAdjacency()["4"];
  }

  lemma Group5()
    ensures Connect(Unlinked(), FixtureEdges[..13]) ==
            Unlinked()["0" := FixtureAdjacency()["0"]]["2" := FixtureAdjacency()["2"]]
                      ["3" := FixtureAdjacency()["3"]]["4" := FixtureAdjacency()["4"]]
                      ["5" := FixtureAdjacency()["5"]]
  {
    Group4();
    ConnectPrefix(Unlinked(), FixtureEdges, 11);
    ConnectPrefix(Unlinked(), FixtureEdges, 12);
    assert [] + [("7", -1)] + [("8", -3)] == FixtureAdjacency()["5"];
  }

  lemma Group6()
    ensures Connect(Unlinked(), FixtureEdges[..14]) ==
            Unlinked()["0" := FixtureAdjacency()["0"]]["2" := FixtureAdjacency()["2"]]
                      ["3" := FixtureAdjacency()["3"]]["4" := FixtureAdjacency()["4"]]
                      ["5" := FixtureAdjacency()["5"]]["6" := FixtureAdjacency()["6"]]
  {
    Group5();
    ConnectPrefix(Unlinked(), FixtureEdges, 13);
    assert [] + [("7", 6)] == FixtureAdjacency()["6"];
  }

  lemma Group7()
    ensures Connect(Unlinked(), FixtureEdges[..15]) ==
            Unlinked()["0" := FixtureAdjacency()["0"]]["2" := FixtureAdjacency()["2"]]
                      ["3" := FixtureAdjacency()["3"]]["4" := FixtureAdjacency()["4"]]
                      ["5" := FixtureAdjacency()["5"]]["6" := FixtureAdjacency()["6"]]
                      ["7" := FixtureAdjacency()["7"]]
  {
    Group6();
    ConnectPrefix(Unlinked(), FixtureEdges, 14);
    assert [] + [("8", 2)] == FixtureAdjacency()["7"];
  }

  /** Adding the fifteen edges to the nine bare nodes gives the test graph. */
  lemma ConnectFixture()
    ensures Connect(Unlinked(), FixtureEdges) == FixtureAdjacency()
  {
    Group7();
    assert FixtureEdges[..15] == FixtureEdges;
  }

  lemma NamesDistinct()
    ensures Distinct(FixtureNames)
  {
  }

  lemma NodesUnlinked()
    ensures (map n | n in FixtureNames :: []) == Unlinked()
  {
  }

  lemma EdgesInRange()
    ensures forall k :: 0 <= k < |FixtureEdges| ==>
              FixtureEdges[k].0 < |FixtureNames| && FixtureEdges[k].1 < |FixtureNames|
  {
  }

  /** The test graph is a consistent store. */
  lemma FixtureWellFormed()
    ensures WellFormed(FixtureAdjacency(), FixtureNames)
  {
    var g: Adjacency := FixtureAdjacency();
    NamesDistinct();
    forall n: Name, k: int | n in g && 0 <= k < |g[n]| ensures g[n][k].0 in g {
      assert n in {"0", "1", "2", "3", "4", "5", "6", "7", "8"};
    }
  }

  /** `build_custom_graph(Directed_Graph)`: adds the nine nodes, then the
      fifteen edges, every one of which joins two nodes already added. */
  method BuildCustomGraph() returns (graph: DirectedGraph)
    ensures fresh(graph)
    ensures graph.Valid()
    ensures graph.nodes == FixtureNames
    ensures graph.graphDict == FixtureAdjacency()
  {
    graph := new DirectedGraph();
    NamesDistinct();
    for i := 0 to |FixtureNames|
      invariant graph.Valid()
      invariant graph.nodes == FixtureNames[..i]
      invariant graph.graphDict == map n | n in FixtureNames[..i] :: []
    {
      assert FixtureNames[i] !in FixtureNames[..i];
      var _ := graph.AddNode(FixtureNames[i]);
      assert FixtureNames[..i + 1] == FixtureNames[..i] + [FixtureNames[i]];
    }
    assert FixtureNames[..|FixtureNames|] == FixtureNames;
    NodesUnlinked();
    EdgesInRange();
    for i := 0 to |FixtureEdges|
      invariant graph.Valid()
      invariant graph.nodes == FixtureNames
      invariant graph.graphDict == Connect(Unlinked(), FixtureEdges[..i])
    {
      var (n1, n2, weight) := FixtureEdges[i];
      ConnectPrefix(Unlinked(), FixtureEdges, i);
      var _ := graph.AddEdge(Edge(FixtureNames[n1], FixtureNames[n2], weight));
    }
    assert FixtureEdges[..|FixtureEdges|] == FixtureEdges;
    ConnectFixture();
  }
}
