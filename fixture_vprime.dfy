/** What `set_Vprime` does to the test graph of `build_custom_graph` when the
    most reachable node is "8": the blocking set, the safe names and the
    graph after "V'" is wired in. */
module FixtureVprime {
  import opened Graphs
  import opened Reachability
  import opened Fixture

  /** "8" has no out-neighbours, so its blocking set is its in-neighbours. */
  lemma FixtureBlocking(g: Adjacency, order: seq<Name>)
    requires g == FixtureAdjacency() && order == FixtureNames && WellFormed(g, order)
    ensures Blocking(g, order, "8") == {"3", "4", "5", "7"}
  {
    NamesDistinct();
    assert Names(g["8"]) == {};
    var inc := Incoming(g, order, "8");
    forall n ensures n in Names(inc) <==> n in {"3", "4", "5", "7"} {
      if n in Names(inc) {
        var k :| 0 <= k < |inc| && inc[k].0 == n;
        IncomingMembers(g, order, "8", n, inc[k].1);
        assert n in {"0", "1", "2", "3", "4", "5", "6", "7", "8"};
      }
      if n in {"3", "4", "5", "7"} {
        var w := if n == "3" then -4 else if n == "4" then 1 else if n == "5" then -3 else 2;
        assert ("8", w) in g[n];
        IncomingMembers(g, order, "8", n, w);
        var k :| 0 <= k < |inc| && inc[k] == (n, w);
      }
    }
  }

  /** The safe names, read after "V'" joined the name list: "V'" is among them. */
  lemma FixtureSafe()
    ensures SafeNames(FixtureNames + [VPrime], "8", {"3", "4", "5", "7"}) == ["0", "1", "2", "6", VPrime]
  {
    var b: set<Name> := {"3", "4", "5", "7"};
    assert FixtureNames + [VPrime] ==
           [] + ["0"] + ["1"] + ["2"] + ["3"] + ["4"] + ["5"] + ["6"] + ["7"] + ["8"] + [VPrime];
    SafeNamesSnoc([], "0", "8", b);
    SafeNamesSnoc([] + ["0"], "1", "8", b);
    SafeNamesSnoc([] + ["0"] + ["1"], "2", "8", b);
    SafeNamesSnoc([] + ["0"] + ["1"] + ["2"], "3", "8", b);
    SafeNamesSnoc([] + ["0"] + ["1"] + ["2"] + ["3"], "4", "8", b);
    SafeNamesSnoc([] + ["0"] + ["1"] + ["2"] + ["3"] + ["4"], "5", "8", b);
    SafeNamesSnoc([] + ["0"] + ["1"] + ["2"] + ["3"] + ["4"] + ["5"], "6", "8", b);
    SafeNamesSnoc([] + ["0"] + ["1"] + ["2"] + ["3"] + ["4"] + ["5"] + ["6"], "7", "8", b);
    SafeNamesSnoc([] + ["0"] + ["1"] + ["2"] + ["3"] + ["4"] + ["5"] + ["6"] + ["7"], "8", "8", b);
    SafeNamesSnoc([] + ["0"] + ["1"] + ["2"] + ["3"] + ["4"] + ["5"] + ["6"] + ["7"] + ["8"], VPrime, "8", b);
    assert [] + ["0"] + ["1"] + ["2"] + ["6"] + [VPrime] == ["0", "1", "2", "6", VPrime];
  }

  /** The test graph after `set_Vprime` from "0": every safe node gains an
      edge of weight 1 into "V'", and "V'" loops onto itself. */
  function AugmentedAdjacency(): Adjacency
  {
    map[
      "0" := [("1", 2), ("2", 4), ("4", -2), ("5", 1), ("6", 5), (VPrime, 1)],
      "1" := [(VPrime, 1)],
      "2" := [("3", 3), ("4", 2), (VPrime, 1)],
      "3" := [("8", -4)],
      "4" := [("3", 5), ("8", 1), ("7", 2)],
      "5" := [("7", -1), ("8", -3)],
      "6" := [("7", 6), (VPrime, 1)],
      "7" := [("8", 2)],
      "8" := [],
      VPrime := [(VPrime, 1)]
    ]
  }

  lemma AugmentedLists()
    ensures FixtureAdjacency()["0"] + [(VPrime, 1)] == AugmentedAdjacency()["0"]
    ensures FixtureAdjacency()["1"] + [(VPrime, 1)] == AugmentedAdjacency()["1"]
    ensures FixtureAdjacency()["2"] + [(VPrime, 1)] == AugmentedAdjacency()["2"]
    ensures FixtureAdjacency()["6"] + [(VPrime, 1)] == AugmentedAdjacency()["6"]
  {
    var w := [(VPrime, 1)];
    assert [("1", 2), ("2", 4), ("4", -2), ("5", 1), ("6", 5)] + w == AugmentedAdjacency()["0"];
    assert [] + w == AugmentedAdjacency()["1"];
    assert [("3", 3), ("4", 2)] + w == AugmentedAdjacency()["2"];
    assert [("7", 6)] + w == AugmentedAdjacency()["6"];
  }

  /** A graph with the lists that `AugmentShape` describes for the test graph
      is the literal augmented graph. */
  lemma SameAsAugmented(a: Adjacency)
    requires a.Keys == AugmentedAdjacency().Keys
    requires forall n :: n in {"0", "1", "2", "6"} ==> a[n] == FixtureAdjacency()[n] + [(VPrime, 1)]
    requires forall n :: n in {"3", "4", "5", "7", "8"} ==> a[n] == FixtureAdjacency()[n]
    requires a[VPrime] == [(VPrime, 1)]
    ensures a == AugmentedAdjacency()
  {
    AugmentedLists();
    forall n | n in a ensures a[n] == AugmentedAdjacency()[n] {
      assert n in {"0", "1", "2", "6"} || n in {"3", "4", "5", "7", "8"} || n == VPrime;
    }
  }

  /** A node of the graph that is neither the most reachable node nor in its
      blocking set gains an edge into "V'". */
  lemma AugmentedWiredAt(g: Adjacency, order: seq<Name>, blocking: set<Name>, n: Name)
    requires WellFormed(g, order) && "8" in g && VPrime !in g
    requires Blocking(g, order, "8") == blocking
    requires n in g && n != "8" && n !in blocking
    ensures Augmented(g, order, "8")[n] == g[n] + [(VPrime, 1)]
  {
    AugmentedEntry(g, order, "8", blocking, n);
  }

  lemma AugmentedWired(g: Adjacency, order: seq<Name>, n: Name)
    requires g == FixtureAdjacency() && order == FixtureNames && WellFormed(g, order)
    requires n in {"0", "1", "2", "6"}
    ensures Augmented(g, order, "8")[n] == g[n] + [(VPrime, 1)]
  {
    FixtureBlocking(g, order);
    AugmentedWiredAt(g, order, {"3", "4", "5", "7"}, n);
  }

  lemma AugmentedKept(g: Adjacency, order: seq<Name>, n: Name)
    requires g == FixtureAdjacency() && order == FixtureNames && WellFormed(g, order)
    requires n in {"3", "4", "5", "7", "8"}
    ensures Augmented(g, order, "8")[n] == g[n]
  {
    FixtureBlocking(g, order);
    AugmentedEntry(g, order, "8", {"3", "4", "5", "7"}, n);
  }

  lemma AugmentedNew(g: Adjacency, order: seq<Name>)
    requires g == FixtureAdjacency() && order == FixtureNames && WellFormed(g, order)
    ensures Augmented(g, order, "8").Keys == AugmentedAdjacency().Keys
    ensures Augmented(g, order, "8")[VPrime] == [(VPrime, 1)]
  {
    FixtureBlocking(g, order);
    AugmentedEntry(g, order, "8", {"3", "4", "5", "7"}, VPrime);
  }

  lemma FixtureAugmentedOf(g: Adjacency, order: seq<Name>)
    requires g == FixtureAdjacency() && order == FixtureNames && WellFormed(g, order)
    ensures Augmented(g, order, "8") == AugmentedAdjacency()
  {
    var a := Augmented(g, order, "8");
    AugmentedNew(g, order);
    forall n | n in {"0", "1", "2", "6"} ensures a[n] == g[n] + [(VPrime, 1)] {
      AugmentedWired(g, order, n);
    }
    forall n | n in {"3", "4", "5", "7", "8"} ensures a[n] == g[n] {
      AugmentedKept(g, order, n);
    }
    SameAsAugmented(a);
  }

  lemma FixtureAugmented()
    ensures Augmented(FixtureAdjacency(), FixtureNames, "8") == AugmentedAdjacency()
  {
    FixtureWellFormed();
    FixtureAugmentedOf(FixtureAdjacency(), FixtureNames);
  }
}
