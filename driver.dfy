/** The program's entry point: build the test graph, find the node reached
    by the most paths from "0" and its paths, then try to insert "V'". */
module MainProgram {
  import opened Graphs
  import opened PathFinding
  import opened PathFindingAsWritten
  import opened Reachability
  import opened Fixture
  import opened FixtureVprime
  import opened FixtureScenario
  import opened FixtureGoal

  lemma FixtureOutcomeOf(g: Adjacency, order: seq<Name>)
    requires g == FixtureAdjacency() && order == FixtureNames && WellFormed(g, order)
    ensures AugmentOf(g, order, "0") == (AugmentedAdjacency(), FixtureNames + [VPrime], GoalUnmet(4, 10))
  {
    MostReachableFixture();
    assert VPrime !in g;
    AugmentOfInserts(g, order, "0", "8", 10);
    FixtureAugmented();
    FourPathsToVPrime();
  }

  /** `set_Vprime` from "0" on the test graph: "V'" is wired from "0", "1",
      "2", "6" and itself, is then reached by four paths against the ten that
      reach "8", and so the call ends with the goal unmet. */
  lemma FixtureOutcome()
    ensures AugmentOf(FixtureAdjacency(), FixtureNames, "0") ==
            (AugmentedAdjacency(), FixtureNames + [VPrime], GoalUnmet(4, 10))
  {
    FixtureWellFormed();
    FixtureOutcomeOf(FixtureAdjacency(), FixtureNames);
  }

  /** The search as written at main.py:211, whose visited test never fires,
      returns on the test graph what the intended search returns, for every
      target, and so does the count of paths to "V'" on the augmented graph,
      where the search stops at "V'" before following its self-loop. */
  lemma AsWrittenOnFixture()
    ensures forall t :: PathsAsWritten(FixtureAdjacency(), "0", t, 0, [], |FixtureAdjacency()| + 1) ==
                        Some(Paths(FixtureAdjacency(), "0", t))
    ensures PathsAsWritten(AugmentedAdjacency(), "0", VPrime, 0, [], |AugmentedAdjacency()| + 1) ==
            Some(Paths(AugmentedAdjacency(), "0", VPrime))
  {
    forall t ensures PathsAsWritten(FixtureAdjacency(), "0", t, 0, [], |FixtureAdjacency()| + 1) ==
                     Some(Paths(FixtureAdjacency(), "0", t))
    {
      FixtureDescending(t);
      AsWrittenAgreesDescending(FixtureAdjacency(), Height, "0", t);
    }
    AugmentedDescending(VPrime);
    AsWrittenAgreesDescending(AugmentedAdjacency(), AugmentedHeight, "0", VPrime);
  }

  /** The program's results on the test graph, for the search as written:
      ten paths from "0" to "8", the first 0 -> 6 -> 7 -> 8 at cost 13, and
      four paths from "0" to "V'" once "V'" is wired in. */
  lemma AsWrittenFixtureResults()
    ensures var r := PathsAsWritten(FixtureAdjacency(), "0", "8", 0, [], |FixtureAdjacency()| + 1);
            r.Some? && |r.value| == 10 && r.value[0] == PathCost(["0", "6", "7", "8"], 13)
    ensures var r := PathsAsWritten(AugmentedAdjacency(), "0", VPrime, 0, [], |AugmentedAdjacency()| + 1);
            r.Some? && |r.value| == 4
  {
    AsWrittenOnFixture();
    FirstPathFrom0();
    FourPathsToVPrime();
  }

  /** The `__main__` block, with its printing left out: the most reachable
      node from "0" is "8" with ten paths, the first of the paths listed is
      the costliest one, 0 -> 6 -> 7 -> 8 at cost 13, and `set_Vprime` ends
      with the goal unmet. */
  method RunMain() returns (v: Name, total: nat, paths: seq<PathCost>, outcome: Augmentation)
    ensures v == "8" && total == 10
    ensures |paths| == 10 && paths[0] == PathCost(["0", "6", "7", "8"], 13)
    ensures outcome == GoalUnmet(4, 10)
  {
    var graph := BuildCustomGraph();
    var most := MostReachable(graph, "0");
    MostReachableFixture();
    v, total := most.value.0, most.value.1;
    paths := FindPaths(graph, "0", v, 0, []);
    assert [] + ["0"] == ["0"];
    FirstPathFrom0();
    outcome := SetVprime(graph, "0");
    FixtureOutcome();
  }
}
