/** How `set_Vprime` from "0" ends on the test graph: four paths reach the
    new node "V'" and ten reach the most reachable node "8", so the goal of
    making "V'" the most reachable node is not met. */
module FixtureGoal {
  import opened Graphs
  import opened PathFinding
  import opened PathRecurrence
  import opened Reachability
  import opened FixtureVprime

  /** Heights for the augmented graph: one more than in the test graph, and
      0 for "V'", so every edge drops except the self-loop on "V'". */
  function AugmentedHeight(n: Name): nat
  {
    if n == VPrime then 0
    else if n == "0" then 5
    else if n == "2" then 4
    else if n == "4" || n == "5" || n == "6" then 3
    else if n == "3" || n == "7" then 2
    else 1
  }

  lemma AugmentedDescending(t: Name)
    requires t == VPrime
    ensures Descending(AugmentedAdjacency(), AugmentedHeight, t)
  {
    var g: Adjacency := AugmentedAdjacency();
    forall a: Name, k: int | a in g && a != t && 0 <= k < |g[a]|
      ensures AugmentedHeight(g[a][k].0) < AugmentedHeight(a)
    {
      assert a in {"0", "1", "2", "3", "4", "5", "6", "7", "8"};
    }
  }

  /** The number of paths from `x` to `t` in the augmented graph. */
  function M(x: Name, t: Name): nat
  {
    |Paths(AugmentedAdjacency(), x, t)|
  }

  lemma CountTo(x: Name, t: Name)
    requires t == VPrime && x in AugmentedAdjacency() && x != t
    ensures M(x, t) == Through(AugmentedAdjacency(), AugmentedAdjacency()[x], t)
  {
    AugmentedDescending(t);
    CountRecurrence(AugmentedAdjacency(), AugmentedHeight, x, t);
  }

  lemma GoalFrom0(t: Name)
    requires t == VPrime
    ensures M("0", t) == M("1", t) + M("2", t) + M("4", t) + M("5", t) + M("6", t) + M(t, t)
  {
    var g := AugmentedAdjacency();
    CountTo("0", t);
    var e1, e2, e4, e5, e6, ev := ("1", 2), ("2", 4), ("4", -2), ("5", 1), ("6", 5), (t, 1);
    assert g["0"] == [] + [e1] + [e2] + [e4] + [e5] + [e6] + [ev];
    ThroughSnoc(g, [], e1, t);
    ThroughSnoc(g, [] + [e1], e2, t);
    ThroughSnoc(g, [] + [e1] + [e2], e4, t);
    ThroughSnoc(g, [] + [e1] + [e2] + [e4], e5, t);
    ThroughSnoc(g, [] + [e1] + [e2] + [e4] + [e5], e6, t);
    ThroughSnoc(g, [] + [e1] + [e2] + [e4] + [e5] + [e6], ev, t);
  }

  lemma GoalFrom2(t: Name)
    requires t == VPrime
    ensures M("2", t) == M("3", t) + M("4", t) + M(t, t)
  {
    var g := AugmentedAdjacency();
    CountTo("2", t);
    var e3, e4, ev := ("3", 3), ("4", 2), (t, 1);
    assert g["2"] == [] + [e3] + [e4] + [ev];
    ThroughSnoc(g, [], e3, t);
    ThroughSnoc(g, [] + [e3], e4, t);
    ThroughSnoc(g, [] + [e3] + [e4], ev, t);
  }

  lemma GoalFrom4(t: Name)
    requires t == VPrime
    ensures M("4", t) == M("3", t) + M("8", t) + M("7", t)
  {
    var g := AugmentedAdjacency();
    CountTo("4", t);
    var e3, e8, e7 := ("3", 5), ("8", 1), ("7", 2);
    assert g["4"] == [] + [e3] + [e8] + [e7];
    ThroughSnoc(g, [], e3, t);
    ThroughSnoc(g, [] + [e3], e8, t);
    ThroughSnoc(g, [] + [e3] + [e8], e7, t);
  }

  /** A node with exactly two out-edges. */
  lemma GoalPair(x: Name, y: Name, w: int, z: Name, u: int, t: Name)
    requires t == VPrime && x in AugmentedAdjacency() && x != t
    requires AugmentedAdjacency()[x] == [(y, w), (z, u)]
    ensures M(x, t) == M(y, t) + M(z, t)
  {
    CountTo(x, t);
    assert AugmentedAdjacency()[x] == [] + [(y, w)] + [(z, u)];
    ThroughSnoc(AugmentedAdjacency(), [], (y, w), t);
    ThroughSnoc(AugmentedAdjacency(), [] + [(y, w)], (z, u), t);
  }

  /** A node with exactly one out-edge. */
  lemma GoalSingle(x: Name, y: Name, w: int, t: Name)
    requires t == VPrime && x in AugmentedAdjacency() && x != t
    requires AugmentedAdjacency()[x] == [(y, w)]
    ensures M(x, t) == M(y, t)
  {
    CountTo(x, t);
    assert AugmentedAdjacency()[x] == [] + [(y, w)];
    ThroughSnoc(AugmentedAdjacency(), [], (y, w), t);
  }

  /** A node with no out-edge other than "V'" itself. */
  lemma GoalSink(x: Name, t: Name)
    requires t == VPrime && x in AugmentedAdjacency() && x != t
    requires AugmentedAdjacency()[x] == []
    ensures M(x, t) == 0
  {
    CountTo(x, t);
  }

  lemma GoalFrom1(t: Name)
    requires t == VPrime
    ensures M("1", t) == M(t, t)
  {
    GoalSingle("1", t, 1, t);
  }

  lemma GoalFrom3(t: Name)
    requires t == VPrime
    ensures M("3", t) == M("8", t)
  {
    GoalSingle("3", "8", -4, t);
  }

  lemma GoalFrom5(t: Name)
    requires t == VPrime
    ensures M("5", t) == M("7", t) + M("8", t)
  {
    GoalPair("5", "7", -1, "8", -3, t);
  }

  lemma GoalFrom6(t: Name)
    requires t == VPrime
    ensures M("6", t) == M("7", t) + M(t, t)
  {
    GoalPair("6", "7", 6, t, 1, t);
  }

  lemma GoalFrom7(t: Name)
    requires t == VPrime
    ensures M("7", t) == M("8", t)
  {
    GoalSingle("7", "8", 2, t);
  }

  lemma GoalFrom8(t: Name)
    requires t == VPrime
    ensures M("8", t) == 0
  {
    GoalSink("8", t);
  }

  /** One counting equation per node of the augmented graph, target "V'". */
  lemma GoalEquations(t: Name)
    requires t == VPrime
    ensures M(t, t) == 1
    ensures M("0", t) == M("1", t) + M("2", t) + M("4", t) + M("5", t) + M("6", t) + M(t, t)
    ensures M("1", t) == M(t, t)
    ensures M("2", t) == M("3", t) + M("4", t) + M(t, t)
    ensures M("3", t) == M("8", t)
    ensures M("4", t) == M("3", t) + M("8", t) + M("7", t)
    ensures M("5", t) == M("7", t) + M("8", t)
    ensures M("6", t) == M("7", t) + M(t, t)
    ensures M("7", t) == M("8", t)
    ensures M("8", t) == 0
  {
    GoalFrom0(t); GoalFrom1(t); GoalFrom2(t); GoalFrom3(t); GoalFrom4(t);
    GoalFrom5(t); GoalFrom6(t); GoalFrom7(t); GoalFrom8(t);
  }

  /** Four paths lead from "0" to "V'" in the augmented graph: through "1",
      "2", "6", or the direct edge. */
  lemma FourPathsToVPrime()
    ensures |Paths(AugmentedAdjacency(), "0", VPrime)| == 4
  {
    GoalEquations(VPrime);
  }
}
