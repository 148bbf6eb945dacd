/** What the program computes on the test graph of `build_custom_graph`:
    the number of paths from "0" to each node, the most reachable node, the
    best path to it and how `set_Vprime` ends. */
module FixtureScenario {
  import opened Graphs
  import opened Sorting
  import opened PathFinding
  import opened PathRecurrence
  import opened Reachability
  import opened Fixture
  import opened FixtureVprime

  /** Heights that strictly drop along every edge: the graph is acyclic. */
  function Height(n: Name): nat
  {
    if n == "0" then 4
    else if n == "2" then 3
    else if n == "4" || n == "5" || n == "6" then 2
    else if n == "3" || n == "7" then 1
    else 0
  }

  lemma FixtureDescending(t: Name)
    ensures Descending(FixtureAdjacency(), Height, t)
  {
    var g: Adjacency := FixtureAdjacency();
    forall a: Name, k: int | a in g && a != t && 0 <= k < |g[a]| ensures Height(g[a][k].0) < Height(a) {
      assert a in {"0", "1", "2", "3", "4", "5", "6", "7", "8"};
    }
  }

  /** The number of paths from `x` to `t` in the test graph. */
  function N(x: Name, t: Name): nat
  {
    |Paths(FixtureAdjacency(), x, t)|
  }

  lemma Count(x: Name, t: Name)
    requires x in FixtureAdjacency() && x != t
    ensures N(x, t) == Through(FixtureAdjacency(), FixtureAdjacency()[x], t)
  {
    FixtureDescending(t);
    CountRecurrence(FixtureAdjacency(), Height, x, t);
  }

  lemma Eq0(t: Name)
    ensures N("0", t) == if t == "0" then 1 else N("1", t) + N("2", t) + N("4", t) + N("5", t) + N("6", t)
  {
    var g := FixtureAdjacency();
    if t != "0" {
      Count("0", t);
      var e1, e2, e4, e5, e6 := ("1", 2), ("2", 4), ("4", -2), ("5", 1), ("6", 5);
      assert g["0"] == [] + [e1] + [e2] + [e4] + [e5] + [e6];
      ThroughSnoc(g, [], e1, t);
      ThroughSnoc(g, [] + [e1], e2, t);
      ThroughSnoc(g, [] + [e1] + [e2], e4, t);
      ThroughSnoc(g, [] + [e1] + [e2] + [e4], e5, t);
      ThroughSnoc(g, [] + [e1] + [e2] + [e4] + [e5], e6, t);
    }
  }

  lemma Eq2(t: Name)
    ensures N("2", t) == if t == "2" then 1 else N("3", t) + N("4", t)
  {
    var g := FixtureAdjacency();
    if t != "2" {
      Count("2", t);
      var e3, e4 := ("3", 3), ("4", 2);
      assert g["2"] == [] + [e3] + [e4];
      ThroughSnoc(g, [], e3, t);
      ThroughSnoc(g, [] + [e3], e4, t);
    }
  }

  lemma Eq4(t: Name)
    ensures N("4", t) == if t == "4" then 1 else N("3", t) + N("8", t) + N("7", t)
  {
    var g := FixtureAdjacency();
    if t != "4" {
      Count("4", t);
      var e3, e8, e7 := ("3", 5), ("8", 1), ("7", 2);
      assert g["4"] == [] + [e3] + [e8] + [e7];
      ThroughSnoc(g, [], e3, t);
      ThroughSnoc(g, [] + [e3], e8, t);
      ThroughSnoc(g, [] + [e3] + [e8], e7, t);
    }
  }

  lemma Eq5(t: Name)
    ensures N("5", t) == if t == "5" then 1 else N("7", t) + N("8", t)
  {
    var g := FixtureAdjacency();
    if t != "5" {
      Count("5", t);
      var e7, e8 := ("7", -1), ("8", -3);
      assert g["5"] == [] + [e7] + [e8];
      ThroughSnoc(g, [], e7, t);
      ThroughSnoc(g, [] + [e7], e8, t);
    }
  }

  lemma Eq1(x: Name, y: Name, w: int, t: Name)
    requires x in FixtureAdjacency() && FixtureAdjacency()[x] == [(y, w)]
    ensures N(x, t) == if t == x then 1 else N(y, t)
  {
    if t != x {
      Count(x, t);
      assert FixtureAdjacency()[x] == [] + [(y, w)];
      ThroughSnoc(FixtureAdjacency(), [], (y, w), t);
    }
  }

  lemma EqSink(x: Name, t: Name)
    requires x in FixtureAdjacency() && FixtureAdjacency()[x] == []
    ensures N(x, t) == if t == x then 1 else 0
  {
    if t != x {
      Count(x, t);
    }
  }

  lemma Eq1At(t: Name)
    ensures N("1", t) == if t == "1" then 1 else 0
  {
    EqSink("1", t);
  }

  lemma Eq3(t: Name)
    ensures N("3", t) == if t == "3" then 1 else N("8", t)
  {
    Eq1("3", "8", -4, t);
  }

  lemma Eq6(t: Name)
    ensures N("6", t) == if t == "6" then 1 else N("7", t)
  {
    Eq1("6", "7", 6, t);
  }

  lemma Eq7(t: Name)
    ensures N("7", t) == if t == "7" then 1 else N("8", t)
  {
    Eq1("7", "8", 2, t);
  }

  lemma Eq8(t: Name)
    ensures N("8", t) == if t == "8" then 1 else 0
  {
    EqSink("8", t);
  }

  /** One counting equation per node, for any target. */
  lemma Equations(t: Name)
    ensures N("0", t) == if t == "0" then 1 else N("1", t) + N("2", t) + N("4", t) + N("5", t) + N("6", t)
    ensures N("1", t) == if t == "1" then 1 else 0
    ensures N("2", t) == if t == "2" then 1 else N("3", t) + N("4", t)
    ensures N("3", t) == if t == "3" then 1 else N("8", t)
    ensures N("4", t) == if t == "4" then 1 else N("3", t) + N("8", t) + N("7", t)
    ensures N("5", t) == if t == "5" then 1 else N("7", t) + N("8", t)
    ensures N("6", t) == if t == "6" then 1 else N("7", t)
    ensures N("7", t) == if t == "7" then 1 else N("8", t)
    ensures N("8", t) == if t == "8" then 1 else 0
  {
    Eq0(t); Eq1At(t); Eq2(t); Eq3(t); Eq4(t); Eq5(t); Eq6(t); Eq7(t); Eq8(t);
  }

  /** The path counts from "0" to each node, as `get_most_reachable` sees them. */
  lemma CountsFrom0()
    ensures N("0", "0") == 1 && N("0", "1") == 1 && N("0", "2") == 1
    ensures N("0", "3") == 3 && N("0", "4") == 2 && N("0", "5") == 1
    ensures N("0", "6") == 1 && N("0", "7") == 4 && N("0", "8") == 10
  {
    assert N("0", "0") == 1 by { Equations("0"); }
    assert N("0", "1") == 1 by { Equations("1"); }
    assert N("0", "2") == 1 by { Equations("2"); }
    assert N("0", "3") == 3 by { Equations("3"); }
    assert N("0", "4") == 2 by { Equations("4"); }
    assert N("0", "5") == 1 by { Equations("5"); }
    assert N("0", "6") == 1 by { Equations("6"); }
    assert N("0", "7") == 4 by { Equations("7"); }
    assert N("0", "8") == 10 by { Equations("8"); }
  }

  /** The test graph has no parallel edges, so every count above counts
      distinct paths. */
  lemma FixturePathsDistinct(t: Name)
    ensures NoParallelEdges(FixtureAdjacency())
    ensures Distinct(Paths(FixtureAdjacency(), "0", t))
  {
    var g: Adjacency := FixtureAdjacency();
    forall n: Name, i: int, j: int | n in g && 0 <= i < j < |g[n]| ensures g[n][i].0 != g[n][j].0 {
      assert n in {"0", "1", "2", "3", "4", "5", "6", "7", "8"};
    }
    PathsDistinct(g, "0", t);
  }

  /** Every node other than "8" is reached from "0" by fewer than ten paths. */
  lemma FewerThanTen(t: Name)
    requires t in FixtureNames && t != "8"
    ensures N("0", t) < 10
  {
    assert t == "0" || t == "1" || t == "2" || t == "3" || t == "4" || t == "5" || t == "6" || t == "7";
    CountsFrom0();
  }

  /** The counts `get_most_reachable` ranks: "8" at index 8 with ten paths,
      every other node with fewer. */
  lemma FixtureCounts(g: Adjacency, order: seq<Name>, source: Name)
    requires g == FixtureAdjacency() && order == FixtureNames && source == "0"
    ensures var counts := PathCounts(g, order, source);
            && |counts| == 9 && counts[8] == ("8", 10)
            && forall j :: 0 <= j < 9 && j != 8 ==> CountOf(counts[j]) < 10
  {
    var counts := PathCounts(g, order, source);
    assert N("0", "8") == 10 by { CountsFrom0(); }
    forall j | 0 <= j < 9 && j != 8 ensures CountOf(counts[j]) < 10 {
      FewerThanTen(order[j]);
    }
  }

  lemma MostReachableOfFixture(g: Adjacency, order: seq<Name>, source: Name)
    requires g == FixtureAdjacency() && order == FixtureNames && source == "0"
    ensures MostReachableOf(g, order, source) == Some(("8", 10))
  {
    FixtureCounts(g, order, source);
    SortDescUniqueMax(PathCounts(g, order, source), CountOf, 8);
  }

  /** `get_most_reachable` from "0" answers node "8", reached by ten paths. */
  lemma MostReachableFixture()
    ensures MostReachableOf(FixtureAdjacency(), FixtureNames, "0") == Some(("8", 10))
  {
    MostReachableOfFixture(FixtureAdjacency(), FixtureNames, "0");
  }

  // ---------------------------------------------------------------------
  // The paths from "0" to "8"
  // ---------------------------------------------------------------------

  /** The paths from `x` to "8" that `find_paths` returns on the test graph. */
  function P(x: Name): seq<PathCost>
  {
    Paths(FixtureAdjacency(), x, "8")
  }

  lemma Rec(x: Name)
    requires x in FixtureAdjacency() && x != "8"
    ensures P(x) == SortDesc(Branches(FixtureAdjacency(), x, FixtureAdjacency()[x], "8"), CostOf)
  {
    FixtureDescending("8");
    PathsRecurrence(FixtureAdjacency(), Height, x, "8");
  }

  lemma Single(x: Name, y: Name, w: int)
    requires x in FixtureAdjacency() && x != "8" && FixtureAdjacency()[x] == [(y, w)]
    ensures P(x) == SortDesc(Shift(P(y), [x], w), CostOf)
  {
    Rec(x);
    assert FixtureAdjacency()[x] == [] + [(y, w)];
    BranchesSnoc(FixtureAdjacency(), x, [], (y, w), "8");
    assert Branches(FixtureAdjacency(), x, [], "8") == [];
    assert [] + Shift(P(y), [x], w) == Shift(P(y), [x], w);
  }

  lemma Paths7()
    ensures P("7") == [PathCost(["7", "8"], 2)]
  {
    Single("7", "8", 2);
    assert P("8") == [PathCost(["8"], 0)];
    ShiftAt(P("8"), ["7"], 2);
    assert ["7"] + ["8"] == ["7", "8"];
    assert Shift(P("8"), ["7"], 2) == [PathCost(["7", "8"], 2)];
  }

  lemma Paths3()
    ensures P("3") == [PathCost(["3", "8"], -4)]
  {
    Single("3", "8", -4);
    ShiftAt(P("8"), ["3"], -4);
    assert ["3"] + ["8"] == ["3", "8"];
    assert Shift(P("8"), ["3"], -4) == [PathCost(["3", "8"], -4)];
  }

  lemma Paths6()
    ensures P("6") == [PathCost(["6", "7", "8"], 8)]
  {
    Single("6", "7", 6);
    Paths7();
    ShiftAt(P("7"), ["6"], 6);
    assert ["6"] + ["7", "8"] == ["6", "7", "8"];
    assert Shift(P("7"), ["6"], 6) == [PathCost(["6", "7", "8"], 8)];
  }

  lemma Paths5()
    ensures P("5") == [PathCost(["5", "7", "8"], 1), PathCost(["5", "8"], -3)]
  {
    var g := FixtureAdjacency();
    Rec("5");
    var e7, e8 := ("7", -1), ("8", -3);
    assert g["5"] == [] + [e7] + [e8];
    BranchesSnoc(g, "5", [], e7, "8");
    BranchesSnoc(g, "5", [] + [e7], e8, "8");
    Paths7();
    ShiftAt(P("7"), ["5"], -1);
    ShiftAt(P("8"), ["5"], -3);
    assert ["5"] + ["7", "8"] == ["5", "7", "8"];
    assert ["5"] + ["8"] == ["5", "8"];
    var b := Branches(g, "5", g["5"], "8");
    assert b == [PathCost(["5", "7", "8"], 1), PathCost(["5", "8"], -3)];
    SortDescOfSorted(b, CostOf);
  }

  lemma Branches4()
    ensures Branches(FixtureAdjacency(), "4", FixtureAdjacency()["4"], "8") ==
            [PathCost(["4", "3", "8"], 1), PathCost(["4", "8"], 1), PathCost(["4", "7", "8"], 4)]
  {
    var g := FixtureAdjacency();
    var e3, e8, e7 := ("3", 5), ("8", 1), ("7", 2);
    assert g["4"] == [] + [e3] + [e8] + [e7];
    BranchesSnoc(g, "4", [], e3, "8");
    BranchesSnoc(g, "4", [] + [e3], e8, "8");
    BranchesSnoc(g, "4", [] + [e3] + [e8], e7, "8");
    Paths3();
    Paths7();
    ShiftAt(P("3"), ["4"], 5);
    ShiftAt(P("8"), ["4"], 1);
    ShiftAt(P("7"), ["4"], 2);
    assert ["4"] + ["3", "8"] == ["4", "3", "8"];
    assert ["4"] + ["8"] == ["4", "8"];
    assert ["4"] + ["7", "8"] == ["4", "7", "8"];
  }

  /** The two paths out of "4" after its first, sorted. */
  lemma Sort4Tail()
    ensures SortDesc([PathCost(["4", "8"], 1), PathCost(["4", "7", "8"], 4)], CostOf) ==
            [PathCost(["4", "7", "8"], 4), PathCost(["4", "8"], 1)]
  {
    var p48, p478 := PathCost(["4", "8"], 1), PathCost(["4", "7", "8"], 4);
    assert [p48, p478][1..] == [p478] && [p478][1..] == [];
    assert SortDesc([p478], CostOf) == [p478];
    assert Insert(p48, [p478][1..], CostOf) == [p48];
  }

  lemma Sort4()
    ensures SortDesc([PathCost(["4", "3", "8"], 1), PathCost(["4", "8"], 1), PathCost(["4", "7", "8"], 4)], CostOf) ==
            [PathCost(["4", "7", "8"], 4), PathCost(["4", "3", "8"], 1), PathCost(["4", "8"], 1)]
  {
    var p438, p48, p478 := PathCost(["4", "3", "8"], 1), PathCost(["4", "8"], 1), PathCost(["4", "7", "8"], 4);
    var b := [p438, p48, p478];
    assert b[0] == p438 && b[1..] == [p48, p478];
    Sort4Tail();
    assert SortDesc(b, CostOf) == Insert(p438, [p478, p48], CostOf);
    assert [p478, p48][1..] == [p48];
    assert Insert(p438, [p48], CostOf) == [p438, p48];
    assert Insert(p438, [p478, p48], CostOf) == [p478] + [p438, p48];
  }

  lemma Paths4()
    ensures P("4") == [PathCost(["4", "7", "8"], 4), PathCost(["4", "3", "8"], 1), PathCost(["4", "8"], 1)]
  {
    Rec("4");
    Branches4();
    Sort4();
  }

  lemma Branches2()
    ensures Branches(FixtureAdjacency(), "2", FixtureAdjacency()["2"], "8") ==
            [PathCost(["2", "3", "8"], -1), PathCost(["2", "4", "7", "8"], 6),
             PathCost(["2", "4", "3", "8"], 3), PathCost(["2", "4", "8"], 3)]
  {
    var g := FixtureAdjacency();
    var e3, e4 := ("3", 3), ("4", 2);
    assert g["2"] == [] + [e3] + [e4];
    BranchesSnoc(g, "2", [], e3, "8");
    BranchesSnoc(g, "2", [] + [e3], e4, "8");
    Paths3();
    Paths4();
    ShiftAt(P("3"), ["2"], 3);
    ShiftAt(P("4"), ["2"], 2);
    assert ["2"] + ["3", "8"] == ["2", "3", "8"];
    assert ["2"] + ["4", "7", "8"] == ["2", "4", "7", "8"];
    assert ["2"] + ["4", "3", "8"] == ["2", "4", "3", "8"];
    assert ["2"] + ["4", "8"] == ["2", "4", "8"];
  }

  lemma Sort2()
    ensures SortDesc([PathCost(["2", "3", "8"], -1), PathCost(["2", "4", "7", "8"], 6),
                      PathCost(["2", "4", "3", "8"], 3), PathCost(["2", "4", "8"], 3)], CostOf) ==
            [PathCost(["2", "4", "7", "8"], 6), PathCost(["2", "4", "3", "8"], 3),
             PathCost(["2", "4", "8"], 3), PathCost(["2", "3", "8"], -1)]
  {
    var p238 := PathCost(["2", "3", "8"], -1);
    var p2478, p2438, p248 := PathCost(["2", "4", "7", "8"], 6), PathCost(["2", "4", "3", "8"], 3), PathCost(["2", "4", "8"], 3);
    var rest := [p2478, p2438, p248];
    var b := [p238] + rest;
    assert b[0] == p238 && b[1..] == rest;
    assert SortedDesc(rest, CostOf);
    SortDescOfSorted(rest, CostOf);
    assert SortDesc(b, CostOf) == Insert(p238, rest, CostOf);
    assert rest[1..] == [p2438, p248] && rest[1..][1..] == [p248];
    assert Insert(p238, [p248], CostOf) == [p248, p238];
    assert Insert(p238, [p2438, p248], CostOf) == [p2438, p248, p238];
  }

  lemma Paths2()
    ensures P("2") == [PathCost(["2", "4", "7", "8"], 6), PathCost(["2", "4", "3", "8"], 3),
                       PathCost(["2", "4", "8"], 3), PathCost(["2", "3", "8"], -1)]
  {
    Rec("2");
    Branches2();
    Sort2();
  }

  lemma Paths1()
    ensures P("1") == []
  {
    Rec("1");
  }

  lemma Via02()
    ensures Shift(P("2"), ["0"], 4) ==
            [PathCost(["0", "2", "4", "7", "8"], 10), PathCost(["0", "2", "4", "3", "8"], 7),
             PathCost(["0", "2", "4", "8"], 7), PathCost(["0", "2", "3", "8"], 3)]
  {
    Paths2();
    ShiftAt(P("2"), ["0"], 4);
    assert ["0"] + ["2", "4", "7", "8"] == ["0", "2", "4", "7", "8"];
    assert ["0"] + ["2", "4", "3", "8"] == ["0", "2", "4", "3", "8"];
    assert ["0"] + ["2", "4", "8"] == ["0", "2", "4", "8"];
    assert ["0"] + ["2", "3", "8"] == ["0", "2", "3", "8"];
  }

  lemma Via04()
    ensures Shift(P("4"), ["0"], -2) ==
            [PathCost(["0", "4", "7", "8"], 2), PathCost(["0", "4", "3", "8"], -1), PathCost(["0", "4", "8"], -1)]
  {
    Paths4();
    ShiftAt(P("4"), ["0"], -2);
    assert ["0"] + ["4", "7", "8"] == ["0", "4", "7", "8"];
    assert ["0"] + ["4", "3", "8"] == ["0", "4", "3", "8"];
    assert ["0"] + ["4", "8"] == ["0", "4", "8"];
  }

  lemma Via05()
    ensures Shift(P("5"), ["0"], 1) == [PathCost(["0", "5", "7", "8"], 2), PathCost(["0", "5", "8"], -2)]
  {
    Paths5();
    ShiftAt(P("5"), ["0"], 1);
    assert ["0"] + ["5", "7", "8"] == ["0", "5", "7", "8"];
    assert ["0"] + ["5", "8"] == ["0", "5", "8"];
  }

  lemma Via06()
    ensures Shift(P("6"), ["0"], 5) == [PathCost(["0", "6", "7", "8"], 13)]
  {
    Paths6();
    ShiftAt(P("6"), ["0"], 5);
    assert ["0"] + ["6", "7", "8"] == ["0", "6", "7", "8"];
  }

  lemma Branches0Parts(t: Name)
    ensures Branches(FixtureAdjacency(), "0", FixtureAdjacency()["0"], t) ==
            Shift(Paths(FixtureAdjacency(), "1", t), ["0"], 2) + Shift(Paths(FixtureAdjacency(), "2", t), ["0"], 4) +
            Shift(Paths(FixtureAdjacency(), "4", t), ["0"], -2) + Shift(Paths(FixtureAdjacency(), "5", t), ["0"], 1) +
            Shift(Paths(FixtureAdjacency(), "6", t), ["0"], 5)
  {
    var g := FixtureAdjacency();
    var e1, e2, e4, e5, e6 := ("1", 2), ("2", 4), ("4", -2), ("5", 1), ("6", 5);
    assert g["0"] == [] + [e1] + [e2] + [e4] + [e5] + [e6];
    BranchesSnoc(g, "0", [], e1, t);
    BranchesSnoc(g, "0", [] + [e1], e2, t);
    BranchesSnoc(g, "0", [] + [e1] + [e2], e4, t);
    BranchesSnoc(g, "0", [] + [e1] + [e2] + [e4], e5, t);
    BranchesSnoc(g, "0", [] + [e1] + [e2] + [e4] + [e5], e6, t);
    var s1 := Shift(Paths(g, "1", t), ["0"], 2);
    assert Branches(g, "0", [], t) == [];
    assert [] + s1 == s1;
  }

  /** Every path of `s` costs less than `c`. */
  predicate CostsBelow(s: seq<PathCost>, c: int)
  {
    forall j :: 0 <= j < |s| ==> s[j].cost < c
  }

  lemma CostsBelowConcat(a: seq<PathCost>, b: seq<PathCost>, c: int)
    requires CostsBelow(a, c) && CostsBelow(b, c)
    ensures CostsBelow(a + b, c)
  {
    forall j | 0 <= j < |a + b| ensures (a + b)[j].cost < c {
      if j >= |a| {
        assert (a + b)[j] == b[j - |a|];
      }
    }
  }

  // The paths out of "0" through each neighbour, put behind "0".

  lemma Out01()
    ensures Shift(P("1"), ["0"], 2) == []
  {
    Paths1();
  }

  lemma Out02()
    ensures var s := Shift(P("2"), ["0"], 4); |s| == 4 && CostsBelow(s, 13)
  {
    Via02();
  }

  lemma Out04()
    ensures var s := Shift(P("4"), ["0"], -2); |s| == 3 && CostsBelow(s, 13)
  {
    Via04();
  }

  lemma Out05()
    ensures var s := Shift(P("5"), ["0"], 1); |s| == 2 && CostsBelow(s, 13)
  {
    Via05();
  }

  lemma Out06()
    ensures Shift(P("6"), ["0"], 5) == [PathCost(["0", "6", "7", "8"], 13)]
  {
    Via06();
  }

  /** The paths out of "0", neighbour by neighbour, before sorting: ten of
      them, the last (through "6") costing 13 and every other one less. */
  lemma Branches0()
    ensures var b := Branches(FixtureAdjacency(), "0", FixtureAdjacency()["0"], "8");
            && |b| == 10
            && b[9] == PathCost(["0", "6", "7", "8"], 13)
            && CostsBelow(b[..9], 13)
  {
    var g := FixtureAdjacency();
    var s1, s2, s4 := Shift(P("1"), ["0"], 2), Shift(P("2"), ["0"], 4), Shift(P("4"), ["0"], -2);
    var s5, s6 := Shift(P("5"), ["0"], 1), Shift(P("6"), ["0"], 5);
    var b := Branches(g, "0", g["0"], "8");
    assert b == s1 + s2 + s4 + s5 + s6 by {
      Branches0Parts("8");
    }
    Out01(); Out02(); Out04(); Out05(); Out06();
    CostsBelowConcat(s1, s2, 13);
    CostsBelowConcat(s1 + s2, s4, 13);
    CostsBelowConcat(s1 + s2 + s4, s5, 13);
    assert b[..9] == s1 + s2 + s4 + s5;
  }

  /** `find_paths(G, 0, 8)` returns ten paths, and the first, the most
      expensive, is 0 -> 6 -> 7 -> 8 with cost 13. */
  lemma FirstPathFrom0()
    ensures |P("0")| == 10
    ensures P("0")[0] == PathCost(["0", "6", "7", "8"], 13)
  {
    var b := Branches(FixtureAdjacency(), "0", FixtureAdjacency()["0"], "8");
    Rec("0");
    Branches0();
    forall j | 0 <= j < |b| && j != 9 ensures CostOf(b[j]) < CostOf(b[9]) {
      assert b[j] == b[..9][j];
    }
    SortDescUniqueMax(b, CostOf, 9);
  }
}
