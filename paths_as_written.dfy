/** `find_paths` as main.py:211 is written: the test `node not in path` asks
    whether a node object occurs in a list of name strings, so it never
    excludes a neighbour and the search follows every edge. Such a search may
    not end, so it is modelled with a bound on the recursion depth: `None`
    stands for a search that has not finished within `fuel` levels. */
module PathFindingAsWritten {
  import opened Graphs
  import opened Sorting
  import opened PathFinding
  import opened PathRecurrence

  function PathsAsWritten(g: Adjacency, source: Name, target: Name, cost: int, path: seq<Name>, fuel: nat)
    : Option<seq<PathCost>>
    decreases fuel, 0, 0
  {
    if fuel == 0 then None
    else if source == target then Some([PathCost(path + [source], cost)])
    else if source !in g then Some([])
    else
      match ExploreAsWritten(g, g[source], target, cost, path + [source], fuel - 1)
      case None => None
      case Some(found) => Some(SortDesc(found, CostOf))
  }

  function ExploreAsWritten(g: Adjacency, nbrs: seq<(Name, int)>, target: Name, cost: int,
                            visited: seq<Name>, fuel: nat): Option<seq<PathCost>>
    decreases fuel, 1, |nbrs|
  {
    if nbrs == [] then Some([])
    else
      var n := nbrs[|nbrs| - 1].0;
      var w := nbrs[|nbrs| - 1].1;
      match ExploreAsWritten(g, nbrs[..|nbrs| - 1], target, cost, visited, fuel)
      case None => None
      case Some(init) =>
        match PathsAsWritten(g, n, target, cost + w, visited, fuel)
        case None => None
        case Some(more) => Some(init + more)
  }

  /** Two nodes with edges both ways, and a third that neither reaches. */
  function TwoCycle(): Adjacency
  {
    map["0" := [("1", 1)], "1" := [("0", 1)], "2" := []]
  }

  /** On `TwoCycle`, a search from "0" or "1" for "2" goes back and forth
      between "0" and "1" at every depth: no bound is ever enough. */
  lemma {:induction false} AsWrittenDivergesOnCycle(s: Name, c: int, path: seq<Name>, fuel: nat)
    requires s == "0" || s == "1"
    ensures PathsAsWritten(TwoCycle(), s, "2", c, path, fuel) == None
    decreases fuel
  {
    if fuel > 0 {
      var g := TwoCycle();
      var other: Name := if s == "0" then "1" else "0";
      assert g[s] == [(other, 1)];
      AsWrittenDivergesOnCycle(other, c + 1, path + [s], fuel - 1);
      assert g[s][..0] == [];
    }
  }

  /** The intended search does end on `TwoCycle`: "2" is not reachable from "0". */
  lemma IntendedEndsOnCycle()
    ensures Paths(TwoCycle(), "0", "2") == []
  {
    var g := TwoCycle();
    assert g["0"] == [("1", 1)] && g["1"] == [("0", 1)];
    assert g["0"][..0] == [] && g["1"][..0] == [];
    assert ["0"] + ["1"] == ["0", "1"];
    assert Explore(g, g["1"], "2", 1, ["0", "1"]) == [];
    assert PathsFrom(g, "1", "2", 1, ["0"]) == [];
    assert [] + ["0"] == ["0"] && "1" !in ["0"];
    assert Explore(g, g["0"], "2", 0, ["0"]) == [];
  }

  /** There is an edge from `a` to `b`. */
  ghost predicate HasEdge(g: Adjacency, a: Name, b: Name)
  {
    a in g && exists k :: 0 <= k < |g[a]| && g[a][k].0 == b
  }

  /** Consecutive names are joined by an edge. */
  ghost predicate IsWalk(g: Adjacency, w: seq<Name>)
  {
    forall i :: 0 <= i < |w| - 1 ==> HasEdge(g, w[i], w[i + 1])
  }

  /** No walk of one or more edges comes back to where it started. */
  ghost predicate Acyclic(g: Adjacency)
  {
    forall w :: IsWalk(g, w) && |w| >= 2 ==> w[0] != w[|w| - 1]
  }

  /** No walk of one or more edges that leaves only names other than `t`
      comes back to where it started. Edges out of `t` are never followed
      by a search for `t`, so cycles through them do not matter. */
  ghost predicate AcyclicExcept(g: Adjacency, t: Name)
  {
    forall w :: IsWalk(g, w) && |w| >= 2 && (forall i :: 0 <= i < |w| - 1 ==> w[i] != t) ==> w[0] != w[|w| - 1]
  }

  lemma AcyclicExceptOf(g: Adjacency, t: Name)
    requires Acyclic(g)
    ensures AcyclicExcept(g, t)
  {
  }

  /** Along a walk that leaves only names other than `t`, a height that
      drops along every edge out of a name other than `t` keeps dropping. */
  lemma {:induction false} WalkDescends(g: Adjacency, height: Name -> nat, t: Name, w: seq<Name>, j: nat)
    requires Descending(g, height, t)
    requires IsWalk(g, w) && (forall i :: 0 <= i < |w| - 1 ==> w[i] != t)
    requires 0 < j < |w|
    ensures height(w[j]) < height(w[0])
  {
    assert HasEdge(g, w[j - 1], w[j]);
    var k :| 0 <= k < |g[w[j - 1]]| && g[w[j - 1]][k].0 == w[j];
    assert height(w[j]) < height(w[j - 1]);
    if j > 1 {
      WalkDescends(g, height, t, w, j - 1);
    }
  }

  /** A height that drops along every edge out of a name other than `t`
      rules out every cycle that the search for `t` could follow. */
  lemma DescendingAcyclicExcept(g: Adjacency, height: Name -> nat, t: Name)
    requires Descending(g, height, t)
    ensures AcyclicExcept(g, t)
  {
    forall w | IsWalk(g, w) && |w| >= 2 && (forall i :: 0 <= i < |w| - 1 ==> w[i] != t)
      ensures w[0] != w[|w| - 1]
    {
      WalkDescends(g, height, t, w, |w| - 1);
    }
  }

  /** When the cycles that avoid leaving `t` are ruled out, a neighbour of
      the end of a walk that avoids `t` is never on the walk. */
  lemma NeighbourNotOnWalk(g: Adjacency, t: Name, w: seq<Name>, n: Name)
    requires AcyclicExcept(g, t) && IsWalk(g, w) && |w| > 0 && t !in w
    requires HasEdge(g, w[|w| - 1], n)
    ensures n !in w
  {
    if n in w {
      var i :| 0 <= i < |w| && w[i] == n;
      var cycle := w[i..] + [n];
      assert forall j :: 0 <= j < |cycle| - 1 ==> cycle[j] == w[i + j];
      assert IsWalk(g, cycle) by {
        forall j | 0 <= j < |cycle| - 1 ensures HasEdge(g, cycle[j], cycle[j + 1]) {
          if j < |cycle| - 2 {
            assert cycle[j] == w[i + j] && cycle[j + 1] == w[i + j + 1];
          }
        }
      }
    }
  }

  lemma DistinctExtend(w: seq<Name>, n: Name)
    requires Distinct(w) && n !in w
    ensures Distinct(w + [n])
  {
  }

  lemma WalkExtend(g: Adjacency, w: seq<Name>, n: Name)
    requires IsWalk(g, w) && |w| > 0 && HasEdge(g, w[|w| - 1], n)
    ensures IsWalk(g, w + [n])
  {
    var w' := w + [n];
    forall i | 0 <= i < |w'| - 1 ensures HasEdge(g, w'[i], w'[i + 1]) {
      if i < |w| - 1 {
        assert w'[i] == w[i] && w'[i + 1] == w[i + 1];
      }
    }
  }

  /** Every name of a walk but the last leaves along an edge, so is a node. */
  lemma WalkPrefixInGraph(g: Adjacency, path: seq<Name>, s: Name)
    requires IsWalk(g, path + [s])
    ensures forall i :: 0 <= i < |path| ==> path[i] in g
  {
    forall i | 0 <= i < |path| ensures path[i] in g {
      assert HasEdge(g, (path + [s])[i], (path + [s])[i + 1]);
    }
  }

  lemma SubsetCard<T>(a: set<T>, b: set<T>)
    requires a <= b
    ensures |a| <= |b|
  {
    assert b == a + (b - a);
  }

  lemma {:induction false} DistinctCard(w: seq<Name>)
    requires Distinct(w)
    ensures |set i | 0 <= i < |w| :: w[i]| == |w|
  {
    if w != [] {
      var init := w[..|w| - 1];
      DistinctCard(init);
      var s := set i | 0 <= i < |w| :: w[i];
      var s' := set i | 0 <= i < |init| :: init[i];
      assert s == s' + {w[|w| - 1]};
      assert w[|w| - 1] !in s';
    }
  }

  /** A path that repeats no name and lies in the graph is no longer than the
      graph has nodes. */
  lemma PathLength(g: Adjacency, path: seq<Name>, s: Name)
    requires IsWalk(g, path + [s]) && Distinct(path + [s])
    ensures |path| <= |g|
  {
    WalkPrefixInGraph(g, path, s);
    assert Distinct(path) by {
      assert forall i :: 0 <= i < |path| ==> path[i] == (path + [s])[i];
    }
    DistinctCard(path);
    SubsetCard(set i | 0 <= i < |path| :: path[i], g.Keys);
    assert |g.Keys| == |g|;
  }

  /** Every entry of a node's list is an edge out of that node. */
  lemma EdgesOut(g: Adjacency, s: Name)
    requires s in g
    ensures forall k :: 0 <= k < |g[s]| ==> HasEdge(g, s, g[s][k].0)
  {
    forall k | 0 <= k < |g[s]| ensures HasEdge(g, s, g[s][k].0) {
      assert g[s][k].0 == g[s][k].0;
    }
  }

  /** One level of the search as written, once its neighbour loop, run after
      `path'` (the path extended by `s`) with `fuel'` (one level less), has ended. */
  lemma PathsAsWrittenStep(g: Adjacency, s: Name, t: Name, c: int, path: seq<Name>, path': seq<Name>,
                           fuel: nat, fuel': nat, found: seq<PathCost>)
    requires path' == path + [s] && fuel == fuel' + 1 && s != t && s in g
    requires ExploreAsWritten(g, g[s], t, c, path', fuel') == Some(found)
    ensures PathsAsWritten(g, s, t, c, path, fuel) == Some(SortDesc(found, CostOf))
  {
  }

  /** A search that starts at the target, or at a name that is not a node,
      ends at once with the intended result. */
  lemma AsWrittenBase(g: Adjacency, s: Name, t: Name, c: int, path: seq<Name>, fuel: nat)
    requires fuel > 0 && (s == t || s !in g)
    ensures PathsAsWritten(g, s, t, c, path, fuel) == Some(PathsFrom(g, s, t, c, path))
  {
  }

  /** On an acyclic graph the filter would never fire, and a depth of one more
      than the number of nodes is always enough: the search as written ends
      and returns what the intended search returns. */
  lemma {:induction false} AsWrittenAgrees(g: Adjacency, s: Name, t: Name, c: int, path: seq<Name>, fuel: nat)
    requires AcyclicExcept(g, t) && t !in path
    requires IsWalk(g, path + [s]) && Distinct(path + [s])
    requires fuel >= |g| - |path| + 1
    ensures PathsAsWritten(g, s, t, c, path, fuel) == Some(PathsFrom(g, s, t, c, path))
    decreases fuel, 0, 1
  {
    PathLength(g, path, s);
    if s != t && s in g {
      AsWrittenDescends(g, s, t, c, path, fuel);
    } else {
      AsWrittenBase(g, s, t, c, path, fuel);
    }
  }

  /** The search from a node other than the target: the neighbour loop agrees,
      and so does the sorted result. */
  lemma {:induction false} AsWrittenDescends(g: Adjacency, s: Name, t: Name, c: int, path: seq<Name>, fuel: nat)
    requires AcyclicExcept(g, t) && t !in path
    requires IsWalk(g, path + [s]) && Distinct(path + [s])
    requires fuel >= |g| - |path| + 1 && |path| <= |g|
    requires s != t && s in g
    ensures PathsAsWritten(g, s, t, c, path, fuel) == Some(PathsFrom(g, s, t, c, path))
    decreases fuel, 0, 0
  {
    var path' := path + [s];
    var fuel' := fuel - 1;
    assert path'[|path'| - 1] == s && t !in path';
    assert fuel' >= |g| - |path'| + 1;
    EdgesOut(g, s);
    ExploreAgrees(g, g[s], t, c, path', fuel');
    var found := Explore(g, g[s], t, c, path');
    PathsAsWrittenStep(g, s, t, c, path, path', fuel, fuel', found);
    assert PathsFrom(g, s, t, c, path) == SortDesc(found, CostOf);
  }

  /** An entry appended to the list adds that neighbour's results, searched
      at cost `cw` (the cost so far plus the entry's weight), at the end. */
  lemma ExploreAsWrittenSnoc(g: Adjacency, init: seq<(Name, int)>, n: Name, w: int, t: Name, c: int, cw: int,
                             visited: seq<Name>, fuel: nat, a: seq<PathCost>, b: seq<PathCost>)
    requires cw == c + w
    requires ExploreAsWritten(g, init, t, c, visited, fuel) == Some(a)
    requires PathsAsWritten(g, n, t, cw, visited, fuel) == Some(b)
    ensures ExploreAsWritten(g, init + [(n, w)], t, c, visited, fuel) == Some(a + b)
  {
    var nbrs := init + [(n, w)];
    assert nbrs[..|nbrs| - 1] == init;
  }

  lemma ExploreSnocAt(g: Adjacency, init: seq<(Name, int)>, n: Name, w: int, t: Name, c: int, cw: int,
                      visited: seq<Name>, b: seq<PathCost>)
    requires n !in visited && cw == c + w && b == PathsFrom(g, n, t, cw, visited)
    ensures Explore(g, init + [(n, w)], t, c, visited) == Explore(g, init, t, c, visited) + b
  {
    ExploreSnoc(g, init, n, w, t, c, visited);
  }

  /** A neighbour of the end of the walk is off the walk, and the search as
      written from it agrees with the intended one. */
  lemma {:induction false} NeighbourAgrees(g: Adjacency, n: Name, t: Name, c: int, visited: seq<Name>, fuel: nat)
    requires AcyclicExcept(g, t) && t !in visited
    requires |visited| > 0 && IsWalk(g, visited) && Distinct(visited)
    requires HasEdge(g, visited[|visited| - 1], n)
    requires fuel >= |g| - |visited| + 1
    ensures n !in visited
    ensures PathsAsWritten(g, n, t, c, visited, fuel) == Some(PathsFrom(g, n, t, c, visited))
    decreases fuel, 1, 0
  {
    NeighbourNotOnWalk(g, t, visited, n);
    WalkExtend(g, visited, n);
    DistinctExtend(visited, n);
    AsWrittenAgrees(g, n, t, c, visited, fuel);
  }

  lemma {:induction false} ExploreAgrees(g: Adjacency, nbrs: seq<(Name, int)>, t: Name, c: int,
                                         visited: seq<Name>, fuel: nat)
    requires AcyclicExcept(g, t) && t !in visited
    requires |visited| > 0 && IsWalk(g, visited) && Distinct(visited)
    requires forall k :: 0 <= k < |nbrs| ==> HasEdge(g, visited[|visited| - 1], nbrs[k].0)
    requires fuel >= |g| - |visited| + 1
    ensures ExploreAsWritten(g, nbrs, t, c, visited, fuel) == Some(Explore(g, nbrs, t, c, visited))
    decreases fuel, 1, |nbrs|
  {
    if nbrs != [] {
      var init := nbrs[..|nbrs| - 1];
      var n, w := nbrs[|nbrs| - 1].0, nbrs[|nbrs| - 1].1;
      assert nbrs == init + [(n, w)];
      assert forall k :: 0 <= k < |init| ==> init[k] == nbrs[k];
      ExploreAgrees(g, init, t, c, visited, fuel);
      assert HasEdge(g, visited[|visited| - 1], n);
      var cw := c + w;
      NeighbourAgrees(g, n, t, cw, visited, fuel);
      var a, b := Explore(g, init, t, c, visited), PathsFrom(g, n, t, cw, visited);
      assert ExploreAsWritten(g, init, t, c, visited, fuel) == Some(a);
      assert PathsAsWritten(g, n, t, cw, visited, fuel) == Some(b);
      ExploreAsWrittenSnoc(g, init, n, w, t, c, cw, visited, fuel, a, b);
      ExploreSnocAt(g, init, n, w, t, c, cw, visited, b);
    }
  }

  /** `find_paths(graph, s, t)` as written returns, on an acyclic graph, what
      the intended search returns. */
  lemma AsWrittenAgreesOnAcyclic(g: Adjacency, s: Name, t: Name)
    requires Acyclic(g)
    ensures PathsAsWritten(g, s, t, 0, [], |g| + 1) == Some(Paths(g, s, t))
  {
    AcyclicExceptOf(g, t);
    AsWrittenAgreesExcept(g, s, t);
  }

  /** The same when every cycle of the graph leaves the target: the search
      as written stops at the target before it could follow such a cycle. */
  lemma AsWrittenAgreesExcept(g: Adjacency, s: Name, t: Name)
    requires AcyclicExcept(g, t)
    ensures PathsAsWritten(g, s, t, 0, [], |g| + 1) == Some(Paths(g, s, t))
  {
    assert [] + [s] == [s];
    AsWrittenAgrees(g, s, t, 0, [], |g| + 1);
  }

  /** The same when a height drops along every edge out of a name other than
      the target, as on the test graph before and after "V'" is added. */
  lemma AsWrittenAgreesDescending(g: Adjacency, height: Name -> nat, s: Name, t: Name)
    requires Descending(g, height, t)
    ensures PathsAsWritten(g, s, t, 0, [], |g| + 1) == Some(Paths(g, s, t))
  {
    DescendingAcyclicExcept(g, height, t);
    AsWrittenAgreesExcept(g, s, t);
  }
}
