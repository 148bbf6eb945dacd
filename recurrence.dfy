/** The recurrence behind `find_paths` on graphs where its visited filter
    never fires. When a height strictly drops along every edge that leaves a
    node other than the target, the search from a node returns the same paths
    however it got there (only put behind the path so far and raised by the
    cost so far), so the paths from a node are the sorted union of its
    neighbours' paths, each extended by the edge taken. */
module PathRecurrence {
  import opened Graphs
  import opened Sorting
  import opened PathFinding

  /** `height` strictly drops along every edge leaving a node other than `t`. */
  ghost predicate Descending(g: Adjacency, height: Name -> nat, t: Name)
  {
    forall a, k :: a in g && a != t && 0 <= k < |g[a]| ==> height(g[a][k].0) < height(a)
  }

  /** Each path of `rel` put behind `prefix`, its cost raised by `c`. */
  function Shift(rel: seq<PathCost>, prefix: seq<Name>, c: int): (r: seq<PathCost>)
    ensures |r| == |rel|
  {
    if rel == [] then []
    else [PathCost(prefix + rel[0].names, c + rel[0].cost)] + Shift(rel[1..], prefix, c)
  }

  lemma {:induction false} ShiftAt(rel: seq<PathCost>, prefix: seq<Name>, c: int)
    ensures forall i :: 0 <= i < |rel| ==> Shift(rel, prefix, c)[i] == PathCost(prefix + rel[i].names, c + rel[i].cost)
  {
    if rel != [] {
      ShiftAt(rel[1..], prefix, c);
    }
  }

  lemma {:induction false} ShiftAppend(a: seq<PathCost>, b: seq<PathCost>, prefix: seq<Name>, c: int)
    ensures Shift(a + b, prefix, c) == Shift(a, prefix, c) + Shift(b, prefix, c)
  {
    if a == [] {
      assert a + b == b;
    } else {
      ShiftAppend(a[1..], b, prefix, c);
      assert (a + b)[0] == a[0];
      assert (a + b)[1..] == a[1..] + b;
      assert Shift(a + b, prefix, c) == [PathCost(prefix + a[0].names, c + a[0].cost)] + Shift(a[1..] + b, prefix, c);
    }
  }

  /** Shifting twice is shifting once by the combined prefix and cost. */
  lemma ShiftShift(rel: seq<PathCost>, p: seq<Name>, s: Name, c: int, w: int)
    ensures Shift(Shift(rel, [s], w), p, c) == Shift(rel, p + [s], c + w)
  {
    ShiftAt(rel, [s], w);
    ShiftAt(Shift(rel, [s], w), p, c);
    ShiftAt(rel, p + [s], c + w);
    var a, b := Shift(Shift(rel, [s], w), p, c), Shift(rel, p + [s], c + w);
    forall i | 0 <= i < |rel| ensures a[i] == b[i] {
      var r := rel[i];
      assert p + ([s] + r.names) == p + [s] + r.names;
    }
  }

  /** Raising every cost by the same amount keeps their order, so sorting
      commutes with shifting. */
  lemma {:induction false} InsertShift(x: PathCost, s: seq<PathCost>, p: seq<Name>, c: int)
    ensures Insert(PathCost(p + x.names, c + x.cost), Shift(s, p, c), CostOf) == Shift(Insert(x, s, CostOf), p, c)
  {
    if s != [] && s[0].cost > x.cost {
      InsertShift(x, s[1..], p, c);
    }
  }

  lemma {:induction false} SortDescShift(s: seq<PathCost>, p: seq<Name>, c: int)
    ensures SortDesc(Shift(s, p, c), CostOf) == Shift(SortDesc(s, CostOf), p, c)
  {
    if s != [] {
      SortDescShift(s[1..], p, c);
      InsertShift(s[0], SortDesc(s[1..], CostOf), p, c);
    }
  }

  /** The paths out of `s` through the neighbour entries `nbrs`, in their
      order: each neighbour's own paths behind `s`, raised by the edge weight. */
  function Branches(g: Adjacency, s: Name, nbrs: seq<(Name, int)>, t: Name): seq<PathCost>
  {
    if nbrs == [] then []
    else
      var n, w := nbrs[|nbrs| - 1].0, nbrs[|nbrs| - 1].1;
      Branches(g, s, nbrs[..|nbrs| - 1], t) + Shift(Paths(g, n, t), [s], w)
  }

  lemma BranchesSnoc(g: Adjacency, s: Name, init: seq<(Name, int)>, e: (Name, int), t: Name)
    ensures Branches(g, s, init + [e], t) == Branches(g, s, init, t) + Shift(Paths(g, e.0, t), [s], e.1)
  {
    assert (init + [e])[..|init|] == init;
  }

  /** The search from `s` does not depend on how `s` was reached, as long as
      every name already on the path is higher than `s`: its result is the
      search from `s` alone, behind the path and raised by the cost so far. */
  lemma {:induction false} PathsFromShift(g: Adjacency, height: Name -> nat, s: Name, t: Name, c: int, path: seq<Name>)
    requires Descending(g, height, t)
    requires forall x :: x in path ==> height(s) < height(x)
    ensures PathsFrom(g, s, t, c, path) == Shift(Paths(g, s, t), path, c)
    decreases height(s), 1
  {
    assert [] + [s] == [s];
    if s == t {
      assert Shift([PathCost([s], 0)], path, c) == [PathCost(path + [s], c)];
    } else if s in g {
      var here := Explore(g, g[s], t, 0, [s]);
      ExploreShift(g, height, s, g[s], t, c, path);
      assert PathsFrom(g, s, t, c, path) == SortDesc(Explore(g, g[s], t, c, path + [s]), CostOf);
      assert Paths(g, s, t) == SortDesc(here, CostOf);
      SortDescShift(here, path, c);
    }
  }

  /** The neighbour loop of the search from `s`, reached along `path` with
      cost `c`, and the same loop for the search from `s` alone, differ only
      by the shift. */
  lemma {:induction false} ExploreShift(g: Adjacency, height: Name -> nat, s: Name, nbrs: seq<(Name, int)>,
                                        t: Name, c: int, path: seq<Name>)
    requires Descending(g, height, t)
    requires forall x :: x in path ==> height(s) < height(x)
    requires forall k :: 0 <= k < |nbrs| ==> height(nbrs[k].0) < height(s)
    ensures Explore(g, nbrs, t, c, path + [s]) == Shift(Explore(g, nbrs, t, 0, [s]), path, c)
    ensures Explore(g, nbrs, t, 0, [s]) == Branches(g, s, nbrs, t)
    decreases height(s), 0, |nbrs|
  {
    if nbrs != [] {
      var init := nbrs[..|nbrs| - 1];
      var n, w := nbrs[|nbrs| - 1].0, nbrs[|nbrs| - 1].1;
      assert nbrs == init + [(n, w)];
      forall k | 0 <= k < |init| ensures height(init[k].0) < height(s) {
        assert init[k] == nbrs[k];
      }
      ExploreShift(g, height, s, init, t, c, path);
      forall x | x in path + [s] ensures height(n) < height(x) {
        assert x in path || x == s;
      }
      PathsFromShift(g, height, n, t, c + w, path + [s]);
      PathsFromShift(g, height, n, t, w, [s]);
      ExploreSteps(g, s, init, n, w, t, c, path);
    }
  }

  /** The bookkeeping of one step of `ExploreShift`, given the facts about
      the earlier entries and about the last neighbour. */
  lemma ExploreSteps(g: Adjacency, s: Name, init: seq<(Name, int)>, n: Name, w: int, t: Name, c: int,
                     path: seq<Name>)
    requires n !in path + [s]
    requires Explore(g, init, t, c, path + [s]) == Shift(Explore(g, init, t, 0, [s]), path, c)
    requires Explore(g, init, t, 0, [s]) == Branches(g, s, init, t)
    requires PathsFrom(g, n, t, c + w, path + [s]) == Shift(Paths(g, n, t), path + [s], c + w)
    requires PathsFrom(g, n, t, w, [s]) == Shift(Paths(g, n, t), [s], w)
    ensures Explore(g, init + [(n, w)], t, c, path + [s]) == Shift(Explore(g, init + [(n, w)], t, 0, [s]), path, c)
    ensures Explore(g, init + [(n, w)], t, 0, [s]) == Branches(g, s, init + [(n, w)], t)
  {
    ExploreSnoc(g, init, n, w, t, c, path + [s]);
    ExploreSnoc(g, init, n, w, t, 0, [s]);
    BranchesSnoc(g, s, init, (n, w), t);
    ShiftShift(Paths(g, n, t), path, s, c, w);
    ShiftAppend(Explore(g, init, t, 0, [s]), Shift(Paths(g, n, t), [s], w), path, c);
  }

  /** `find_paths` from a node that is not the target: the sorted union, over
      its neighbour entries in order, of each neighbour's paths extended by
      the edge taken. */
  lemma PathsRecurrence(g: Adjacency, height: Name -> nat, s: Name, t: Name)
    requires Descending(g, height, t)
    requires s != t && s in g
    ensures Paths(g, s, t) == SortDesc(Branches(g, s, g[s], t), CostOf)
  {
    assert [] + [s] == [s];
    ExploreShift(g, height, s, g[s], t, 0, []);
  }

  /** The number of paths to `t` from the neighbours in `nbrs`, added up. */
  function Through(g: Adjacency, nbrs: seq<(Name, int)>, t: Name): nat
  {
    if nbrs == [] then 0
    else Through(g, nbrs[..|nbrs| - 1], t) + |Paths(g, nbrs[|nbrs| - 1].0, t)|
  }

  lemma ThroughSnoc(g: Adjacency, init: seq<(Name, int)>, e: (Name, int), t: Name)
    ensures Through(g, init + [e], t) == Through(g, init, t) + |Paths(g, e.0, t)|
  {
    assert (init + [e])[..|init|] == init;
  }

  lemma {:induction false} BranchesCount(g: Adjacency, s: Name, nbrs: seq<(Name, int)>, t: Name)
    ensures |Branches(g, s, nbrs, t)| == Through(g, nbrs, t)
  {
    if nbrs != [] {
      BranchesCount(g, s, nbrs[..|nbrs| - 1], t);
    }
  }

  /** Counting the paths of `find_paths`: from a node other than the target,
      the number of paths is the sum of the numbers from its neighbour
      entries (a neighbour listed twice counts twice). */
  lemma CountRecurrence(g: Adjacency, height: Name -> nat, s: Name, t: Name)
    requires Descending(g, height, t)
    requires s != t && s in g
    ensures |Paths(g, s, t)| == Through(g, g[s], t)
  {
    PathsRecurrence(g, height, s, t);
    SortDescMembers(Branches(g, s, g[s], t), CostOf);
    BranchesCount(g, s, g[s], t);
  }
}
