/** The path enumerator `find_paths` of main.py: depth-first search from a
    source to a target that returns every path that does not revisit a name,
    with its summed weight, sorted by weight with the heaviest first. */
module PathFinding {
  import opened Graphs
  import opened Sorting

  /** One enumerated path: the names visited, source to target, and its cost. */
  datatype PathCost = PathCost(names: seq<Name>, cost: int)

  function CostOf(p: PathCost): int
  {
    p.cost
  }

  function Visited(path: seq<Name>): set<Name>
  {
    set n | n in path
  }

  /** Nodes of `g` not yet on the path: the enumeration's termination measure. */
  function Unvisited(g: Adjacency, path: seq<Name>): nat
  {
    |g.Keys - Visited(path)|
  }

  /** Stepping onto a node of the graph reduces the measure, unless the node
      was already on the path, in which case it stays the same. */
  lemma UnvisitedStep(g: Adjacency, s: Name, path: seq<Name>)
    requires s in g
    ensures Unvisited(g, path + [s]) < Unvisited(g, path) + (if s in path then 1 else 0)
  {
    assert Visited(path + [s]) == Visited(path) + {s};
    if s !in path {
      var rest := g.Keys - Visited(path);
      assert s in rest;
      assert g.Keys - Visited(path + [s]) == rest - {s};
    } else {
      assert Visited(path) + {s} == Visited(path);
    }
  }

  /** The paths from `source` to `target`, for a search that has already
      walked `path` and accumulated `cost` (the defaulted parameters of
      `find_paths`). Reaching the target ends the search even if the target
      has edges; a source that is not a node has no paths; otherwise every
      neighbour not yet on the path is explored in adjacency order, and the
      collected paths are sorted by cost, heaviest first. */
  function PathsFrom(g: Adjacency, source: Name, target: Name, cost: int, path: seq<Name>): seq<PathCost>
    decreases Unvisited(g, path) + (if source in path then 1 else 0), 0, 0
  {
    if source == target then [PathCost(path + [source], cost)]
    else if source !in g then []
    else
      UnvisitedStep(g, source, path);
      SortDesc(Explore(g, g[source], target, cost, path + [source]), CostOf)
  }

  /** The paths collected from the neighbour entries `nbrs`, in their order,
      skipping each neighbour whose name is already in `visited`. */
  function Explore(g: Adjacency, nbrs: seq<(Name, int)>, target: Name, cost: int, visited: seq<Name>): seq<PathCost>
    decreases Unvisited(g, visited), 1, |nbrs|
  {
    if nbrs == [] then []
    else
      var n := nbrs[|nbrs| - 1].0;
      var w := nbrs[|nbrs| - 1].1;
      Explore(g, nbrs[..|nbrs| - 1], target, cost, visited) +
      (if n !in visited then PathsFrom(g, n, target, cost + w, visited) else [])
  }

  /** A neighbour entry appended to the list adds that neighbour's paths at
      the end, unless the neighbour is already visited. */
  lemma ExploreSnoc(g: Adjacency, init: seq<(Name, int)>, n: Name, w: int, t: Name, c: int, visited: seq<Name>)
    requires n !in visited
    ensures Explore(g, init + [(n, w)], t, c, visited) == Explore(g, init, t, c, visited) + PathsFrom(g, n, t, c + w, visited)
  {
    var nbrs := init + [(n, w)];
    assert nbrs[..|nbrs| - 1] == init;
  }

  /** One level of the search from a node other than the target, once the
      neighbour entries have been explored after `path'`, the path extended
      by `s`. */
  lemma PathsFromStep(g: Adjacency, s: Name, t: Name, c: int, path: seq<Name>, path': seq<Name>,
                      found: seq<PathCost>)
    requires path' == path + [s] && s != t && s in g
    requires found == Explore(g, g[s], t, c, path')
    ensures PathsFrom(g, s, t, c, path) == SortDesc(found, CostOf)
  {
  }

  /** One more neighbour entry `(n, w)` of a prefix adds `last`: the paths
      from `n`, searched at cost `cw` (the cost so far plus `w`), or nothing
      if `n` is already visited. */
  lemma ExploreStep(g: Adjacency, nbrs: seq<(Name, int)>, i: nat, n: Name, t: Name, c: int, cw: int,
                    visited: seq<Name>, last: seq<PathCost>)
    requires i < |nbrs| && n == nbrs[i].0 && cw == c + nbrs[i].1
    requires n !in visited ==> last == PathsFrom(g, n, t, cw, visited)
    requires n in visited ==> last == []
    ensures Explore(g, nbrs[..i + 1], t, c, visited) == Explore(g, nbrs[..i], t, c, visited) + last
  {
    assert nbrs[..i + 1][..i] == nbrs[..i];
  }

  /** `find_paths(graph, source, target)`: initial cost 0 and an empty path. */
  function Paths(g: Adjacency, source: Name, target: Name): (r: seq<PathCost>)
    ensures source == target ==> r == [PathCost([source], 0)]
    ensures source != target && source !in g ==> r == []
  {
    assert [] + [source] == [source];
    PathsFrom(g, source, target, 0, [])
  }

  /** `names` follows edges of `g`, and the weights of the edges taken, added
      to `c0`, give `c`. Parallel edges make the choice of edge part of the walk. */
  ghost predicate WeightedWalk(g: Adjacency, names: seq<Name>, c0: int, c: int)
    decreases |names|
  {
    if |names| <= 1 then |names| == 1 && c == c0
    else
      && names[0] in g
      && exists k :: 0 <= k < |g[names[0]]| && g[names[0]][k].0 == names[1] &&
                     WeightedWalk(g, names[1..], c0 + g[names[0]][k].1, c)
  }

  /** A path collected from `nbrs` comes from one neighbour entry, the `k`-th,
      that is not in `visited`. */
  lemma {:induction false} ExploreSource(g: Adjacency, nbrs: seq<(Name, int)>, target: Name, cost: int,
                                         visited: seq<Name>, r: PathCost) returns (k: nat)
    requires r in Explore(g, nbrs, target, cost, visited)
    ensures k < |nbrs| && nbrs[k].0 !in visited &&
            r in PathsFrom(g, nbrs[k].0, target, cost + nbrs[k].1, visited)
    decreases |nbrs|
  {
    var i := |nbrs| - 1;
    var n, cw := nbrs[i].0, cost + nbrs[i].1;
    var last := if n !in visited then PathsFrom(g, n, target, cw, visited) else [];
    ExploreStep(g, nbrs, i, n, target, cost, cw, visited, last);
    assert nbrs[..i + 1] == nbrs;
    var init := nbrs[..i];
    if r in Explore(g, init, target, cost, visited) {
      k := ExploreSource(g, init, target, cost, visited, r);
      assert nbrs[k] == init[k];
    } else {
      k := i;
    }
  }

  /** Every path from an entry of `nbrs` that is not in `visited` is collected. */
  lemma {:induction false} ExploreCollects(g: Adjacency, nbrs: seq<(Name, int)>, target: Name, cost: int,
                                           visited: seq<Name>, k: nat, r: PathCost)
    requires k < |nbrs| && nbrs[k].0 !in visited
    requires r in PathsFrom(g, nbrs[k].0, target, cost + nbrs[k].1, visited)
    ensures r in Explore(g, nbrs, target, cost, visited)
    decreases |nbrs|
  {
    if k < |nbrs| - 1 {
      var init := nbrs[..|nbrs| - 1];
      assert init[k] == nbrs[k];
      ExploreCollects(g, init, target, cost, visited, k, r);
    }
  }

  /** What soundness says of a path `r` returned after `path` from source `s`. */
  ghost predicate ExtendsPath(g: Adjacency, s: Name, t: Name, c0: int, path: seq<Name>, r: PathCost)
  {
    && |r.names| > |path| && r.names[..|path|] == path
    && r.names[|path|] == s && r.names[|r.names| - 1] == t
    && WeightedWalk(g, r.names[|path|..], c0, r.cost)
    && Distinct(r.names[|path|..])
    && (forall i :: |path| < i < |r.names| ==> r.names[i] !in path)
  }

  /** One step back up the search: a path found from the neighbour entry
      `g[s][k]`, named `n`, after `path'` (the path extended by `s`) at cost
      `cw` (the cost so far plus the entry's weight), is a path from `s`
      after `path`. */
  lemma ExtendsPathStep(g: Adjacency, s: Name, t: Name, c0: int, path: seq<Name>, path': seq<Name>,
                        k: nat, n: Name, cw: int, r: PathCost)
    requires s in g && k < |g[s]| && n == g[s][k].0 && cw == c0 + g[s][k].1
    requires path' == path + [s] && n !in path'
    requires ExtendsPath(g, n, t, cw, path', r)
    ensures ExtendsPath(g, s, t, c0, path, r)
  {
    var names := r.names;
    var q, q' := names[|path|..], names[|path'|..];
    assert names[..|path'|] == path';
    assert names[..|path|] == path' [..|path|] == path;
    assert q == [s] + q';
    WalkCons(g, s, k, q', c0, cw, r.cost);
    AvoidsAfter(names, path, path', s, n);
    DistinctCons(s, q');
  }

  /** A weighted walk preceded by an edge into its first name. */
  lemma WalkCons(g: Adjacency, s: Name, k: nat, q': seq<Name>, c0: int, cw: int, c: int)
    requires s in g && k < |g[s]| && |q'| >= 1 && g[s][k].0 == q'[0] && cw == c0 + g[s][k].1
    requires WeightedWalk(g, q', cw, c)
    ensures WeightedWalk(g, [s] + q', c0, c)
  {
    var q := [s] + q';
    assert q[0] == s && q[1..] == q';
    assert g[q[0]][k].0 == q[1];
  }

  /** The names after `path'` avoid it, the first of them being `n`: so the
      names after `path` avoid `path`, and `s` does not recur. */
  lemma AvoidsAfter(names: seq<Name>, path: seq<Name>, path': seq<Name>, s: Name, n: Name)
    requires path' == path + [s] && |names| > |path'| && names[..|path'|] == path'
    requires names[|path'|] == n && n !in path'
    requires forall i :: |path'| < i < |names| ==> names[i] !in path'
    ensures forall i :: |path| < i < |names| ==> names[i] !in path
    ensures s !in names[|path'|..]
  {
    forall i | |path| < i < |names| ensures names[i] !in path {
      assert names[i] !in path';
    }
    forall j | 0 <= j < |names[|path'|..]| ensures names[|path'|..][j] != s {
      assert names[|path'|..][j] == names[|path'| + j];
    }
  }

  /** A sequence without repeats, preceded by a name it does not contain. */
  lemma DistinctCons<T>(s: T, q': seq<T>)
    requires Distinct(q') && s !in q'
    ensures Distinct([s] + q')
  {
    var q := [s] + q';
    forall i, j | 0 <= i < j < |q| ensures q[i] != q[j] {
      assert q[j] == q'[j - 1];
      if i > 0 {
        assert q[i] == q'[i - 1];
      }
    }
  }

  /** Soundness: a path returned after `path` extends `path` with a walk from
      the source to the target whose weights add up to its cost, that repeats
      no name, and whose later names are not on `path`. */
  lemma {:induction false} PathsFromSound(g: Adjacency, s: Name, t: Name, c0: int, path: seq<Name>, r: PathCost)
    requires r in PathsFrom(g, s, t, c0, path)
    ensures ExtendsPath(g, s, t, c0, path, r)
    decreases Unvisited(g, path) + (if s in path then 1 else 0), 2
  {
    if s == t {
      var path' := path + [s];
      assert r == PathCost(path', c0);
      assert r.names[|path|..] == [s];
    } else if s in g {
      SoundStep(g, s, t, c0, path, r);
    }
  }

  /** Soundness one level down: `r` comes from one neighbour entry of `s`. */
  lemma {:induction false} SoundStep(g: Adjacency, s: Name, t: Name, c0: int, path: seq<Name>, r: PathCost)
    requires s != t && s in g && r in PathsFrom(g, s, t, c0, path)
    ensures ExtendsPath(g, s, t, c0, path, r)
    decreases Unvisited(g, path) + (if s in path then 1 else 0), 1
  {
    var path' := path + [s];
    var k := SourceEntry(g, s, t, c0, path, path', r);
    SoundFrom(g, s, t, c0, path, path', k, g[s][k].0, c0 + g[s][k].1, r);
  }

  /** The neighbour entry of `s` through which a returned path `r` was found. */
  lemma SourceEntry(g: Adjacency, s: Name, t: Name, c0: int, path: seq<Name>, path': seq<Name>, r: PathCost)
    returns (k: nat)
    requires s != t && s in g && path' == path + [s] && r in PathsFrom(g, s, t, c0, path)
    ensures k < |g[s]| && g[s][k].0 !in path' && r in PathsFrom(g, g[s][k].0, t, c0 + g[s][k].1, path')
  {
    var found := Explore(g, g[s], t, c0, path');
    PathsFromStep(g, s, t, c0, path, path', found);
    SortDescMembers(found, CostOf);
    k := ExploreSource(g, g[s], t, c0, path', r);
  }

  /** Soundness through the neighbour entry `g[s][k]`, named `n`, searched
      after `path'` at cost `cw`. */
  lemma {:induction false} SoundFrom(g: Adjacency, s: Name, t: Name, c0: int, path: seq<Name>, path': seq<Name>,
                                     k: nat, n: Name, cw: int, r: PathCost)
    requires s in g && k < |g[s]| && n == g[s][k].0 && cw == c0 + g[s][k].1
    requires path' == path + [s] && n !in path'
    requires r in PathsFrom(g, n, t, cw, path')
    ensures ExtendsPath(g, s, t, c0, path, r)
    decreases Unvisited(g, path) + (if s in path then 1 else 0), 0
  {
    UnvisitedStep(g, s, path);
    PathsFromSound(g, n, t, cw, path', r);
    ExtendsPathStep(g, s, t, c0, path, path', k, n, cw, r);
  }

  /** The rest of a walk that repeats no name and avoids `path` after its
      first name avoids `path` extended by that first name. */
  lemma TailAvoids(q: seq<Name>, path: seq<Name>)
    requires |q| >= 2 && Distinct(q)
    requires forall i :: 0 < i < |q| ==> q[i] !in path
    ensures Distinct(q[1..])
    ensures forall i :: 0 < i < |q[1..]| ==> q[1..][i] !in path + [q[0]]
    ensures q[1] !in path + [q[0]]
  {
    forall i | 0 < i < |q[1..]| ensures q[1..][i] !in path + [q[0]] {
      assert q[1..][i] == q[i + 1];
      assert q[i + 1] != q[0];
    }
    assert q[1] != q[0];
  }

  /** Completeness: every walk from the source to the target that repeats no
      name and avoids `path` after its first name is returned, extending `path`. */
  lemma {:induction false} PathsFromComplete(g: Adjacency, s: Name, t: Name, c0: int, path: seq<Name>,
                                             q: seq<Name>, c: int)
    requires |q| >= 1 && q[0] == s && q[|q| - 1] == t
    requires WeightedWalk(g, q, c0, c)
    requires Distinct(q)
    requires forall i :: 0 < i < |q| ==> q[i] !in path
    ensures PathCost(path + q, c) in PathsFrom(g, s, t, c0, path)
    decreases |q|, 2
  {
    if |q| == 1 {
      assert q == [s];
    } else {
      CompleteStep(g, s, t, c0, path, q, c);
    }
  }

  /** Completeness for a walk of two names or more: it leaves `s` by some
      entry `g[s][k]` towards its second name. */
  lemma {:induction false} CompleteStep(g: Adjacency, s: Name, t: Name, c0: int, path: seq<Name>,
                                        q: seq<Name>, c: int)
    requires |q| >= 2 && q[0] == s && q[|q| - 1] == t
    requires WeightedWalk(g, q, c0, c)
    requires Distinct(q)
    requires forall i :: 0 < i < |q| ==> q[i] !in path
    ensures PathCost(path + q, c) in PathsFrom(g, s, t, c0, path)
    decreases |q|, 1
  {
    assert s != t;
    assert s in g;
    var k :| 0 <= k < |g[s]| && g[s][k].0 == q[1] && WeightedWalk(g, q[1..], c0 + g[s][k].1, c);
    TailAvoids(q, path);
    CompleteFrom(g, s, t, c0, path, path + [s], q, q[1..], k, q[1], c0 + g[s][k].1, c);
  }

  /** Completeness through the entry `g[s][k]`, named `n`: the rest `q'` of
      the walk is found after `path'` at cost `cw`, and so the whole walk is
      found after `path`. */
  lemma {:induction false} CompleteFrom(g: Adjacency, s: Name, t: Name, c0: int, path: seq<Name>, path': seq<Name>,
                                        q: seq<Name>, q': seq<Name>, k: nat, n: Name, cw: int, c: int)
    requires s != t && s in g && k < |g[s]| && n == g[s][k].0 && cw == c0 + g[s][k].1
    requires path' == path + [s] && |q| >= 2 && q[0] == s && q' == q[1..] && q'[0] == n
    requires q'[|q'| - 1] == t && WeightedWalk(g, q', cw, c) && Distinct(q')
    requires forall i :: 0 < i < |q'| ==> q'[i] !in path'
    requires n !in path'
    ensures PathCost(path + q, c) in PathsFrom(g, s, t, c0, path)
    decreases |q|, 0
  {
    PathsFromComplete(g, n, t, cw, path', q', c);
    assert path' + q' == path + q;
    FoundThrough(g, s, t, c0, path, path', k, n, cw, PathCost(path + q, c));
  }

  /** A path found through the entry `g[s][k]`, named `n`, after `path'` at
      cost `cw`, is returned from `s` after `path`. */
  lemma FoundThrough(g: Adjacency, s: Name, t: Name, c0: int, path: seq<Name>, path': seq<Name>,
                     k: nat, n: Name, cw: int, r: PathCost)
    requires s != t && s in g && k < |g[s]| && n == g[s][k].0 && cw == c0 + g[s][k].1
    requires path' == path + [s] && n !in path'
    requires r in PathsFrom(g, n, t, cw, path')
    ensures r in PathsFrom(g, s, t, c0, path)
  {
    var found := Explore(g, g[s], t, c0, path');
    ExploreCollects(g, g[s], t, c0, path', k, r);
    SortDescMembers(found, CostOf);
    PathsFromStep(g, s, t, c0, path, path', found);
  }

  /** `find_paths(graph, s, t)` returns exactly the paths from `s` to `t` that
      repeat no name, each with the sum of the weights of the edges it takes
      (one entry per choice among parallel edges), heaviest first. */
  lemma PathsCharacterization(g: Adjacency, s: Name, t: Name)
    ensures SortedDesc(Paths(g, s, t), CostOf)
    ensures forall r :: r in Paths(g, s, t) <==>
              && |r.names| >= 1 && r.names[0] == s && r.names[|r.names| - 1] == t
              && WeightedWalk(g, r.names, 0, r.cost)
              && Distinct(r.names)
  {
    PathsFromSorted(g, s, t, 0, []);
    forall r ensures r in Paths(g, s, t) <==>
              && |r.names| >= 1 && r.names[0] == s && r.names[|r.names| - 1] == t
              && WeightedWalk(g, r.names, 0, r.cost)
              && Distinct(r.names)
    {
      if r in Paths(g, s, t) {
        PathsFromSound(g, s, t, 0, [], r);
        assert r.names[0..] == r.names;
      }
      if |r.names| >= 1 && r.names[0] == s && r.names[|r.names| - 1] == t &&
         WeightedWalk(g, r.names, 0, r.cost) && Distinct(r.names) {
        PathsFromComplete(g, s, t, 0, [], r.names, r.cost);
        assert [] + r.names == r.names;
      }
    }
  }

  /** At every level the result is ordered by non-increasing cost. */
  lemma PathsFromSorted(g: Adjacency, s: Name, t: Name, c0: int, path: seq<Name>)
    ensures SortedDesc(PathsFrom(g, s, t, c0, path), CostOf)
  {
    if s != t && s in g {
      SortDescProperties(Explore(g, g[s], t, c0, path + [s]), CostOf);
    }
  }

  /** Inserting an element that is not yet present keeps a sequence free of repeats. */
  lemma {:induction false} InsertDistinct<T>(x: T, s: seq<T>, key: T -> int)
    requires Distinct(s) && x !in s
    ensures Distinct(Insert(x, s, key))
  {
    if s == [] || key(s[0]) <= key(x) {
      assert Insert(x, s, key) == [x] + s;
      DistinctCons(x, s);
    } else {
      var t := Insert(x, s[1..], key);
      assert s == [s[0]] + s[1..];
      InsertDistinct(x, s[1..], key);
      InsertPermutes(x, s[1..], key);
      assert s[0] !in t by {
        assert s[0] in multiset(t) <==> s[0] in multiset(s[1..]) + multiset{x};
      }
      assert Insert(x, s, key) == [s[0]] + t;
      DistinctCons(s[0], t);
    }
  }

  /** Sorting keeps a sequence free of repeats. */
  lemma {:induction false} SortDescDistinct<T>(s: seq<T>, key: T -> int)
    requires Distinct(s)
    ensures Distinct(SortDesc(s, key))
  {
    if s != [] {
      assert s == [s[0]] + s[1..];
      SortDescDistinct(s[1..], key);
      SortDescMembers(s[1..], key);
      InsertDistinct(s[0], SortDesc(s[1..], key), key);
    }
  }

  /** No node has two edges to the same destination. */
  ghost predicate NoParallelEdges(g: Adjacency)
  {
    forall n, i, j :: n in g && 0 <= i < j < |g[n]| ==> g[n][i].0 != g[n][j].0
  }

  /** Two sequences without repeats and with no common element concatenate
      to a sequence without repeats. */
  lemma DistinctConcat<T>(a: seq<T>, b: seq<T>)
    requires Distinct(a) && Distinct(b)
    requires forall x :: x in a ==> x !in b
    ensures Distinct(a + b)
  {
    forall i, j | 0 <= i < j < |a + b| ensures (a + b)[i] != (a + b)[j] {
      if j < |a| {
        assert (a + b)[i] == a[i] && (a + b)[j] == a[j];
      } else if i >= |a| {
        assert (a + b)[i] == b[i - |a|] && (a + b)[j] == b[j - |a|];
      } else {
        assert (a + b)[i] == a[i] && (a + b)[j] == b[j - |a|];
        assert a[i] in a && a[i] !in b;
      }
    }
  }

  /** A path found from `n` after `visited` has `n` right after `visited`. */
  lemma FoundFrom(g: Adjacency, n: Name, t: Name, c: int, visited: seq<Name>, r: PathCost)
    requires r in PathsFrom(g, n, t, c, visited)
    ensures |r.names| > |visited| && r.names[|visited|] == n
  {
    PathsFromSound(g, n, t, c, visited, r);
  }

  /** Without parallel edges no path is returned twice. */
  lemma {:induction false} PathsFromDistinct(g: Adjacency, s: Name, t: Name, c: int, path: seq<Name>)
    requires NoParallelEdges(g)
    ensures Distinct(PathsFrom(g, s, t, c, path))
    decreases Unvisited(g, path) + (if s in path then 1 else 0), 0, 0
  {
    if s != t && s in g {
      UnvisitedStep(g, s, path);
      var found := Explore(g, g[s], t, c, path + [s]);
      ExploreDistinct(g, g[s], t, c, path + [s]);
      SortDescDistinct(found, CostOf);
    }
  }

  /** The neighbour loop over entries with distinct destinations collects no
      path twice: the paths through different entries differ right after
      `visited`. */
  lemma {:induction false} ExploreDistinct(g: Adjacency, nbrs: seq<(Name, int)>, t: Name, c: int, visited: seq<Name>)
    requires NoParallelEdges(g)
    requires forall i, j :: 0 <= i < j < |nbrs| ==> nbrs[i].0 != nbrs[j].0
    ensures Distinct(Explore(g, nbrs, t, c, visited))
    decreases Unvisited(g, visited), 1, |nbrs|
  {
    if nbrs != [] {
      var i := |nbrs| - 1;
      var init := nbrs[..i];
      var n, cw := nbrs[i].0, c + nbrs[i].1;
      var last := if n !in visited then PathsFrom(g, n, t, cw, visited) else [];
      ExploreStep(g, nbrs, i, n, t, c, cw, visited, last);
      assert nbrs[..i + 1] == nbrs;
      ExploreDistinct(g, init, t, c, visited);
      if n !in visited {
        PathsFromDistinct(g, n, t, cw, visited);
      }
      var before := Explore(g, init, t, c, visited);
      forall r | r in before ensures r !in last {
        var k := ExploreSource(g, init, t, c, visited, r);
        FoundFrom(g, init[k].0, t, c + init[k].1, visited, r);
        assert init[k] == nbrs[k];
        if r in last {
          FoundFrom(g, n, t, cw, visited, r);
        }
      }
      DistinctConcat(before, last);
    }
  }

  /** Without parallel edges, `find_paths` returns each path once, so its
      length is the number of paths from the source to the target that
      repeat no name. */
  lemma PathsDistinct(g: Adjacency, s: Name, t: Name)
    requires NoParallelEdges(g)
    ensures Distinct(Paths(g, s, t))
  {
    PathsFromDistinct(g, s, t, 0, []);
  }

  /** `find_paths` on the graph object: the same search, with the neighbour
      loop accumulating the recursive results before the final sort. */
  method FindPaths(graph: DirectedGraph, source: Name, target: Name, cost: int, path: seq<Name>)
    returns (paths: seq<PathCost>)
    requires graph.Valid()
    ensures paths == PathsFrom(graph.graphDict, source, target, cost, path)
    decreases Unvisited(graph.graphDict, path) + (if source in path then 1 else 0)
  {
    var path' := path + [source];
    if source == target {
      return [PathCost(path', cost)];
    }
    if !graph.IsNodeIn(source) {
      return [];
    }
    var g := graph.graphDict;
    var nbrs := graph.GetNeighbours(source);
    var found: seq<PathCost> := [];
    var i := 0;
    while i < |nbrs|
      invariant 0 <= i <= |nbrs|
      invariant found == Explore(g, nbrs[..i], target, cost, path')
    {
      var n, w := nbrs[i].0, nbrs[i].1;
      var cw := cost + w;
      var newPaths: seq<PathCost> := [];
      if n !in path' {
        UnvisitedStep(g, source, path);
        newPaths := FindPaths(graph, n, target, cw, path');
      }
      ExploreStep(g, nbrs, i, n, target, cost, cw, path', newPaths);
      found := found + newPaths;
      i := i + 1;
    }
    assert nbrs[..i] == nbrs;
    PathsFromStep(g, source, target, cost, path, path', found);
    paths := SortDesc(found, CostOf);
  }
}
