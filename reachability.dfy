/** The reachability augmenter of main.py: `get_most_reachable` ranks the
    nodes by the number of paths reaching them from a source, and `set_Vprime`
    inserts a node "V'" wired from every node that is neither the most
    reachable node V nor one of V's blocking neighbours. */
module Reachability {
  import opened Graphs
  import opened Sorting
  import opened PathFinding

  /** The name of the node that `set_Vprime` inserts. */
  const VPrime: Name := "V'"

  /** How `set_Vprime` ends. `Inserted` and `GoalUnmet` both leave the new
      node and its edges in the graph; `GoalUnmet` is the raise at the end of
      `set_Vprime`, `NoNodes` the `IndexError` that `get_most_reachable` hits
      on an empty graph. The raise for an empty safe list has no case: the new
      node is always on that list (see `AugmentShape`). */
  datatype Augmentation =
    | Inserted(count: nat, edges: seq<Edge>)
    | GoalUnmet(count: nat, countV: nat)
    | AlreadyPresent
    | NoNodes

  function CountOf(entry: (Name, nat)): int
  {
    entry.1
  }

  /** Each name of `order`, with the number of paths from `source` to it. */
  function PathCounts(g: Adjacency, order: seq<Name>, source: Name): (r: seq<(Name, nat)>)
    ensures |r| == |order|
    ensures forall i :: 0 <= i < |order| ==> r[i] == (order[i], |Paths(g, source, order[i])|)
  {
    if order == [] then []
    else
      var last := order[|order| - 1];
      PathCounts(g, order[..|order| - 1], source) + [(last, |Paths(g, source, last)|)]
  }

  /** `get_most_reachable`: the head of the counts sorted stably by count,
      largest first; nothing when there are no nodes. */
  function MostReachableOf(g: Adjacency, order: seq<Name>, source: Name): (r: Option<(Name, nat)>)
    ensures r.None? <==> order == []
    ensures r.Some? ==> r.value.0 in order
  {
    if order == [] then None
    else
      var counts := PathCounts(g, order, source);
      SortDescMembers(counts, CountOf);
      var head := SortDesc(counts, CountOf)[0];
      assert head in counts;
      Some(head)
  }

  /** The most reachable node is a node whose count is the number of paths
      reaching it, no node is reached by more paths, and every other node
      reached by as many paths comes after it in insertion order. */
  lemma MostReachableSpec(g: Adjacency, order: seq<Name>, source: Name)
    requires order != []
    ensures var (v, k) := MostReachableOf(g, order, source).value;
            && v in order
            && k == |Paths(g, source, v)|
            && (forall u :: u in order ==> |Paths(g, source, u)| <= k)
            && (forall j :: 0 <= j < |order| && order[j] != v && |Paths(g, source, order[j])| == k ==>
                  v in order[..j])
  {
    var counts := PathCounts(g, order, source);
    SortDescHead(counts, CountOf);
    var m := FirstMaxIndex(counts, CountOf);
    assert MostReachableOf(g, order, source).value == counts[m];
    forall u | u in order ensures |Paths(g, source, u)| <= counts[m].1 {
      var j :| 0 <= j < |order| && order[j] == u;
      assert CountOf(counts[j]) <= CountOf(counts[m]);
    }
    forall j | 0 <= j < |order| && order[j] != order[m] && |Paths(g, source, order[j])| == counts[m].1
      ensures order[m] in order[..j]
    {
      assert !(CountOf(counts[j]) < CountOf(counts[m]));
      assert order[..j][m] == order[m];
    }
  }

  /** `get_most_reachable(source, graph)`: one path count per node in
      insertion order, then the head of the stable descending sort. */
  method MostReachable(graph: DirectedGraph, source: Name) returns (r: Option<(Name, nat)>)
    requires graph.Valid()
    ensures r == MostReachableOf(graph.graphDict, graph.nodes, source)
  {
    var all := graph.GetAllNodes();
    var counts: seq<(Name, nat)> := [];
    for i := 0 to |all|
      invariant counts == PathCounts(graph.graphDict, all[..i], source)
    {
      var node := graph.GetNode(all[i]);
      var found := FindPaths(graph, source, node.value, 0, []);
      counts := counts + [(all[i], |found|)];
      assert all[..i + 1][..i] == all[..i];
    }
    assert all[..|all|] == all;
    if counts == [] {
      return None;
    }
    SortDescMembers(counts, CountOf);
    r := Some(SortDesc(counts, CountOf)[0]);
  }

  /** The names of the first components of `entries`. */
  function Names(entries: seq<(Name, int)>): set<Name>
  {
    set k | 0 <= k < |entries| :: entries[k].0
  }

  /** The names `set_Vprime` keeps away from "V'": the out-neighbours of `v`,
      or its in-neighbours when it has no out-neighbours. */
  function Blocking(g: Adjacency, order: seq<Name>, v: Name): set<Name>
    requires v in g
    requires forall n :: n in order ==> n in g
  {
    if Names(g[v]) != {} then Names(g[v]) else Names(Incoming(g, order, v))
  }

  /** The names of `order`, in order, that are neither `v` nor blocked. */
  function SafeNames(order: seq<Name>, v: Name, blocking: set<Name>): seq<Name>
  {
    if order == [] then []
    else
      var last := order[|order| - 1];
      SafeNames(order[..|order| - 1], v, blocking) + (if last != v && last !in blocking then [last] else [])
  }

  lemma {:induction false} SafeNamesMembers(order: seq<Name>, v: Name, blocking: set<Name>)
    ensures forall n :: n in SafeNames(order, v, blocking) <==> n in order && n != v && n !in blocking
    ensures Distinct(order) ==> Distinct(SafeNames(order, v, blocking))
  {
    if order != [] {
      var init := order[..|order| - 1];
      SafeNamesMembers(init, v, blocking);
      assert order == init + [order[|order| - 1]];
    }
  }

  lemma SafeNamesSnoc(init: seq<Name>, x: Name, v: Name, blocking: set<Name>)
    ensures SafeNames(init + [x], v, blocking) ==
            SafeNames(init, v, blocking) + (if x != v && x !in blocking then [x] else [])
  {
    assert (init + [x])[..|init|] == init;
  }

  /** The safe names keep the order of the name list: the `k`-th safe name
      is `order[idx[k]]`, and the positions `idx` strictly increase. */
  lemma {:induction false} SafeNamesOrder(order: seq<Name>, v: Name, blocking: set<Name>) returns (idx: seq<nat>)
    ensures |idx| == |SafeNames(order, v, blocking)|
    ensures forall k :: 0 <= k < |idx| ==> idx[k] < |order| && order[idx[k]] == SafeNames(order, v, blocking)[k]
    ensures forall k, l :: 0 <= k < l < |idx| ==> idx[k] < idx[l]
  {
    if order == [] {
      idx := [];
    } else {
      var init, last := order[..|order| - 1], order[|order| - 1];
      assert order == init + [last];
      var prev := SafeNamesOrder(init, v, blocking);
      SafeNamesSnoc(init, last, v, blocking);
      if last != v && last !in blocking {
        idx := prev + [|order| - 1];
      } else {
        idx := prev;
      }
    }
  }

  /** Appends the edge `(target, 1)` to the list of every name in `from`, in order. */
  function WireInto(g: Adjacency, from: seq<Name>, target: Name): (r: Adjacency)
    requires forall n :: n in from ==> n in g
    ensures r.Keys == g.Keys
  {
    if from == [] then g
    else
      var last := from[|from| - 1];
      var w := WireInto(g, from[..|from| - 1], target);
      w[last := w[last] + [(target, 1)]]
  }

  /** Wiring a list of distinct names adds exactly one edge to each of them
      and touches no other node. */
  lemma {:induction false} WireIntoAt(g: Adjacency, from: seq<Name>, target: Name, n: Name)
    requires forall m :: m in from ==> m in g
    requires Distinct(from)
    requires n in g
    ensures WireInto(g, from, target)[n] == if n in from then g[n] + [(target, 1)] else g[n]
  {
    if from != [] {
      var init := from[..|from| - 1];
      WireIntoAt(g, init, target, n);
      assert from == init + [from[|from| - 1]];
    }
  }

  /** The edges `(n, 1, target)` reported for the wired names, in order. */
  function WiredEdges(from: seq<Name>, target: Name): (r: seq<Edge>)
    ensures |r| == |from|
    ensures forall i :: 0 <= i < |from| ==> r[i] == Edge(from[i], target, 1)
  {
    if from == [] then [] else WiredEdges(from[..|from| - 1], target) + [Edge(from[|from| - 1], target, 1)]
  }

  /** The graph after "V'" is added and wired from the safe names, which are
      taken from the name list after "V'" was appended to it. */
  function Augmented(g: Adjacency, order: seq<Name>, v: Name): Adjacency
    requires WellFormed(g, order) && v in g
  {
    var safe := SafeNames(order + [VPrime], v, Blocking(g, order, v));
    SafeNamesMembers(order + [VPrime], v, Blocking(g, order, v));
    WireInto(g[VPrime := []], safe, VPrime)
  }

  /** `set_Vprime` as a function of the graph before the call: the graph
      after it (adjacency and name list) and how it ends. */
  function AugmentOf(g: Adjacency, order: seq<Name>, source: Name): (Adjacency, seq<Name>, Augmentation)
    requires WellFormed(g, order)
  {
    match MostReachableOf(g, order, source)
    case None => (g, order, NoNodes)
    case Some(most) =>
      if VPrime in g then (g, order, AlreadyPresent)
      else
        var v, countV := most.0, most.1;
        var safe := SafeNames(order + [VPrime], v, Blocking(g, order, v));
        var g' := Augmented(g, order, v);
        var count := |Paths(g', source, VPrime)|;
        (g', order + [VPrime],
         if count > countV then Inserted(count, WiredEdges(safe, VPrime)) else GoalUnmet(count, countV))
  }

  /** Blocked names are nodes of the graph. */
  lemma BlockingInGraph(g: Adjacency, order: seq<Name>, v: Name)
    requires WellFormed(g, order) && v in g
    ensures forall n :: n in Blocking(g, order, v) ==> n in g
  {
    forall n | n in Blocking(g, order, v) ensures n in g {
      if Names(g[v]) != {} {
        var k :| 0 <= k < |g[v]| && g[v][k].0 == n;
      } else {
        var inc := Incoming(g, order, v);
        var k :| 0 <= k < |inc| && inc[k].0 == n;
        IncomingMembers(g, order, v, inc[k].0, inc[k].1);
      }
    }
  }

  /** Adding a fresh node keeps the store consistent. */
  lemma AddFreshNode(g: Adjacency, order: seq<Name>, x: Name)
    requires WellFormed(g, order) && x !in g
    ensures WellFormed(g[x := []], order + [x])
  {
    var order' := order + [x];
    assert forall i :: 0 <= i < |order| ==> order'[i] == order[i] && order[i] in g;
  }

  /** Wiring distinct nodes into a node of the graph keeps the store consistent. */
  lemma WireIntoWellFormed(g: Adjacency, order: seq<Name>, from: seq<Name>, target: Name)
    requires WellFormed(g, order) && target in g
    requires Distinct(from) && forall n :: n in from ==> n in g
    ensures WellFormed(WireInto(g, from, target), order)
  {
    var g': Adjacency := WireInto(g, from, target);
    forall n, k | n in g' && 0 <= k < |g'[n]| ensures g'[n][k].0 in g' {
      WireIntoAt(g, from, target, n);
      if !(n in from && k == |g'[n]| - 1) {
        assert g'[n][k] == g[n][k];
      }
    }
  }

  /** The safe names read after "V'" joined the name list are distinct, and
      they are exactly the nodes, "V'" included, that are neither `v` nor
      blocked; so "V'" is one of them and the safe list is never empty. */
  lemma SafeNamesAugmented(g: Adjacency, order: seq<Name>, v: Name)
    requires WellFormed(g, order) && v in g && VPrime !in g
    ensures var safe := SafeNames(order + [VPrime], v, Blocking(g, order, v));
            && Distinct(safe)
            && (forall n :: n in safe <==> (n in g || n == VPrime) && n != v && n !in Blocking(g, order, v))
            && VPrime in safe
  {
    BlockingInGraph(g, order, v);
    AddFreshNode(g, order, VPrime);
    SafeNamesMembers(order + [VPrime], v, Blocking(g, order, v));
  }

  /** The shape of the augmented graph: "V'" is a new node whose only edge is
      a self-loop (it is on its own safe list, so the safe list is never
      empty), every other node that is neither `v` nor blocked gains exactly
      one edge into "V'" at the end of its list, and nothing else changes. */
  lemma AugmentShape(g: Adjacency, order: seq<Name>, v: Name)
    requires WellFormed(g, order) && v in g && VPrime !in g
    ensures VPrime in SafeNames(order + [VPrime], v, Blocking(g, order, v))
    ensures WellFormed(Augmented(g, order, v), order + [VPrime])
    ensures Augmented(g, order, v).Keys == g.Keys + {VPrime}
    ensures Augmented(g, order, v)[VPrime] == [(VPrime, 1)]
    ensures forall n :: n in g ==>
              Augmented(g, order, v)[n] ==
                if n != v && n !in Blocking(g, order, v) then g[n] + [(VPrime, 1)] else g[n]
  {
    var order' := order + [VPrime];
    var blocking := Blocking(g, order, v);
    SafeNamesAugmented(g, order, v);
    AddFreshNode(g, order, VPrime);
    var safe := SafeNames(order', v, blocking);
    var g1 := g[VPrime := []];
    WireIntoWellFormed(g1, order', safe, VPrime);
    forall n | n in g1 ensures WireInto(g1, safe, VPrime)[n] == if n in safe then g1[n] + [(VPrime, 1)] else g1[n] {
      WireIntoAt(g1, safe, VPrime, n);
    }
  }

  /** One node's list in the augmented graph, given the blocking set. */
  lemma AugmentedEntry(g: Adjacency, order: seq<Name>, v: Name, blocking: set<Name>, n: Name)
    requires WellFormed(g, order) && v in g && VPrime !in g
    requires blocking == Blocking(g, order, v)
    ensures Augmented(g, order, v).Keys == g.Keys + {VPrime}
    ensures n in g ==>
              Augmented(g, order, v)[n] == if n != v && n !in blocking then g[n] + [(VPrime, 1)] else g[n]
    ensures n == VPrime ==> Augmented(g, order, v)[n] == [(VPrime, 1)]
  {
    AugmentShape(g, order, v);
  }

  /** How `set_Vprime` ends on a graph that has nodes and no "V'": "V'" is
      reported as inserted exactly when more paths reach it than reach the
      most reachable node, with one reported edge per safe name; otherwise the
      goal is unmet, and in both cases the graph keeps the new node and edges. */
  lemma AugmentOutcome(g: Adjacency, order: seq<Name>, source: Name)
    requires WellFormed(g, order) && order != [] && VPrime !in g
    ensures var (v, countV) := MostReachableOf(g, order, source).value;
            var (g', order', r) := AugmentOf(g, order, source);
            var safe := SafeNames(order + [VPrime], v, Blocking(g, order, v));
            && order' == order + [VPrime]
            && g' == Augmented(g, order, v)
            && (r.Inserted? || r.GoalUnmet?)
            && r.count == |Paths(g', source, VPrime)|
            && (r.Inserted? <==> r.count > countV)
            && (r.GoalUnmet? ==> r.countV == countV)
            && (r.Inserted? ==>
                  && |r.edges| == |safe|
                  && (forall e :: e in r.edges <==> e.origin in safe && e.dest == VPrime && e.weight == 1))
  {
    var (v, countV) := MostReachableOf(g, order, source).value;
    MostReachableSpec(g, order, source);
    var safe := SafeNames(order + [VPrime], v, Blocking(g, order, v));
    var edges := WiredEdges(safe, VPrime);
    forall e ensures e in edges <==> e.origin in safe && e.dest == VPrime && e.weight == 1 {
      if e.origin in safe && e.dest == VPrime && e.weight == 1 {
        var i :| 0 <= i < |safe| && safe[i] == e.origin;
        assert edges[i] == e;
      }
    }
  }

  lemma AugmentOfInserts(g: Adjacency, order: seq<Name>, source: Name, v: Name, countV: nat)
    requires WellFormed(g, order) && VPrime !in g
    requires MostReachableOf(g, order, source) == Some((v, countV))
    ensures var g' := Augmented(g, order, v);
            var count := |Paths(g', source, VPrime)|;
            var safe := SafeNames(order + [VPrime], v, Blocking(g, order, v));
            AugmentOf(g, order, source) ==
              (g', order + [VPrime],
               if count > countV then Inserted(count, WiredEdges(safe, VPrime)) else GoalUnmet(count, countV))
  {
  }

  /** The loop of `set_Vprime` that adds the edge `(n, 1, target)` for
      every name `n` of `from`, in order. */
  method WireNodes(graph: DirectedGraph, from: seq<Name>, target: Name)
    requires graph.Valid()
    requires target in graph.graphDict
    requires forall n :: n in from ==> n in graph.graphDict
    modifies graph
    ensures graph.Valid()
    ensures graph.nodes == old(graph.nodes)
    ensures graph.graphDict == WireInto(old(graph.graphDict), from, target)
  {
    ghost var g := graph.graphDict;
    for i := 0 to |from|
      invariant graph.Valid()
      invariant graph.nodes == old(graph.nodes)
      invariant graph.graphDict == WireInto(g, from[..i], target)
    {
      assert from[i] in from;
      var _ := graph.AddEdge(Edge(from[i], target, 1));
      assert from[..i + 1][..i] == from[..i];
    }
    assert from[..|from|] == from;
  }

  /** `set_Vprime(graph, source)`. The check for an existing "V'" is by name
      here; see the README for how the source's check differs. */
  method SetVprime(graph: DirectedGraph, source: Name) returns (r: Augmentation)
    requires graph.Valid()
    modifies graph
    ensures graph.Valid()
    ensures (graph.graphDict, graph.nodes, r) == AugmentOf(old(graph.graphDict), old(graph.nodes), source)
  {
    ghost var g0, order0 := graph.graphDict, graph.nodes;
    var most := MostReachable(graph, source);
    if most.None? {
      assert AugmentOf(g0, order0, source) == (g0, order0, NoNodes);
      return NoNodes;
    }
    var v, countV := most.value.0, most.value.1;
    var vNode := graph.GetNode(v);
    var blocking := Names(graph.GetNeighbours(vNode.value));
    if blocking == {} {
      var incoming := graph.GetIncomingNeighbours(vNode.value);
      blocking := Names(incoming);
    }
    assert blocking == Blocking(g0, order0, v);
    if graph.IsNodeIn(VPrime) {
      assert AugmentOf(g0, order0, source) == (g0, order0, AlreadyPresent);
      return AlreadyPresent;
    }
    AugmentShape(g0, order0, v);
    var _ := graph.AddNode(VPrime);
    var safe := SafeNames(graph.GetAllNodes(), v, blocking);
    assert safe == SafeNames(order0 + [VPrime], v, Blocking(g0, order0, v));
    // The raise for an empty safe list cannot happen: "V'" itself is safe.
    assert VPrime in safe;
    SafeNamesMembers(graph.nodes, v, blocking);
    WireNodes(graph, safe, VPrime);
    assert graph.graphDict == Augmented(g0, order0, v);
    var paths := FindPaths(graph, source, VPrime, 0, []);
    var count := |paths|;
    assert count == |Paths(Augmented(g0, order0, v), source, VPrime)|;
    assert MostReachableOf(g0, order0, source) == Some((v, countV));
    AugmentOfInserts(g0, order0, source, v, countV);
    if count > countV {
      r := Inserted(count, WiredEdges(safe, VPrime));
    } else {
      r := GoalUnmet(count, countV);
    }
    assert AugmentOf(g0, order0, source) == (graph.graphDict, graph.nodes, r);
  }
}
