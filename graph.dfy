/** The graph store of main.py: a directed graph whose nodes are identified
    by name, with ordered, weighted adjacency lists. */
module Graphs {

  type Name = string

  /** Each node's outgoing (destination, weight) entries, in insertion order. */
  type Adjacency = map<Name, seq<(Name, int)>>

  datatype Option<T> = None | Some(value: T)

  /** The `Edge` record: origin, destination and weight. */
  datatype Edge = Edge(origin: Name, dest: Name, weight: int)

  /** What `add_edge` does: append the edge, or fail naming the unknown endpoint. */
  datatype EdgeResult = Added | UnknownNode(name: Name)

  predicate Distinct<T(==)>(s: seq<T>)
  {
    forall i, j :: 0 <= i < j < |s| ==> s[i] != s[j]
  }

  /** Store consistency: every node is a key exactly once and in the name list
      exactly once, and every edge ends at a node of the graph. */
  ghost predicate WellFormed(adj: Adjacency, order: seq<Name>)
  {
    && Distinct(order)
    && (forall n :: n in adj <==> n in order)
    && (forall n, k :: n in adj && 0 <= k < |adj[n]| ==> adj[n][k].0 in adj)
  }

  /** The `(origin, weight)` entries contributed by origin `n`'s outgoing list
      `out` to the incoming neighbours of `v`, in list order. */
  function IncomingFrom(n: Name, out: seq<(Name, int)>, v: Name): seq<(Name, int)>
  {
    if out == [] then []
    else
      var last := out[|out| - 1];
      IncomingFrom(n, out[..|out| - 1], v) + (if last.0 == v then [(n, last.1)] else [])
  }

  /** The incoming neighbours of `v`: origins scanned in `order`, and each
      origin's adjacency list scanned in order. */
  function Incoming(adj: Adjacency, order: seq<Name>, v: Name): seq<(Name, int)>
    requires forall n :: n in order ==> n in adj
  {
    if order == [] then []
    else
      var last := order[|order| - 1];
      Incoming(adj, order[..|order| - 1], v) + IncomingFrom(last, adj[last], v)
  }

  /** The scan of `out` one entry further. */
  lemma IncomingFromPrefix(n: Name, out: seq<(Name, int)>, j: nat, v: Name)
    requires j < |out|
    ensures IncomingFrom(n, out[..j + 1], v) ==
            IncomingFrom(n, out[..j], v) + if out[j].0 == v then [(n, out[j].1)] else []
  {
    assert out[..j + 1][..j] == out[..j];
  }

  /** The scan of `order` one origin further. */
  lemma IncomingPrefix(adj: Adjacency, order: seq<Name>, i: nat, v: Name)
    requires i < |order| && forall n :: n in order ==> n in adj
    ensures Incoming(adj, order[..i + 1], v) == Incoming(adj, order[..i], v) + IncomingFrom(order[i], adj[order[i]], v)
  {
    assert order[..i + 1][..i] == order[..i];
  }

  /** Number of occurrences of `x` in `s`. */
  function Occurrences<T(==)>(s: seq<T>, x: T): nat
  {
    multiset(s)[x]
  }

  lemma {:induction false} IncomingFromCount(n: Name, out: seq<(Name, int)>, v: Name, m: Name, w: int)
    ensures Occurrences(IncomingFrom(n, out, v), (m, w)) ==
            if m == n then Occurrences(out, (v, w)) else 0
  {
    if out != [] {
      var init := out[..|out| - 1];
      IncomingFromCount(n, init, v, m, w);
      assert out == init + [out[|out| - 1]];
    }
  }

  /** One incoming entry per edge into `v`, parallel edges included: the entry
      `(m, w)` occurs exactly as often as `m`'s list holds `(v, w)`, and an
      origin that is not a node contributes nothing. */
  lemma {:induction false} IncomingCount(adj: Adjacency, order: seq<Name>, v: Name, m: Name, w: int)
    requires forall n :: n in order ==> n in adj
    requires Distinct(order)
    ensures Occurrences(Incoming(adj, order, v), (m, w)) ==
            if m in order then Occurrences(adj[m], (v, w)) else 0
  {
    if order != [] {
      var init, last := order[..|order| - 1], order[|order| - 1];
      assert order == init + [last];
      IncomingCount(adj, init, v, m, w);
      IncomingFromCount(last, adj[last], v, m, w);
    }
  }

  /** Membership form of `IncomingCount`: `(m, w)` is an incoming entry of `v`
      exactly when `m` is a node holding the edge `(v, w)`. */
  lemma IncomingMembers(adj: Adjacency, order: seq<Name>, v: Name, m: Name, w: int)
    requires forall n :: n in order ==> n in adj
    requires Distinct(order)
    ensures (m, w) in Incoming(adj, order, v) <==> m in order && (v, w) in adj[m]
  {
    IncomingCount(adj, order, v, m, w);
    assert (m, w) in Incoming(adj, order, v) <==> (m, w) in multiset(Incoming(adj, order, v));
    if m in order {
      assert (v, w) in adj[m] <==> (v, w) in multiset(adj[m]);
    }
  }

  /** The `Directed_Graph` class: `graphDict` maps each node to its adjacency
      list and `nodes` lists the node names in insertion order. Python's dict
      keeps insertion order, so a scan over `graphDict` visits `nodes` in order. */
  class DirectedGraph {
    var graphDict: Adjacency
    var nodes: seq<Name>

    ghost predicate Valid()
      reads this
    {
      WellFormed(graphDict, nodes)
    }

    /** An empty graph. */
    constructor ()
      ensures Valid()
      ensures graphDict == map[] && nodes == []
    {
      graphDict := map[];
      nodes := [];
    }

    /** Adds a node with no edges; a node already present leaves the graph
        as it was and is reported by returning false. */
    method AddNode(name: Name) returns (added: bool)
      requires Valid()
      modifies this
      ensures Valid()
      ensures added <==> name !in old(graphDict)
      ensures added ==> graphDict == old(graphDict)[name := []] && nodes == old(nodes) + [name]
      ensures !added ==> graphDict == old(graphDict) && nodes == old(nodes)
    {
      if name in graphDict {
        return false;
      }
      graphDict := graphDict[name := []];
      nodes := nodes + [name];
      added := true;
    }

    /** Appends `(dest, weight)` to the origin's list; an unknown origin (checked
        first) or destination fails and leaves the graph unchanged. */
    method AddEdge(e: Edge) returns (r: EdgeResult)
      requires Valid()
      modifies this
      ensures Valid()
      ensures nodes == old(nodes)
      ensures e.origin !in old(graphDict) ==>
                r == UnknownNode(e.origin) && graphDict == old(graphDict)
      ensures e.origin in old(graphDict) && e.dest !in old(graphDict) ==>
                r == UnknownNode(e.dest) && graphDict == old(graphDict)
      ensures e.origin in old(graphDict) && e.dest in old(graphDict) ==>
                r == Added &&
                graphDict == old(graphDict)[e.origin := old(graphDict)[e.origin] + [(e.dest, e.weight)]]
    {
      if e.origin !in graphDict {
        return UnknownNode(e.origin);
      }
      if e.dest !in graphDict {
        return UnknownNode(e.dest);
      }
      graphDict := graphDict[e.origin := graphDict[e.origin] + [(e.dest, e.weight)]];
      r := Added;
    }

    /** Membership in the store agrees with membership in the name list. */
    predicate IsNodeIn(name: Name)
      reads this
      requires Valid()
      ensures IsNodeIn(name) <==> name in nodes
    {
      name in graphDict
    }

    /** Scans the nodes in insertion order for the first one with this name. */
    method GetNode(name: Name) returns (r: Option<Name>)
      requires Valid()
      ensures r.Some? <==> name in graphDict
      ensures r.Some? ==> r.value == name && r.value in nodes
    {
      var i := 0;
      while i < |nodes|
        invariant 0 <= i <= |nodes|
        invariant name !in nodes[..i]
      {
        if nodes[i] == name {
          return Some(nodes[i]);
        }
        i := i + 1;
      }
      assert nodes[..i] == nodes;
      r := None;
    }

    /** The node names in insertion order: exactly the nodes of the store. */
    function GetAllNodes(): (r: seq<Name>)
      reads this
      requires Valid()
      ensures Distinct(r)
      ensures forall n :: n in r <==> n in graphDict
    {
      nodes
    }

    /** The outgoing `(destination, weight)` entries of a node, all of whose
        destinations are nodes; an absent node has none. */
    function GetNeighbours(name: Name): (r: seq<(Name, int)>)
      reads this
      requires Valid()
      ensures name !in graphDict ==> r == []
      ensures forall k :: 0 <= k < |r| ==> r[k].0 in nodes
    {
      if name !in graphDict then [] else graphDict[name]
    }

    /** Collects, by a scan over every node's list, one `(origin, weight)`
        entry per edge ending at `name`; an absent node has none. */
    method GetIncomingNeighbours(name: Name) returns (incoming: seq<(Name, int)>)
      requires Valid()
      ensures name !in graphDict ==> incoming == []
      ensures name in graphDict ==> incoming == Incoming(graphDict, nodes, name)
    {
      if name !in graphDict {
        return [];
      }
      incoming := [];
      var i := 0;
      while i < |nodes|
        invariant 0 <= i <= |nodes|
        invariant incoming == Incoming(graphDict, nodes[..i], name)
      {
        var n := nodes[i];
        var out := graphDict[n];
        ghost var before := incoming;
        var j := 0;
        while j < |out|
          invariant 0 <= j <= |out|
          invariant incoming == before + IncomingFrom(n, out[..j], name)
        {
          if out[j].0 == name {
            incoming := incoming + [(n, out[j].1)];
          }
          IncomingFromPrefix(n, out, j, name);
          j := j + 1;
        }
        assert out[..j] == out;
        IncomingPrefix(graphDict, nodes, i, name);
        i := i + 1;
      }
      assert nodes[..i] == nodes;
    }
  }
}
