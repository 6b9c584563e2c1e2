/** The networkx `DiGraph` the strategies run on: nodes in insertion order,
    edges in the order `G.edges()` yields them (grouped by source node, in
    the order the sources were inserted), and each edge's attribute record. */
module Graphs {
  import opened Basics

  /** The attributes an edge carries; a missing key is None. */
  datatype EdgeData = EdgeData(capacity: Option<int>, cost: Option<int>)

  /** `d.get("cost", 1)`. */
  function CostOf(d: EdgeData): (c: int)
    ensures d.cost.Some? ==> c == d.cost.value
    ensures d.cost.None? ==> c == 1
  {
    match d.cost
    case Some(c) => c
    case None => 1
  }

  /** Position of n in the node order; |nodes| when absent. */
  function Rank(nodes: seq<Node>, n: Node): (r: nat)
    ensures r <= |nodes|
    ensures r < |nodes| <==> n in nodes
    ensures r < |nodes| ==> nodes[r] == n
  {
    if nodes == [] then 0
    else if nodes[0] == n then 0
    else 1 + Rank(nodes[1..], n)
  }

  /** A new edge goes behind the last edge whose source was inserted no later
      than its own source: the end of its source's adjacency list. */
  function InsertInGroup(es: seq<Edge>, nodes: seq<Node>, e: Edge): (r: seq<Edge>)
    ensures forall x :: x in r <==> x in es || x == e
    ensures |r| == |es| + 1
    ensures Distinct(es) && e !in es ==> Distinct(r)
  {
    if es == [] || Rank(nodes, es[|es| - 1].0) <= Rank(nodes, e.0) then
      es + [e]
    else
      var init, last := es[..|es| - 1], es[|es| - 1];
      var r' := InsertInGroup(init, nodes, e);
      assert es == init + [last];
      assert Distinct(es) && e !in es ==> Distinct(r' + [last]) by {
        if Distinct(es) && e !in es {
          DistinctSnoc(r', last);
        }
      }
      r' + [last]
  }

  /** One edge record of the JSON graph description: `src`, `dst` and the
      optional `capacity` and `cost` keys. */
  datatype JsonEdge = JsonEdge(src: Node, dst: Node, capacity: Option<int>, cost: Option<int>)

  /** `e.get(key, 1)`. */
  function OrOne(x: Option<int>): (r: int)
    ensures x.Some? ==> r == x.value
    ensures x.None? ==> r == 1
  {
    if x.Some? then x.value else 1
  }

  class DiGraph {
    var nodes: seq<Node>
    var edges: seq<Edge>
    var data: map<Edge, EdgeData>

    ghost predicate Valid()
      reads this
    {
      && Distinct(nodes)
      && Distinct(edges)
      && (forall e :: e in edges ==> e.0 in nodes && e.1 in nodes)
      && (forall e :: e in data <==> e in edges)
    }

    function EdgeSet(): (r: set<Edge>)
      reads this
      ensures forall e :: e in r <==> e in edges
    {
      SetOf(edges)
    }

    /** `G.has_edge(u, v)`. */
    function HasEdge(u: Node, v: Node): (b: bool)
      reads this
      ensures b <==> (u, v) in EdgeSet()
    {
      (u, v) in edges
    }

    /** The weight Dijkstra reads from an edge: its `cost`, 1 when unset. */
    function Cost(e: Edge): (c: int)
      reads this
      ensures e in data ==> c == CostOf(data[e])
      ensures e !in data ==> c == 1
    {
      if e in data then CostOf(data[e]) else 1
    }

    constructor ()
      ensures Valid()
      ensures nodes == [] && edges == [] && data == map[]
    {
      nodes, edges, data := [], [], map[];
    }

    /** `G.copy()`: a new graph with the same nodes, edges and attributes. */
    method Copy() returns (H: DiGraph)
      requires Valid()
      ensures fresh(H) && H.Valid()
      ensures H.nodes == nodes && H.edges == edges && H.data == data
    {
      H := new DiGraph();
      H.nodes, H.edges, H.data := nodes, edges, data;
    }

    /** `G.add_node(n)`: a no-op for a node already present. */
    method AddNode(n: Node)
      requires Valid()
      modifies this
      ensures Valid()
      ensures nodes == AddNew(old(nodes), n)
      ensures edges == old(edges) && data == old(data)
    {
      if n !in nodes {
        nodes := nodes + [n];
      }
    }

    /** `G.add_nodes_from(ns)`: each node not yet present is appended, in
        the order of ns. */
    method AddNodes(ns: seq<Node>)
      requires Valid()
      modifies this
      ensures Valid()
      ensures nodes == Dedup(old(nodes) + ns)
      ensures edges == old(edges) && data == old(data)
    {
      assert old(nodes) + ns[..0] == old(nodes);
      for i := 0 to |ns|
        invariant Valid()
        invariant nodes == Dedup(old(nodes) + ns[..i])
        invariant edges == old(edges) && data == old(data)
      {
        assert old(nodes) + ns[..i + 1] == (old(nodes) + ns[..i]) + [ns[i]];
        AddNode(ns[i]);
      }
      assert ns[..|ns|] == ns;
    }

    /** `G.add_edge(u, v, capacity=.., cost=..)`: adds the missing endpoints,
        appends a new edge to its source's adjacency list, and for an edge
        already present only replaces its attributes. */
    method AddEdge(u: Node, v: Node, d: EdgeData)
      requires Valid()
      modifies this
      ensures Valid()
      ensures nodes == AddNew(AddNew(old(nodes), u), v)
      ensures (u, v) in old(edges) ==> edges == old(edges)
      ensures (u, v) !in old(edges) ==> edges == InsertInGroup(old(edges), nodes, (u, v))
      ensures data == old(data)[(u, v) := d]
    {
      ghost var E0, D0 := edges, data;
      AddNode(u);
      AddNode(v);
      assert edges == E0 && data == D0 && u in nodes && v in nodes;
      if (u, v) !in edges {
        edges := InsertInGroup(edges, nodes, (u, v));
      }
      data := data[(u, v) := d];
    }

    /** `G.remove_edge(u, v)` on an edge that is present. */
    method RemoveEdge(u: Node, v: Node)
      requires Valid() && (u, v) in edges
      modifies this
      ensures Valid()
      ensures nodes == old(nodes)
      ensures edges == Without(old(edges), {(u, v)})
      ensures data == old(data) - {(u, v)}
    {
      edges := Without(edges, {(u, v)});
      data := data - {(u, v)};
    }

    /** `if G.has_edge(u, v): G.remove_edge(u, v)`. */
    method Discard(e: Edge)
      requires Valid()
      modifies this
      ensures Valid()
      ensures nodes == old(nodes)
      ensures edges == Without(old(edges), {e})
      ensures data == old(data) - {e}
    {
      if HasEdge(e.0, e.1) {
        RemoveEdge(e.0, e.1);
      } else {
        WithoutAbsent(edges, {e});
      }
    }

    /** Deletes each listed edge that exists; every node and every other edge
        stays. This is `_remove_edges` of the adapter and `remove_edges` of the
        batch runner. */
    method RemoveEdges(R: seq<Edge>)
      requires Valid()
      modifies this
      ensures Valid()
      ensures nodes == old(nodes)
      ensures edges == Without(old(edges), SetOf(R))
      ensures data == old(data) - SetOf(R)
      ensures EdgeSet() == old(EdgeSet()) - SetOf(R)
    {
      ghost var E0, D0 := edges, data;
      WithoutAbsent(edges, {});
      assert SetOf(R[..0]) == {};
      for i := 0 to |R|
        invariant Valid()
        invariant nodes == old(nodes)
        invariant edges == Without(E0, SetOf(R[..i]))
        invariant data == D0 - SetOf(R[..i])
      {
        Discard(R[i]);
        RemoveStep(E0, D0, R, i);
      }
      assert R[..|R|] == R;
    }
  }

  /** Removing R and then R' is removing R + R'. */
  lemma {:induction false} WithoutTwice(E: seq<Edge>, R: set<Edge>, R': set<Edge>)
    ensures Without(Without(E, R), R') == Without(E, R + R')
  {
    if E != [] {
      WithoutTwice(E[1..], R, R');
      assert Without(E, R) == (if E[0] in R then [] else [E[0]]) + Without(E[1..], R);
      assert Without(E, R + R') == (if E[0] in R + R' then [] else [E[0]]) + Without(E[1..], R + R');
      if E[0] !in R {
        assert Without(Without(E, R), R') ==
          (if E[0] in R' then [] else [E[0]]) + Without(Without(E[1..], R), R');
      }
    }
  }

  /** Removing one more listed edge extends the removed prefix of R. */
  lemma RemoveStep(E: seq<Edge>, D: map<Edge, EdgeData>, R: seq<Edge>, i: nat)
    requires i < |R|
    ensures Without(Without(E, SetOf(R[..i])), {R[i]}) == Without(E, SetOf(R[..i + 1]))
    ensures (D - SetOf(R[..i])) - {R[i]} == D - SetOf(R[..i + 1])
  {
    assert SetOf(R[..i + 1]) == SetOf(R[..i]) + {R[i]};
    WithoutTwice(E, SetOf(R[..i]), {R[i]});
  }

  /** Removing edges that are absent changes nothing. */
  lemma {:induction false} WithoutAbsent(E: seq<Edge>, R: set<Edge>)
    requires forall e :: e in R ==> e !in E
    ensures Without(E, R) == E
  {
    if E != [] {
      WithoutAbsent(E[1..], R);
      assert Without(E, R) == [E[0]] + Without(E[1..], R);
    }
  }

  /** `_remove_edges` is idempotent: a second pass over the same list
      removes nothing more. */
  lemma RemoveEdgesIdempotent(E: seq<Edge>, R: seq<Edge>)
    ensures Without(Without(E, SetOf(R)), SetOf(R)) == Without(E, SetOf(R))
  {
    WithoutTwice(E, SetOf(R), SetOf(R));
    assert SetOf(R) + SetOf(R) == SetOf(R);
  }

  /** The attributes a JSON edge record gives its edge. */
  function DataOf(r: JsonEdge): EdgeData {
    EdgeData(Some(OrOne(r.capacity)), Some(OrOne(r.cost)))
  }

  /** The attributes edge e ends up with after adding every record of es in
      turn: those of the last record for e, None when there is none. */
  function Attrs(es: seq<JsonEdge>, e: Edge): Option<EdgeData> {
    if es == [] then None
    else
      var last := es[|es| - 1];
      if (last.src, last.dst) == e then Some(DataOf(last)) else Attrs(es[..|es| - 1], e)
  }

  /** The nodes the records of es name, source then target, record by record. */
  function EndpointList(es: seq<JsonEdge>): (r: seq<Node>)
    ensures forall n :: n in r <==> exists i :: 0 <= i < |es| && (n == es[i].src || n == es[i].dst)
  {
    if es == [] then []
    else
      var init := es[..|es| - 1];
      assert forall i :: 0 <= i < |init| ==> init[i] == es[i];
      EndpointList(init) + [es[|es| - 1].src, es[|es| - 1].dst]
  }

  /** The edge list after adding the records of es in turn to a graph
      whose nodes were nodeList: a new edge is placed at the end of its
      source's adjacency list, a repeated one keeps its place. */
  function LoadedEdges(nodeList: seq<Node>, es: seq<JsonEdge>): seq<Edge> {
    if es == [] then []
    else
      var E, e := LoadedEdges(nodeList, es[..|es| - 1]), (es[|es| - 1].src, es[|es| - 1].dst);
      if e in E then E else InsertInGroup(E, Dedup(nodeList + EndpointList(es)), e)
  }

  /** N, E and D are the nodes, edges and attributes of the graph loaded
      from nodeList and the records es. */
  ghost predicate Loaded(nodeList: seq<Node>, es: seq<JsonEdge>, N: seq<Node>, E: seq<Edge>, D: map<Edge, EdgeData>) {
    && N == Dedup(nodeList + EndpointList(es))
    && E == LoadedEdges(nodeList, es)
    && (forall e :: e in E <==> Attrs(es, e).Some?)
    && (forall e :: e in D ==> Attrs(es, e) == Some(D[e]))
  }

  /** Adding record i, as `add_edge` does, to the graph loaded from the
      records before it gives the graph loaded from the records up to it. */
  lemma LoadStep(nodeList: seq<Node>, es: seq<JsonEdge>, i: nat, N: seq<Node>, E: seq<Edge>, D: map<Edge, EdgeData>)
    requires i < |es| && Loaded(nodeList, es[..i], N, E, D)
    requires forall e :: e in D <==> e in E
    ensures var u, v := es[i].src, es[i].dst;
      var N' := AddNew(AddNew(N, u), v);
      Loaded(nodeList, es[..i + 1], N', if (u, v) in E then E else InsertInGroup(E, N', (u, v)), D[(u, v) := DataOf(es[i])])
  {
    var u, v := es[i].src, es[i].dst;
    var N' := AddNew(AddNew(N, u), v);
    var E' := if (u, v) in E then E else InsertInGroup(E, N', (u, v));
    var D' := D[(u, v) := DataOf(es[i])];
    assert N' == Dedup(nodeList + EndpointList(es[..i + 1])) by {
      LoadNodesStep(nodeList, es, i);
    }
    assert E' == LoadedEdges(nodeList, es[..i + 1]) by {
      LoadEdgesStep(nodeList, es, i);
    }
    assert forall e :: e in E' <==> Attrs(es[..i + 1], e).Some? by {
      LoadAttrsStep(es, i);
    }
    assert forall e :: e in D' ==> Attrs(es[..i + 1], e) == Some(D'[e]) by {
      LoadAttrsStep(es, i);
    }
    assert Loaded(nodeList, es[..i + 1], N', E', D');
  }

  lemma LoadNodesStep(nodeList: seq<Node>, es: seq<JsonEdge>, i: nat)
    requires i < |es|
    ensures Dedup(nodeList + EndpointList(es[..i + 1])) ==
      AddNew(AddNew(Dedup(nodeList + EndpointList(es[..i])), es[i].src), es[i].dst)
  {
    var u, v := es[i].src, es[i].dst;
    assert es[..i + 1][..i] == es[..i];
    var P := nodeList + EndpointList(es[..i]);
    assert nodeList + EndpointList(es[..i + 1]) == (P + [u]) + [v];
    DedupSnoc(P, u);
    DedupSnoc(P + [u], v);
  }

  lemma LoadEdgesStep(nodeList: seq<Node>, es: seq<JsonEdge>, i: nat)
    requires i < |es|
    ensures var E, e := LoadedEdges(nodeList, es[..i]), (es[i].src, es[i].dst);
      LoadedEdges(nodeList, es[..i + 1]) ==
        if e in E then E else InsertInGroup(E, Dedup(nodeList + EndpointList(es[..i + 1])), e)
  {
    assert es[..i + 1][..i] == es[..i];
  }

  lemma LoadAttrsStep(es: seq<JsonEdge>, i: nat)
    requires i < |es|
    ensures forall e :: Attrs(es[..i + 1], e) == (if e == (es[i].src, es[i].dst) then Some(DataOf(es[i])) else Attrs(es[..i], e))
  {
    var s := es[..i + 1];
    assert s[..|s| - 1] == es[..i] && s[|s| - 1] == es[i];
    forall e ensures Attrs(s, e) == (if e == (es[i].src, es[i].dst) then Some(DataOf(es[i])) else Attrs(es[..i], e)) {
      assert s != [];
    }
  }

  /** `_load_graph` / `load_graph_as_nx`: every listed node is added, then every
      edge record, with `capacity` and `cost` defaulting to 1; a repeated
      edge keeps the attributes of its last record. */
  method LoadGraph(nodeList: seq<Node>, edgeList: seq<JsonEdge>) returns (G: DiGraph)
    ensures fresh(G) && G.Valid()
    ensures G.nodes == Dedup(nodeList + EndpointList(edgeList))
    ensures G.edges == LoadedEdges(nodeList, edgeList)
    ensures forall e :: e in G.EdgeSet() <==> Attrs(edgeList, e).Some?
    ensures forall e :: e in G.data ==> Attrs(edgeList, e) == Some(G.data[e])
  {
    G := new DiGraph();
    G.AddNodes(nodeList);
    assert nodeList + EndpointList(edgeList[..0]) == [] + nodeList;
    assert edgeList[..0] == [];
    for i := 0 to |edgeList|
      invariant G.Valid()
      invariant Loaded(nodeList, edgeList[..i], G.nodes, G.edges, G.data)
    {
      var r := edgeList[i];
      LoadStep(nodeList, edgeList, i, G.nodes, G.edges, G.data);
      G.AddEdge(r.src, r.dst, DataOf(r));
    }
    assert edgeList[..|edgeList|] == edgeList;
  }
}
