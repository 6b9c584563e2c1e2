/** The networkx primitives whose internals lie outside this model, taken as
    function parameters. Each validity predicate states only what the
    strategies rely on. */
module Oracles {
  import opened Basics
  import opened Paths

  /** `nx.shortest_path(G, s, t)` over the edge set E: when t is reachable, a
      path from s to t with no fewer nodes than any other such path. */
  ghost predicate ValidShortestPath(sp: (set<Edge>, Node, Node) -> seq<Node>) {
    forall E, s, t :: Reaches(E, s, t) ==>
      && IsPathFromTo(E, sp(E, s, t), s, t)
      && (forall q :: IsPathFromTo(E, q, s, t) ==> |sp(E, s, t)| <= |q|)
  }

  /** `nx.minimum_edge_cut(G, s, t)` for s != t, iterated in some order: a
      duplicate-free list of edges of E whose removal leaves t unreachable
      from s; empty when t is unreachable already, as the flow is then zero
      and no unit-capacity edge is saturated. */
  ghost predicate ValidMinEdgeCut(cut: (set<Edge>, Node, Node) -> seq<Edge>) {
    forall E, s, t :: s != t ==>
      && Distinct(cut(E, s, t))
      && SetOf(cut(E, s, t)) <= E
      && !Reaches(E - SetOf(cut(E, s, t)), s, t)
      && (!Reaches(E, s, t) ==> cut(E, s, t) == [])
  }

  /** The partition (S, T) returned by `nx.minimum_cut(G, s, t)` for distinct
      nodes s and t of a graph with node set N: disjoint sides covering N,
      s on side S and t on side T. When t is unreachable the flow is zero and
      T is the set of nodes that reach t along unsaturated edges; with
      positive capacities that is every node reaching t, so no edge runs
      from S into T. */
  ghost predicate ValidCutPartition(part: (set<Node>, set<Edge>, Node, Node) -> (set<Node>, set<Node>)) {
    forall N, E, s, t :: s in N && t in N && s != t ==>
      var (S, T) := part(N, E, s, t);
      && s in S && t in T && S !! T && S + T == N
      && (!Reaches(E, s, t) ==> forall e: Edge :: e in E ==> !(e.0 in S && e.1 in T))
  }

  /** Cost-weighted `nx.shortest_path_length(G, s, t, weight="cost")`
      (Dijkstra) under non-negative weights w: for a reachable t, the least
      total weight of a path from s to t. */
  ghost predicate ValidDistance(dist: (set<Edge>, Edge -> int, Node, Node) -> int) {
    forall E: set<Edge>, w: Edge -> int, s: Node, t: Node ::
      Reaches(E, s, t) && (forall e :: e in E ==> w(e) >= 0) ==>
      IsMinCost(E, w, s, t, dist(E, w, s, t))
  }

  /** What a strategy learns from the cut of two distinct nodes. */
  lemma MinEdgeCutFacts(cut: (set<Edge>, Node, Node) -> seq<Edge>, E: set<Edge>, s: Node, t: Node)
    requires ValidMinEdgeCut(cut) && s != t
    ensures Distinct(cut(E, s, t)) && SetOf(cut(E, s, t)) <= E
    ensures !Reaches(E - SetOf(cut(E, s, t)), s, t)
    ensures !Reaches(E, s, t) ==> cut(E, s, t) == []
  {
  }

  /** The shortest path of a node to itself is the node alone. */
  lemma ShortestPathToSelf(sp: (set<Edge>, Node, Node) -> seq<Node>, E: set<Edge>, s: Node)
    requires ValidShortestPath(sp)
    ensures sp(E, s, s) == [s]
  {
    assert IsPathFromTo(E, [s], s, s);
    var p := sp(E, s, s);
    assert |p| <= 1;
  }

  /** What a strategy learns from a shortest path of a reachable pair: it is
      a path of E from s to t, each step is an edge of E, and it has a second
      node exactly when s and t differ. */
  lemma ShortestPathFacts(sp: (set<Edge>, Node, Node) -> seq<Node>, E: set<Edge>, s: Node, t: Node)
    requires ValidShortestPath(sp) && Reaches(E, s, t)
    ensures IsPathFromTo(E, sp(E, s, t), s, t)
    ensures forall i :: 0 <= i < |sp(E, s, t)| - 1 ==> (sp(E, s, t)[i], sp(E, s, t)[i + 1]) in E
    ensures |sp(E, s, t)| >= 2 <==> s != t
  {
    if s == t {
      ShortestPathToSelf(sp, E, s);
    }
  }
}
