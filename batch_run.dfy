/** The privacy evaluation of the batch runner: after a strategy's edges are
    removed, the cheapest cost-weighted click paths from the start pages to
    the decision node through AcceptAll, Decline and AcceptSelected → Apply,
    and the four verdicts drawn from them. */
module BatchRun {
  import opened Basics
  import opened Paths
  import opened Graphs
  import opened Oracles

  /** The weight Dijkstra reads from each edge: its `cost`, 1 when unset. */
  function Weights(data: map<Edge, EdgeData>): Edge -> int {
    (e: Edge) => if e in data then CostOf(data[e]) else 1
  }

  /** Dijkstra's requirement on the graph: no edge has a negative cost. */
  predicate CostsNonNegative(data: map<Edge, EdgeData>) {
    forall e :: e in data ==> CostOf(data[e]) >= 0
  }

  /** d is the least total weight of a path from any of the starts to t. */
  ghost predicate IsMinOver(E: set<Edge>, w: Edge -> int, starts: seq<Node>, t: Node, d: int) {
    && (exists s :: s in starts && IsMinCost(E, w, s, t, d))
    && (forall s, p :: s in starts && IsPathFromTo(E, p, s, t) ==> d <= PathCost(w, p))
  }

  /** What `min_path_cost` returns once no start is missing: None when no
      start reaches t, and otherwise the least path cost over all starts. */
  ghost predicate IsMinPathCost(E: set<Edge>, w: Edge -> int, starts: seq<Node>, t: Node, r: Option<int>) {
    && (r.None? <==> forall s :: s in starts ==> !Reaches(E, s, t))
    && (r.Some? ==> IsMinOver(E, w, starts, t, r.value))
  }

  /** The least path cost over a set of starts is unique. */
  lemma MinOverUnique(E: set<Edge>, w: Edge -> int, starts: seq<Node>, t: Node, d1: int, d2: int)
    requires IsMinOver(E, w, starts, t, d1) && IsMinOver(E, w, starts, t, d2)
    ensures d1 == d2
  {
    var s1 :| s1 in starts && IsMinCost(E, w, s1, t, d1);
    var p1 :| IsPathFromTo(E, p1, s1, t) && PathCost(w, p1) == d1;
    var s2 :| s2 in starts && IsMinCost(E, w, s2, t, d2);
    var p2 :| IsPathFromTo(E, p2, s2, t) && PathCost(w, p2) == d2;
  }

  /** With non-negative weights, a start that is the target itself makes the
      least path cost 0. */
  lemma MinOverAtTarget(E: set<Edge>, w: Edge -> int, starts: seq<Node>, t: Node, d: int)
    requires forall e :: e in E ==> w(e) >= 0
    requires t in starts && IsMinOver(E, w, starts, t, d)
    ensures d == 0
  {
    assert IsPathFromTo(E, [t], t, t);
    var s :| s in starts && IsMinCost(E, w, s, t, d);
    var p :| IsPathFromTo(E, p, s, t) && PathCost(w, p) == d;
    PathCostNonNegative(E, w, p);
  }

  /** One more start: the least cost over S + [s] from that over S and the
      distance from s, if s reaches t at all. */
  lemma MinPathCostSnoc(E: set<Edge>, w: Edge -> int, S: seq<Node>, s: Node, t: Node,
                        best: Option<int>, val: Option<int>)
    requires IsMinPathCost(E, w, S, t, best)
    requires val.None? <==> !Reaches(E, s, t)
    requires val.Some? ==> IsMinCost(E, w, s, t, val.value)
    ensures IsMinPathCost(E, w, S + [s], t,
      if val.None? then best
      else if best.None? || val.value < best.value then val
      else best)
  {
    var S' := S + [s];
    assert forall x :: x in S' <==> x in S || x == s;
    var r := if val.None? then best
      else if best.None? || val.value < best.value then val
      else best;
    if r.Some? {
      var d := r.value;
      if val.Some? && r == val {
        forall x, p | x in S' && IsPathFromTo(E, p, x, t) ensures d <= PathCost(w, p) {
          if x in S {
            assert best.Some? ==> best.value <= PathCost(w, p);
          }
        }
      } else {
        var x :| x in S && IsMinCost(E, w, x, t, d);
        assert x in S';
      }
    }
    if r.None? {
      assert val.None? && best.None?;
    }
  }

  /** `min_path_cost(G, starts, target)`: every start is tried in turn, and the
      Dijkstra distance of each one that reaches the target improves the best
      value found so far. A start missing from G makes networkx raise
      `NodeNotFound`; an unreachable target is skipped. */
  method MinPathCost(G: DiGraph, starts: seq<Node>, target: Node,
                     dist: (set<Edge>, Edge -> int, Node, Node) -> int)
    returns (r: Result<Option<int>>)
    requires G.Valid() && ValidDistance(dist) && CostsNonNegative(G.data)
    ensures r.Err? <==> exists s :: s in starts && s !in G.nodes
    ensures r.Err? ==> r.error.NodeNotFound? && r.error.node in starts && r.error.node !in G.nodes
    ensures r.Ok? ==> IsMinPathCost(G.EdgeSet(), Weights(G.data), starts, target, r.value)
    ensures r.Ok? && target in starts ==> r.value == Some(0)
  {
    var E, w := G.EdgeSet(), Weights(G.data);
    assert forall e :: e in E ==> w(e) >= 0;
    var best: Option<int> := None;
    for i := 0 to |starts|
      invariant forall s :: s in starts[..i] ==> s in G.nodes
      invariant IsMinPathCost(E, w, starts[..i], target, best)
    {
      var s := starts[i];
      assert starts[..i + 1] == starts[..i] + [s];
      if s !in G.nodes {
        return Err(NodeNotFound(s));
      }
      var reach := PathExists(E, s, target);
      var val: Option<int> := None;
      if reach {
        val := Some(dist(E, w, s, target));
      }
      MinPathCostSnoc(E, w, starts[..i], s, target, best, val);
      if val.Some? && (best.None? || val.value < best.value) {
        best := val;
      }
    }
    assert starts[..|starts|] == starts;
    if target in starts {
      assert Reaches(E, target, target) by { ReachesRefl(E, target); }
      MinOverAtTarget(E, w, starts, target, best.value);
    }
    return Ok(best);
  }

  /** The report row of one strategy: the four click costs (None when the
      route does not exist) and the four verdicts. */
  datatype Metrics = Metrics(
    anyStartToTarget: Option<int>,
    acceptAll: Option<int>,
    decline: Option<int>,
    acceptSelected: Option<int>,
    acceptAllBlocked: bool,
    declineAvailable: bool,
    darkPattern: bool,
    privacyOk: bool)

  /** The verdicts of `compute_privacy_metrics`: the flow is acceptable when
      accepting everything is impossible, or when declining is possible and
      costs no more clicks than accepting everything. */
  function Assess(best: Option<int>, accAll: Option<int>, decline: Option<int>, accSel: Option<int>): (m: Metrics)
    ensures m.anyStartToTarget == best && m.acceptAll == accAll
    ensures m.decline == decline && m.acceptSelected == accSel
    ensures m.acceptAllBlocked ==> m.privacyOk
    ensures m.darkPattern ==> !m.privacyOk
    ensures m.privacyOk <==> accAll.None? || (decline.Some? && decline.value <= accAll.value)
  {
    var blocked := accAll.None?;
    var available := decline.Some?;
    var dark := accAll.Some? && decline.Some? && accAll.value < decline.value;
    Metrics(best, accAll, decline, accSel, blocked, available, dark, blocked || (available && !dark))
  }

  /** The cost of a route that reaches `via` from the starts and then follows
      the edges of tail: None exactly when some tail edge is missing or no
      start reaches `via`; otherwise the least cost to `via` plus the tail's
      weights. */
  ghost predicate IsRouteCost(E: set<Edge>, w: Edge -> int, starts: seq<Node>, via: Node,
                              tail: seq<Edge>, r: Option<int>) {
    && (r.Some? <==> SetOf(tail) <= E && exists s :: s in starts && Reaches(E, s, via))
    && (r.Some? ==> IsMinOver(E, w, starts, via, r.value - TailCost(w, tail)))
  }

  function TailCost(w: Edge -> int, tail: seq<Edge>): int {
    if tail == [] then 0 else w(tail[0]) + TailCost(w, tail[1..])
  }

  /** What `compute_privacy_metrics(d, G)` reports on a graph with node set N,
      edge set E and weights w, for the given starts and decision node t. */
  ghost predicate MetricsSpec(N: seq<Node>, E: set<Edge>, w: Edge -> int, starts: seq<Node>, t: Node, m: Metrics) {
    && IsMinPathCost(E, w, starts, t, m.anyStartToTarget)
    && IsRouteCost(E, w, starts, "AcceptAll", [("AcceptAll", t)], if "AcceptAll" in N then m.acceptAll else None)
    && ("AcceptAll" !in N ==> m.acceptAll.None?)
    && IsRouteCost(E, w, starts, "Decline", [("Decline", t)], if "Decline" in N then m.decline else None)
    && ("Decline" !in N ==> m.decline.None?)
    && IsRouteCost(E, w, starts, "AcceptSelected", [("AcceptSelected", "Apply"), ("Apply", t)], m.acceptSelected)
    && m == Assess(m.anyStartToTarget, m.acceptAll, m.decline, m.acceptSelected)
  }

  /** Routes through `via` and then along tail, as the three branches of
      `compute_privacy_metrics` compute them: the path cost to `via` plus
      each `edge_cost` of the tail, or None. */
  method RouteCost(G: DiGraph, starts: seq<Node>, via: Node, tail: seq<Edge>,
                   dist: (set<Edge>, Edge -> int, Node, Node) -> int)
    returns (r: Option<int>)
    requires G.Valid() && ValidDistance(dist) && CostsNonNegative(G.data)
    requires forall s :: s in starts ==> s in G.nodes
    requires SetOf(tail) <= G.EdgeSet()
    ensures IsRouteCost(G.EdgeSet(), Weights(G.data), starts, via, tail, r)
  {
    var toVia := MinPathCost(G, starts, via, dist);
    assert toVia.Ok?;
    if toVia.value.Some? {
      var c := toVia.value.value;
      for i := 0 to |tail|
        invariant c - TailCost(Weights(G.data), tail[..i]) == toVia.value.value
      {
        TailCostSnoc(Weights(G.data), tail[..i], tail[i]);
        assert tail[..i + 1] == tail[..i] + [tail[i]];
        c := c + G.Cost(tail[i]);
      }
      assert tail[..|tail|] == tail;
      r := Some(c);
    } else {
      r := None;
    }
  }

  lemma {:induction false} TailCostSnoc(w: Edge -> int, tail: seq<Edge>, e: Edge)
    ensures TailCost(w, tail + [e]) == TailCost(w, tail) + w(e)
  {
    if tail != [] {
      assert (tail + [e])[1..] == tail[1..] + [e];
      TailCostSnoc(w, tail[1..], e);
    }
  }

  /** The AcceptAll and Decline branches of `compute_privacy_metrics`: the
      route through `via` and its single edge to t, taken only when `via` is
      a node of G and that edge exists. */
  method DecisionRoute(G: DiGraph, starts: seq<Node>, via: Node, t: Node,
                       dist: (set<Edge>, Edge -> int, Node, Node) -> int)
    returns (r: Option<int>)
    requires G.Valid() && ValidDistance(dist) && CostsNonNegative(G.data)
    requires forall s :: s in starts ==> s in G.nodes
    ensures IsRouteCost(G.EdgeSet(), Weights(G.data), starts, via, [(via, t)], if via in G.nodes then r else None)
    ensures via !in G.nodes ==> r.None?
  {
    r := None;
    if via in G.nodes && G.HasEdge(via, t) {
      r := RouteCost(G, starts, via, [(via, t)], dist);
    }
  }

  /** The AcceptSelected → Apply → t route, taken only when both edges exist. */
  method SelectedRoute(G: DiGraph, starts: seq<Node>, t: Node,
                       dist: (set<Edge>, Edge -> int, Node, Node) -> int)
    returns (r: Option<int>)
    requires G.Valid() && ValidDistance(dist) && CostsNonNegative(G.data)
    requires forall s :: s in starts ==> s in G.nodes
    ensures IsRouteCost(G.EdgeSet(), Weights(G.data), starts, "AcceptSelected", [("AcceptSelected", "Apply"), ("Apply", t)], r)
  {
    r := None;
    if G.HasEdge("AcceptSelected", "Apply") && G.HasEdge("Apply", t) {
      r := RouteCost(G, starts, "AcceptSelected", [("AcceptSelected", "Apply"), ("Apply", t)], dist);
    } else {
      assert !(SetOf([("AcceptSelected", "Apply"), ("Apply", t)]) <= G.EdgeSet());
    }
  }

  /** The four route costs, each meeting its own specification, make a report
      that meets MetricsSpec. */
  lemma AssembleMetrics(N: seq<Node>, E: set<Edge>, w: Edge -> int, starts: seq<Node>, t: Node,
                        best: Option<int>, accAll: Option<int>, decline: Option<int>, accSel: Option<int>)
    requires IsMinPathCost(E, w, starts, t, best)
    requires IsRouteCost(E, w, starts, "AcceptAll", [("AcceptAll", t)], if "AcceptAll" in N then accAll else None)
    requires "AcceptAll" !in N ==> accAll.None?
    requires IsRouteCost(E, w, starts, "Decline", [("Decline", t)], if "Decline" in N then decline else None)
    requires "Decline" !in N ==> decline.None?
    requires IsRouteCost(E, w, starts, "AcceptSelected", [("AcceptSelected", "Apply"), ("Apply", t)], accSel)
    ensures MetricsSpec(N, E, w, starts, t, Assess(best, accAll, decline, accSel))
  {
  }

  /** `compute_privacy_metrics(d, G)`: the cheapest route to the decision node,
      the costs through AcceptAll, Decline and AcceptSelected → Apply, each
      only when its node and edges exist, and the verdicts. A start missing
      from G makes the first distance query raise `NodeNotFound`. */
  method ComputePrivacyMetrics(G: DiGraph, starts: seq<Node>, t: Node,
                               dist: (set<Edge>, Edge -> int, Node, Node) -> int)
    returns (r: Result<Metrics>)
    requires G.Valid() && ValidDistance(dist) && CostsNonNegative(G.data)
    ensures r.Err? <==> exists s :: s in starts && s !in G.nodes
    ensures r.Err? ==> r.error.NodeNotFound? && r.error.node in starts && r.error.node !in G.nodes
    ensures r.Ok? ==> MetricsSpec(G.nodes, G.EdgeSet(), Weights(G.data), starts, t, r.value)
  {
    var E, w := G.EdgeSet(), Weights(G.data);
    var best := MinPathCost(G, starts, t, dist);
    if best.Err? {
      return Err(best.error);
    }
    assert forall s :: s in starts ==> s in G.nodes;
    var accAll := DecisionRoute(G, starts, "AcceptAll", t, dist);
    var decline := DecisionRoute(G, starts, "Decline", t, dist);
    var accSel := SelectedRoute(G, starts, t, dist);
    AssembleMetrics(G.nodes, E, w, starts, t, best.value, accAll, decline, accSel);
    r := Ok(Assess(best.value, accAll, decline, accSel));
  }

  // ----- the worked example -----

  const EXAMPLE_EDGES: set<Edge> :=
    {("Start", "AcceptAll"), ("AcceptAll", "T"), ("Start", "Decline"), ("Decline", "T")}

  /** Every edge costs one click except Decline → T, which costs three. */
  function ExampleWeight(e: Edge): int {
    if e == ("Decline", "T") then 3 else 1
  }

  /** With weights of at least 1, a path costs at least its number of edges. */
  lemma {:induction false} PathCostAtLeastHops(E: set<Edge>, w: Edge -> int, p: seq<Node>)
    requires IsPath(E, p)
    requires forall e :: e in E ==> w(e) >= 1
    ensures PathCost(w, p) >= |p| - 1
  {
    if |p| >= 2 {
      assert (p[0], p[1]) in E;
      assert IsPath(E, p[1..]);
      PathCostAtLeastHops(E, w, p[1..]);
    }
  }

  /** In the example, the start is one click away from x through the edge
      Start → x. */
  lemma ExampleOneClick(x: Node)
    requires ("Start", x) in EXAMPLE_EDGES
    ensures IsMinOver(EXAMPLE_EDGES, ExampleWeight, ["Start"], x, 1)
  {
    var E := EXAMPLE_EDGES;
    assert IsPathFromTo(E, ["Start", x], "Start", x);
    assert PathCost(ExampleWeight, ["Start", x]) == 1;
    forall s, p | s in ["Start"] && IsPathFromTo(E, p, s, x) ensures 1 <= PathCost(ExampleWeight, p) {
      PathCostAtLeastHops(E, ExampleWeight, p);
    }
    assert IsMinCost(E, ExampleWeight, "Start", x, 1);
  }

  /** In the example, the route through x and then x → T costs one click to
      reach x plus the weight of x → T. */
  lemma ExampleRoute(x: Node, r: Option<int>)
    requires ("Start", x) in EXAMPLE_EDGES && (x, "T") in EXAMPLE_EDGES
    requires IsRouteCost(EXAMPLE_EDGES, ExampleWeight, ["Start"], x, [(x, "T")], r)
    ensures r == Some(1 + ExampleWeight((x, "T")))
  {
    var E, w := EXAMPLE_EDGES, ExampleWeight;
    ReachesEdge(E, "Start", x);
    assert SetOf([(x, "T")]) <= E;
    assert "Start" in ["Start"] && Reaches(E, "Start", x);
    assert TailCost(w, [(x, "T")]) == w((x, "T")) + TailCost(w, []);
    ExampleOneClick(x);
    MinOverUnique(E, w, ["Start"], x, 1, r.value - TailCost(w, [(x, "T")]));
  }

  /** Start → AcceptAll (1), AcceptAll → T (1), Start → Decline (1) and
      Decline → T (3): accepting everything takes 2 clicks, declining 4, so
      the flow is a dark pattern and fails the privacy check. */
  lemma WorkedExample(m: Metrics)
    requires MetricsSpec(["Start", "AcceptAll", "Decline", "T"], EXAMPLE_EDGES, ExampleWeight, ["Start"], "T", m)
    ensures m.acceptAll == Some(2) && m.decline == Some(4)
    ensures m.darkPattern && !m.privacyOk
  {
    ExampleRoute("AcceptAll", m.acceptAll);
    ExampleRoute("Decline", m.decline);
  }
}
