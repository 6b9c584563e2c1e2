/** The constraint-based removal strategies of the comparison runner: each
    one picks edges of the page/service digraph whose removal should leave
    no service reachable from a start page. */
module CompareAlgos {
  import opened Basics
  import opened Paths
  import opened Graphs
  import opened Itertools
  import opened Oracles
  import Strings

  const DEFAULT_PAGES: set<Node> :=
    {"Home", "Discover", "SearchBooks", "Audiobooks", "DigitalMag", "Membership", "ContactUs", "Login"}

  const DEFAULT_SERVICES: set<Node> :=
    {"SecuritySvc", "AnalyticsSvc", "ExtMediaSvc", "SupportSvc", "PaymentsSvc", "PersonalSvc"}

  /** `G.out_degree(n) > 0`. */
  predicate HasOutEdge(edges: seq<Edge>, n: Node) {
    exists e :: e in edges && e.0 == n
  }

  /** `str.isupper` on one character, for ASCII letters. */
  predicate IsUpper(c: char) {
    'A' <= c <= 'Z'
  }

  predicate LooksLikePage(edges: seq<Edge>, n: Node) {
    HasOutEdge(edges, n) && n != "" && IsUpper(n[0])
  }

  /** LooksLikePage as a test on nodes. */
  function PageTest(edges: seq<Edge>): Node -> bool {
    n => LooksLikePage(edges, n)
  }

  predicate IsDefaultPage(n: Node) {
    n in DEFAULT_PAGES
  }

  predicate IsDefaultService(n: Node) {
    n in DEFAULT_SERVICES
  }

  predicate IsSvcName(n: Node) {
    Strings.EndsWith(n, "Svc")
  }

  /** `autodetect_sets`: the start pages are the default pages present in the
      graph or, when there are none, the nodes with an outgoing edge whose
      name starts with an upper-case letter; the services are the default
      services present or, when there are none, the nodes named "...Svc".
      The fallback reads `n[0]`, so an empty node name with an outgoing
      edge raises IndexError there. */
  function AutodetectSets(G: DiGraph): (r: Result<(seq<Node>, seq<Node>)>)
    reads G
    ensures r.Err? <==>
      (forall n :: n in G.nodes ==> n !in DEFAULT_PAGES) && "" in G.nodes && HasOutEdge(G.edges, "")
    ensures r.Err? ==> r.error == IndexError
    ensures r.Ok? && (exists n :: n in G.nodes && n in DEFAULT_PAGES) ==>
      forall n :: n in r.value.0 <==> n in G.nodes && n in DEFAULT_PAGES
    ensures r.Ok? && (forall n :: n in G.nodes ==> n !in DEFAULT_PAGES) ==>
      forall n :: n in r.value.0 <==> n in G.nodes && LooksLikePage(G.edges, n)
    ensures r.Ok? && (exists n :: n in G.nodes && n in DEFAULT_SERVICES) ==>
      forall n :: n in r.value.1 <==> n in G.nodes && n in DEFAULT_SERVICES
    ensures r.Ok? && (forall n :: n in G.nodes ==> n !in DEFAULT_SERVICES) ==>
      forall n :: n in r.value.1 <==> n in G.nodes && Strings.EndsWith(n, "Svc")
    ensures r.Ok? && (exists n :: n in G.nodes && n in DEFAULT_PAGES) ==>
      r.value.0 == Filter(G.nodes, IsDefaultPage)
    ensures r.Ok? && (forall n :: n in G.nodes ==> n !in DEFAULT_PAGES) ==>
      r.value.0 == Filter(G.nodes, PageTest(G.edges))
    ensures r.Ok? && (exists n :: n in G.nodes && n in DEFAULT_SERVICES) ==>
      r.value.1 == Filter(G.nodes, IsDefaultService)
    ensures r.Ok? && (forall n :: n in G.nodes ==> n !in DEFAULT_SERVICES) ==>
      r.value.1 == Filter(G.nodes, IsSvcName)
  {
    var nodes, edges := G.nodes, G.edges;
    var starts := Filter(nodes, IsDefaultPage);
    var services := Filter(nodes, IsDefaultService);
    var services' := if services != [] then services else Filter(nodes, IsSvcName);
    assert services == [] <==> forall n :: n in nodes ==> n !in DEFAULT_SERVICES by {
      if services != [] {
        assert services[0] in services;
      }
    }
    assert starts == [] <==> forall n :: n in nodes ==> n !in DEFAULT_PAGES by {
      if starts != [] {
        assert starts[0] in starts;
      }
    }
    if starts != [] then Ok((starts, services'))
    else if "" in nodes && HasOutEdge(edges, "") then Err(IndexError)
    else Ok((Filter(nodes, PageTest(edges)), services'))
  }

  /** `build_constraints`: every start × service pair whose two nodes are in
      the graph; BuildConstraintsRows gives the order. */
  function BuildConstraints(nodes: seq<Node>, starts: seq<Node>, services: seq<Node>): (r: seq<Pair>)
    ensures forall p :: p in r <==> p.0 in starts && p.1 in services && p.0 in nodes && p.1 in nodes
    ensures |r| <= |starts| * |services|
  {
    if starts == [] then []
    else
      var row := ConstraintRow(nodes, starts[0], services);
      var rest := BuildConstraints(nodes, starts[1..], services);
      assert |starts| * |services| == |services| + (|starts| - 1) * |services|;
      row + rest
  }

  /** The constraints are start-major: the row of each start in the order of
      starts, repeated starts and services kept. */
  lemma {:induction false} BuildConstraintsRows(nodes: seq<Node>, starts: seq<Node>, services: seq<Node>)
    ensures BuildConstraints(nodes, starts, services) == Concat(ConstraintRows(nodes, starts, services))
  {
    if starts != [] {
      BuildConstraintsRows(nodes, starts[1..], services);
      var rows := ConstraintRows(nodes, starts, services);
      assert rows[1..] == ConstraintRows(nodes, starts[1..], services);
    }
  }

  /** One row per start, in the order of starts. */
  function ConstraintRows(nodes: seq<Node>, starts: seq<Node>, services: seq<Node>): (r: seq<seq<Pair>>)
    ensures |r| == |starts|
    ensures forall i :: 0 <= i < |starts| ==> r[i] == ConstraintRow(nodes, starts[i], services)
  {
    seq(|starts|, i requires 0 <= i < |starts| => ConstraintRow(nodes, starts[i], services))
  }

  /** The pairs of one start s with each service that is a node, in service
      order; no pair at all when s is not a node. */
  function ConstraintRow(nodes: seq<Node>, s: Node, services: seq<Node>): (r: seq<Pair>)
    ensures s !in nodes ==> r == []
    ensures s in nodes ==> |r| == |Among(nodes, services)|
    ensures s in nodes ==> forall i :: 0 <= i < |r| ==> r[i] == (s, Among(nodes, services)[i])
    ensures forall p :: p in r <==> p.0 == s && p.1 in services && s in nodes && p.1 in nodes
    ensures |r| <= |services|
  {
    if s !in nodes then []
    else
      var row := Among(nodes, services);
      var r := seq(|row|, i requires 0 <= i < |row| => (s, row[i]));
      assert forall p :: p in r <==> p.0 == s && p.1 in row by {
        forall p: Pair | p.0 == s && p.1 in row ensures p in r {
          var i :| 0 <= i < |row| && row[i] == p.1;
          assert r[i] == p;
        }
      }
      r
  }

  /** The constraints of cs that start or end outside the graph: none. */
  predicate InGraph(nodes: seq<Node>, cs: seq<Pair>) {
    forall p :: p in cs ==> p.0 in nodes && p.1 in nodes
  }

  /** cs[i] is the first constraint, in list order, whose target is reachable. */
  ghost predicate IsFirstReaching(E: set<Edge>, cs: seq<Pair>, i: int) {
    && 0 <= i < |cs|
    && Reaches(E, cs[i].0, cs[i].1)
    && (forall j :: 0 <= j < i ==> !Reaches(E, cs[j].0, cs[j].1))
  }

  /** The pair `any_reachable_pair` returns. */
  ghost function FirstReachable(E: set<Edge>, cs: seq<Pair>): (r: Option<Pair>)
    ensures r.None? <==> forall i :: 0 <= i < |cs| ==> !Reaches(E, cs[i].0, cs[i].1)
    ensures r.Some? ==> exists i :: IsFirstReaching(E, cs, i) && cs[i] == r.value
  {
    if cs == [] then None
    else if Reaches(E, cs[0].0, cs[0].1) then
      assert IsFirstReaching(E, cs, 0);
      Some(cs[0])
    else
      var r := FirstReachable(E, cs[1..]);
      assert forall i :: 1 <= i < |cs| ==> cs[i] == cs[1..][i - 1];
      assert r.Some? ==> exists i :: IsFirstReaching(E, cs, i) && cs[i] == r.value by {
        if r.Some? {
          var i :| IsFirstReaching(E, cs[1..], i) && cs[1..][i] == r.value;
          assert IsFirstReaching(E, cs, i + 1);
        }
      }
      r
  }

  /** The pair `any_reachable_pair` finds has a path. */
  lemma FirstReachableReaches(E: set<Edge>, cs: seq<Pair>)
    ensures var f := FirstReachable(E, cs); f.Some? ==> Reaches(E, f.value.0, f.value.1)
  {
  }

  /** `any_reachable_pair` on a graph with edge set E: the constraints are
      tried in order with `has_path`. */
  method AnyReachablePair(E: set<Edge>, cs: seq<Pair>) returns (p: Option<Pair>)
    ensures p == FirstReachable(E, cs)
  {
    for i := 0 to |cs|
      invariant FirstReachable(E, cs) == FirstReachable(E, cs[i..])
    {
      assert cs[i..][1..] == cs[i + 1..];
      var (s, t) := cs[i];
      var b := PathExists(E, s, t);
      if b {
        return Some((s, t));
      }
    }
    assert cs[|cs|..] == [];
    return None;
  }

  /** `algo_remove_random_edge`: on a copy H of G, take the first reachable
      pair, a shortest path for it, and delete the path edge at a drawn
      position (`randrange(len(path) - 1)` is the draw modulo that bound);
      stop when no pair is reachable or the first reachable pair is a node
      and itself. The copy is private to the strategy and only loses edges,
      so it is kept as its edge set; G is left as it was. */
  method RemoveRandomEdge(G: DiGraph, cs: seq<Pair>, sp: (set<Edge>, Node, Node) -> seq<Node>, draws: nat -> nat)
    returns (removed: set<Edge>)
    requires InGraph(G.nodes, cs)
    requires ValidShortestPath(sp)
    ensures removed <= G.EdgeSet()
    ensures var f := FirstReachable(G.EdgeSet() - removed, cs);
      f.None? || f.value.0 == f.value.1
    ensures exists n :: removed == Replay(G.EdgeSet(), cs, sp, draws, n)
  {
    removed := RandomRounds(G.EdgeSet(), cs, sp, draws);
  }

  /** The rounds of the random strategy on the edge set E of the copy, up to
      the first that finds nothing to draw. */
  method RandomRounds(E: set<Edge>, cs: seq<Pair>, sp: (set<Edge>, Node, Node) -> seq<Node>, draws: nat -> nat)
    returns (removed: set<Edge>)
    requires ValidShortestPath(sp)
    ensures removed <= E
    ensures var f := FirstReachable(E - removed, cs);
      f.None? || f.value.0 == f.value.1
    ensures exists n :: removed == Replay(E, cs, sp, draws, n)
  {
    var H := E;
    removed := {};
    var round := 0;
    while true
      invariant removed <= E && H == E - removed
      invariant removed == Replay(E, cs, sp, draws, round)
      decreases |H|
    {
      var e := DrawPathEdge(H, cs, sp, draws(round));
      if e.None? { break; }
      ReplayStep(E, cs, sp, draws, round, removed, e.value);
      H := H - {e.value};
      removed := removed + {e.value};
      round := round + 1;
    }
  }

  /** The edge a round drawing d takes on edge set H: the edge at position d
      modulo the path's edge count on the oracle's shortest path for the
      first reachable pair; None when no pair is reachable or that pair is a
      node and itself. */
  ghost function DrawnEdge(H: set<Edge>, cs: seq<Pair>, sp: (set<Edge>, Node, Node) -> seq<Node>, d: nat): Option<Edge> {
    var f := FirstReachable(H, cs);
    if f.None? || f.value.0 == f.value.1 then None
    else
      var path := sp(H, f.value.0, f.value.1);
      if |path| < 2 then None
      else Some((path[d % (|path| - 1)], path[d % (|path| - 1) + 1]))
  }

  /** The edges the random strategy has removed from E after n rounds, round
      k drawing with draws(k) on what the earlier rounds left. */
  ghost function Replay(E: set<Edge>, cs: seq<Pair>, sp: (set<Edge>, Node, Node) -> seq<Node>,
                        draws: nat -> nat, n: nat): set<Edge>
  {
    if n == 0 then {}
    else
      var R := Replay(E, cs, sp, draws, n - 1);
      var e := DrawnEdge(E - R, cs, sp, draws(n - 1));
      if e.Some? then R + {e.value} else R
  }

  /** There is a drawn edge exactly when the first reachable pair has two
      distinct nodes, and it is a step of that pair's shortest path, so an
      edge of H. */
  lemma DrawnEdgeFacts(H: set<Edge>, cs: seq<Pair>, sp: (set<Edge>, Node, Node) -> seq<Node>, d: nat)
    requires ValidShortestPath(sp)
    ensures var f := FirstReachable(H, cs);
      DrawnEdge(H, cs, sp, d).None? <==> f.None? || f.value.0 == f.value.1
    ensures var e, f := DrawnEdge(H, cs, sp, d), FirstReachable(H, cs);
      e.Some? ==> f.Some? && var path := sp(H, f.value.0, f.value.1);
        && IsPathFromTo(H, path, f.value.0, f.value.1)
        && (exists j :: 0 <= j < |path| - 1 && e.value == (path[j], path[j + 1]))
        && e.value in H
  {
    var f := FirstReachable(H, cs);
    if f.Some? {
      FirstReachableReaches(H, cs);
      ShortestPathFacts(sp, H, f.value.0, f.value.1);
      var path := sp(H, f.value.0, f.value.1);
      if f.value.0 != f.value.1 {
        var j := d % (|path| - 1);
        assert DrawnEdge(H, cs, sp, d) == Some((path[j], path[j + 1]));
      }
    }
  }

  /** A round that draws e adds e to what the earlier rounds removed. */
  lemma ReplayStep(E: set<Edge>, cs: seq<Pair>, sp: (set<Edge>, Node, Node) -> seq<Node>,
                   draws: nat -> nat, n: nat, removed: set<Edge>, e: Edge)
    requires removed == Replay(E, cs, sp, draws, n)
    requires DrawnEdge(E - removed, cs, sp, draws(n)) == Some(e)
    ensures Replay(E, cs, sp, draws, n + 1) == removed + {e}
  {
  }

  /** Once a round finds nothing to draw, no later round removes anything:
      the removed set is the same for every longer run. */
  lemma {:induction false} ReplayStops(E: set<Edge>, cs: seq<Pair>, sp: (set<Edge>, Node, Node) -> seq<Node>,
                                       draws: nat -> nat, n: nat, m: nat)
    requires var f := FirstReachable(E - Replay(E, cs, sp, draws, n), cs); f.None? || f.value.0 == f.value.1
    requires n <= m
    ensures Replay(E, cs, sp, draws, m) == Replay(E, cs, sp, draws, n)
    decreases m - n
  {
    if n < m {
      ReplayStops(E, cs, sp, draws, n, m - 1);
    }
  }

  /** One round of the random strategy on edge set H: the edge at the drawn
      position of a shortest path for the first reachable pair, or None when
      no pair is reachable or that pair is a node and itself. */
  method DrawPathEdge(H: set<Edge>, cs: seq<Pair>, sp: (set<Edge>, Node, Node) -> seq<Node>, d: nat)
    returns (e: Option<Edge>)
    requires ValidShortestPath(sp)
    ensures e.None? <==> var f := FirstReachable(H, cs); f.None? || f.value.0 == f.value.1
    ensures e.Some? ==> e.value in H
    ensures e == DrawnEdge(H, cs, sp, d)
  {
    var pair := AnyReachablePair(H, cs);
    if pair.None? {
      return None;
    }
    var (s, t) := pair.value;
    FirstReachableReaches(H, cs);
    ShortestPathFacts(sp, H, s, t);
    var path := sp(H, s, t);
    if |path| < 2 {
      return None;
    }
    var i := d % (|path| - 1);
    return Some((path[i], path[i + 1]));
  }

  /** `algo_remove_first_edge`: one pass over the constraints; each pair of
      distinct nodes with a path contributes the first edge of one shortest
      path, an edge leaving its start on a path to its target. */
  method RemoveFirstEdge(G: DiGraph, cs: seq<Pair>, sp: (set<Edge>, Node, Node) -> seq<Node>)
    returns (removed: set<Edge>)
    requires InGraph(G.nodes, cs)
    requires ValidShortestPath(sp)
    ensures removed <= G.EdgeSet()
    ensures forall e :: e in removed ==>
      exists p :: p in cs && p.0 == e.0 && p.0 != p.1 && Reaches(G.EdgeSet(), e.1, p.1)
    ensures forall p :: p in cs && p.0 != p.1 && Reaches(G.EdgeSet(), p.0, p.1) ==>
      exists e :: e in removed && e.0 == p.0 && Reaches(G.EdgeSet(), e.1, p.1)
    ensures forall e :: e in removed <==> exists i :: 0 <= i < |cs| && IsOracleFirstEdge(G.EdgeSet(), sp, cs[i], e)
  {
    var E := G.EdgeSet();
    removed := {};
    for i := 0 to |cs|
      invariant forall e :: e in removed <==> exists j :: 0 <= j < i && IsOracleFirstEdge(E, sp, cs[j], e)
    {
      var (s, t) := cs[i];
      var b := PathExists(E, s, t);
      if !b {
        FirstEdgesStep(E, sp, cs, i, removed, {});
        continue;
      }
      ShortestPathFacts(sp, E, s, t);
      var path := sp(E, s, t);
      if |path| >= 2 {
        var e := (path[0], path[1]);
        FirstEdgesStep(E, sp, cs, i, removed, {e});
        removed := removed + {e};
      } else {
        FirstEdgesStep(E, sp, cs, i, removed, {});
      }
    }
    forall e | e in removed
      ensures e in E && exists p :: p in cs && p.0 == e.0 && p.0 != p.1 && Reaches(E, e.1, p.1)
    {
      var j :| 0 <= j < |cs| && IsOracleFirstEdge(E, sp, cs[j], e);
      OracleFirstEdgeFacts(E, sp, cs[j], e);
    }
    forall p | p in cs && p.0 != p.1 && Reaches(E, p.0, p.1)
      ensures exists e :: e in removed && e.0 == p.0 && Reaches(E, e.1, p.1)
    {
      ShortestPathFacts(sp, E, p.0, p.1);
      var path := sp(E, p.0, p.1);
      var e := (path[0], path[1]);
      var j :| 0 <= j < |cs| && cs[j] == p;
      assert IsOracleFirstEdge(E, sp, cs[j], e);
      OracleFirstEdgeFacts(E, sp, p, e);
    }
  }


  /** e is the first edge of the path the oracle returns for the pair p of
      two distinct nodes, one reaching the other. */
  ghost predicate IsOracleFirstEdge(E: set<Edge>, sp: (set<Edge>, Node, Node) -> seq<Node>, p: Pair, e: Edge) {
    && p.0 != p.1 && Reaches(E, p.0, p.1)
    && |sp(E, p.0, p.1)| >= 2
    && e == (sp(E, p.0, p.1)[0], sp(E, p.0, p.1)[1])
  }

  /** The oracle's first edge for a pair is an edge of E leaving the pair's
      start towards a node that still reaches its target. */
  lemma OracleFirstEdgeFacts(E: set<Edge>, sp: (set<Edge>, Node, Node) -> seq<Node>, p: Pair, e: Edge)
    requires ValidShortestPath(sp) && IsOracleFirstEdge(E, sp, p, e)
    ensures e in E && e.0 == p.0 && Reaches(E, e.1, p.1)
  {
    ShortestPathFacts(sp, E, p.0, p.1);
    FirstEdgeOnPath(E, sp(E, p.0, p.1), p.0, p.1);
  }

  /** The first edges of pairs 0 .. i, from those of pairs 0 .. i - 1 and
      those of pair i. */
  lemma FirstEdgesStep(E: set<Edge>, sp: (set<Edge>, Node, Node) -> seq<Node>, cs: seq<Pair>, i: nat,
                       R: set<Edge>, A: set<Edge>)
    requires i < |cs|
    requires forall e :: e in R <==> exists j :: 0 <= j < i && IsOracleFirstEdge(E, sp, cs[j], e)
    requires forall e :: e in A <==> IsOracleFirstEdge(E, sp, cs[i], e)
    ensures forall e :: e in R + A <==> exists j :: 0 <= j < i + 1 && IsOracleFirstEdge(E, sp, cs[j], e)
  {
  }

  /** The first edge of a path from s to t leaves s, lies in E and still
      reaches t. */
  lemma FirstEdgeOnPath(E: set<Edge>, p: seq<Node>, s: Node, t: Node)
    requires IsPathFromTo(E, p, s, t) && |p| >= 2
    ensures (p[0], p[1]) in E && p[0] == s
    ensures Reaches(E, p[1], t)
  {
    assert IsPathFromTo(E, p[1..], p[1], t);
  }

  /** `algo_remove_min_cut_union`: the union of `minimum_edge_cut` over the
      constraints; a pair whose cut raises (a node outside the graph, or a
      node paired with itself) adds nothing. */
  method RemoveMinCutUnion(G: DiGraph, cs: seq<Pair>, cut: (set<Edge>, Node, Node) -> seq<Edge>)
    returns (removed: set<Edge>)
    requires ValidMinEdgeCut(cut)
    ensures removed <= G.EdgeSet()
    ensures forall p :: p in cs && CutApplies(G.nodes, p) ==> SetOf(cut(G.EdgeSet(), p.0, p.1)) <= removed
    ensures forall e :: e in removed ==>
      exists p :: p in cs && CutApplies(G.nodes, p) && e in cut(G.EdgeSet(), p.0, p.1)
    ensures forall e :: e in removed ==>
      exists p :: p in cs && CutApplies(G.nodes, p) && Reaches(G.EdgeSet(), p.0, p.1) && e in cut(G.EdgeSet(), p.0, p.1)
  {
    var E := G.EdgeSet();
    removed := {};
    for i := 0 to |cs|
      invariant removed <= E
      invariant forall j :: 0 <= j < i && CutApplies(G.nodes, cs[j]) ==> SetOf(cut(E, cs[j].0, cs[j].1)) <= removed
      invariant forall e :: e in removed ==>
        exists p :: p in cs && CutApplies(G.nodes, p) && Reaches(E, p.0, p.1) && e in cut(E, p.0, p.1)
    {
      var (s, t) := cs[i];
      if !CutApplies(G.nodes, (s, t)) {
        continue;
      }
      var c := cut(E, s, t);
      CutUnionStep(E, G.nodes, cs, cut, i, removed);
      removed := removed + SetOf(c);
    }
  }

  /** Adding the cut of pair i keeps every removed edge drawn from the cut of
      a pair with a path. */
  lemma CutUnionStep(E: set<Edge>, nodes: seq<Node>, cs: seq<Pair>,
                     cut: (set<Edge>, Node, Node) -> seq<Edge>, i: nat, R: set<Edge>)
    requires ValidMinEdgeCut(cut) && i < |cs| && CutApplies(nodes, cs[i])
    requires forall e :: e in R ==>
      exists p :: p in cs && CutApplies(nodes, p) && Reaches(E, p.0, p.1) && e in cut(E, p.0, p.1)
    ensures SetOf(cut(E, cs[i].0, cs[i].1)) <= E
    ensures forall e :: e in R + SetOf(cut(E, cs[i].0, cs[i].1)) ==>
      exists p :: p in cs && CutApplies(nodes, p) && Reaches(E, p.0, p.1) && e in cut(E, p.0, p.1)
  {
    MinEdgeCutFacts(cut, E, cs[i].0, cs[i].1);
    assert cs[i] in cs;
  }

  /** `minimum_edge_cut(G, s, t)` returns rather than raising. */
  predicate CutApplies(nodes: seq<Node>, p: Pair) {
    p.0 in nodes && p.1 in nodes && p.0 != p.1
  }

  /** Removing a superset of every pair's cut disconnects every constraint of
      two distinct nodes. */
  lemma MinCutUnionDisconnects(E: set<Edge>, nodes: seq<Node>, cs: seq<Pair>,
                               cut: (set<Edge>, Node, Node) -> seq<Edge>, R: set<Edge>)
    requires ValidMinEdgeCut(cut)
    requires forall p :: p in cs && CutApplies(nodes, p) ==> SetOf(cut(E, p.0, p.1)) <= R
    ensures forall p :: p in cs && CutApplies(nodes, p) ==> !Reaches(E - R, p.0, p.1)
  {
    forall p | p in cs && CutApplies(nodes, p) ensures !Reaches(E - R, p.0, p.1) {
      var C := SetOf(cut(E, p.0, p.1));
      assert !Reaches(E - C, p.0, p.1);
      if Reaches(E - R, p.0, p.1) {
        ReachesMono(E - R, E - C, p.0, p.1);
      }
    }
  }

  // ----- the greedy multi-cut -----

  /** The `freq` dictionary: its keys in insertion order and their counts. */
  datatype Freq = Freq(order: seq<Edge>, count: map<Edge, nat>)

  ghost predicate FreqValid(f: Freq) {
    Distinct(f.order) && forall e :: e in f.count <==> e in f.order
  }

  /** `freq.get(e, 0)`. */
  function Get(f: Freq, e: Edge): nat {
    if e in f.count then f.count[e] else 0
  }

  /** `freq[e] = freq.get(e, 0) + 1`: a new key goes last. */
  function Bump(f: Freq, e: Edge): (r: Freq)
    requires FreqValid(f)
    ensures FreqValid(r)
    ensures Get(r, e) == Get(f, e) + 1
    ensures forall x :: x != e ==> Get(r, x) == Get(f, x)
    ensures forall x :: x in r.order <==> x in f.order || x == e
  {
    if e in f.count then Freq(f.order, f.count[e := f.count[e] + 1])
    else
      DistinctSnoc(f.order, e);
      Freq(f.order + [e], f.count[e := 1])
  }

  /** Position of the first key of greatest count: `max` keeps its first
      candidate and only a strictly greater count replaces it. */
  function MaxIndex(f: Freq, keys: seq<Edge>): (i: nat)
    requires keys != []
    ensures i < |keys|
    ensures forall j :: 0 <= j < |keys| ==> Get(f, keys[j]) <= Get(f, keys[i])
    ensures forall j :: 0 <= j < i ==> Get(f, keys[j]) < Get(f, keys[i])
  {
    if |keys| == 1 then 0
    else
      var k := MaxIndex(f, keys[..|keys| - 1]);
      if Get(f, keys[|keys| - 1]) > Get(f, keys[k]) then |keys| - 1 else k
  }

  /** `max(freq, key=freq.get)`. */
  function MostFrequent(f: Freq): (e: Edge)
    requires f.order != []
    ensures e in f.order
    ensures forall x :: x in f.order ==> Get(f, x) <= Get(f, e)
  {
    f.order[MaxIndex(f, f.order)]
  }

  /** How many constraints of two distinct nodes with a path have e in their cut. */
  ghost function CutCount(E: set<Edge>, cs: seq<Pair>, cut: (set<Edge>, Node, Node) -> seq<Edge>, e: Edge): (n: nat)
    ensures n <= |cs|
    ensures n > 0 <==> exists i :: 0 <= i < |cs| && CutHas(E, cs[i], cut, e)
  {
    if cs == [] then 0
    else
      var init, last := cs[..|cs| - 1], cs[|cs| - 1];
      assert forall i :: 0 <= i < |init| ==> init[i] == cs[i];
      CutCount(E, init, cut, e) + (if CutHas(E, last, cut, e) then 1 else 0)
  }

  /** Pair p counts e: its nodes differ, it has a path, and e is in its cut. */
  ghost predicate CutHas(E: set<Edge>, p: Pair, cut: (set<Edge>, Node, Node) -> seq<Edge>, e: Edge) {
    p.0 != p.1 && Reaches(E, p.0, p.1) && e in cut(E, p.0, p.1)
  }

  /** The counting pass of one greedy round on edge set E: for each
      constraint with a path, note that something is reachable and count
      every edge of its minimum cut; a node paired with itself makes
      `minimum_edge_cut` raise and counts nothing. */
  method CountCutEdges(E: set<Edge>, cs: seq<Pair>, cut: (set<Edge>, Node, Node) -> seq<Edge>)
    returns (f: Freq, reachable: bool)
    requires ValidMinEdgeCut(cut)
    ensures FreqValid(f)
    ensures reachable <==> exists i :: 0 <= i < |cs| && Reaches(E, cs[i].0, cs[i].1)
    ensures forall e :: Get(f, e) == CutCount(E, cs, cut, e)
    ensures forall e :: Get(f, e) > 0 ==> exists i :: 0 <= i < |cs| && CutHas(E, cs[i], cut, e)
    ensures forall e :: e in f.order ==> e in E && Get(f, e) > 0
  {
    f, reachable := Freq([], map[]), false;
    for i := 0 to |cs|
      invariant FreqValid(f)
      invariant reachable <==> exists j :: 0 <= j < i && Reaches(E, cs[j].0, cs[j].1)
      invariant forall e :: Get(f, e) == CutCount(E, cs[..i], cut, e)
      invariant forall e :: e in f.order ==> Get(f, e) > 0
    {
      var (s, t) := cs[i];
      assert cs[..i + 1] == cs[..i] + [cs[i]];
      assert cs[..i + 1][..i] == cs[..i];
      var b := PathExists(E, s, t);
      if !b {
        continue;
      }
      reachable := true;
      if s == t {
        continue;
      }
      f := BumpAll(f, cut(E, s, t));
    }
    assert cs[..|cs|] == cs;
    forall e | e in f.order ensures e in E {
      var i :| 0 <= i < |cs| && CutHas(E, cs[i], cut, e);
    }
  }

  /** A reachable pair of two distinct nodes has a non-empty cut, whose
      first edge is counted. */
  lemma ReachablePairCounts(E: set<Edge>, cs: seq<Pair>, cut: (set<Edge>, Node, Node) -> seq<Edge>, i: nat)
    requires ValidMinEdgeCut(cut)
    requires i < |cs| && cs[i].0 != cs[i].1 && Reaches(E, cs[i].0, cs[i].1)
    ensures cut(E, cs[i].0, cs[i].1) != []
    ensures CutCount(E, cs, cut, cut(E, cs[i].0, cs[i].1)[0]) > 0
  {
    var c := cut(E, cs[i].0, cs[i].1);
    assert SetOf(c) == {} ==> E - SetOf(c) == E;
    assert CutHas(E, cs[i], cut, c[0]);
  }

  /** `for e in cut: freq[e] = freq.get(e, 0) + 1` over a cut without
      repeated edges. */
  method BumpAll(f0: Freq, c: seq<Edge>) returns (f: Freq)
    requires FreqValid(f0) && Distinct(c)
    requires forall e :: e in f0.order ==> Get(f0, e) > 0
    ensures FreqValid(f)
    ensures forall e :: Get(f, e) == Get(f0, e) + (if e in c then 1 else 0)
    ensures forall e :: e in f.order ==> Get(f, e) > 0
  {
    f := f0;
    for j := 0 to |c|
      invariant FreqValid(f)
      invariant forall e :: Get(f, e) == Get(f0, e) + (if e in c[..j] then 1 else 0)
      invariant forall e :: e in f.order ==> Get(f, e) > 0
    {
      assert c[..j + 1] == c[..j] + [c[j]];
      assert c[j] !in c[..j];
      f := Bump(f, c[j]);
    }
    assert c[..|c|] == c;
  }

  /** Nothing counted while some pair is reachable: then every reachable
      pair is a node and itself. */
  lemma NoCountMeansSelfPair(E: set<Edge>, cs: seq<Pair>, cut: (set<Edge>, Node, Node) -> seq<Edge>)
    requires ValidMinEdgeCut(cut)
    requires forall e :: CutCount(E, cs, cut, e) == 0
    ensures forall i :: 0 <= i < |cs| && Reaches(E, cs[i].0, cs[i].1) ==> cs[i].0 == cs[i].1
  {
    forall i | 0 <= i < |cs| && Reaches(E, cs[i].0, cs[i].1) && cs[i].0 != cs[i].1
      ensures false
    {
      ReachablePairCounts(E, cs, cut, i);
    }
  }

  /** With nothing counted, the first reachable pair is a node and itself. */
  lemma FirstReachableSelfPair(E: set<Edge>, cs: seq<Pair>, cut: (set<Edge>, Node, Node) -> seq<Edge>)
    requires ValidMinEdgeCut(cut)
    requires forall e :: CutCount(E, cs, cut, e) == 0
    ensures var f := FirstReachable(E, cs); f.Some? ==> f.value.0 == f.value.1
  {
    var f := FirstReachable(E, cs);
    if f.Some? {
      NoCountMeansSelfPair(E, cs, cut);
      var i :| IsFirstReaching(E, cs, i) && cs[i] == f.value;
    }
  }

  /** One round of `algo_remove_minmc_greedy` on edge set H: Ok(None) to stop,
      Ok(Some(e)) for the edge to delete, or the IndexError of the fallback.
      A most frequent cut edge is chosen while anything was counted; when
      nothing was (every reachable pair is a node and itself), the first
      reachable pair is unpacked: an empty node name stops the loop, and
      otherwise reading `path[1]` of its one-node shortest path raises. */
  method GreedyStep(H: set<Edge>, cs: seq<Pair>, cut: (set<Edge>, Node, Node) -> seq<Edge>,
                    sp: (set<Edge>, Node, Node) -> seq<Node>)
    returns (r: Result<Option<Edge>>)
    requires ValidMinEdgeCut(cut) && ValidShortestPath(sp)
    ensures r.Ok? && r.value.None? ==> var f := FirstReachable(H, cs); f.None? || f.value == ("", "")
    ensures r.Ok? && r.value.Some? ==> r.value.value in H
    ensures r.Ok? && r.value.Some? ==> CutCount(H, cs, cut, r.value.value) > 0
    ensures r.Ok? && r.value.Some? ==> FirstReachable(H, cs).Some?
    ensures r.Ok? && r.value.Some? ==>
      forall x :: CutCount(H, cs, cut, x) <= CutCount(H, cs, cut, r.value.value)
    ensures r.Err? ==> r.error == IndexError && exists p :: p in cs && p.0 == p.1 && p.0 != ""
  {
    var freq, reachable := CountCutEdges(H, cs, cut);
    if !reachable {
      return Ok(None);
    }
    if freq.order == [] {
      assert forall e :: CutCount(H, cs, cut, e) == 0 by {
        forall e ensures CutCount(H, cs, cut, e) == 0 {
          assert Get(freq, e) == 0;
        }
      }
      FirstReachableSelfPair(H, cs, cut);
      var pair := AnyReachablePair(H, cs);
      var (s, t) := pair.value;
      if s == "" || t == "" {
        return Ok(None);
      }
      FirstReachableReaches(H, cs);
      ShortestPathFacts(sp, H, s, t);
      var path := sp(H, s, t);
      assert |path| == 1 && (s, t) in cs;
      return Err(IndexError);
    }
    var e := MostFrequent(freq);
    forall x ensures CutCount(H, cs, cut, x) <= CutCount(H, cs, cut, e) {
      if x !in freq.order {
        assert Get(freq, x) == 0;
      }
    }
    return Ok(Some(e));
  }

  /** `algo_remove_minmc_greedy`: on a copy H of G, kept as its edge set,
      repeat greedy rounds until one says to stop; each round's edge is an
      edge of H, so the `has_edge` test before each deletion always holds. */
  method RemoveMinmcGreedy(G: DiGraph, cs: seq<Pair>, cut: (set<Edge>, Node, Node) -> seq<Edge>,
                           sp: (set<Edge>, Node, Node) -> seq<Node>)
    returns (r: Result<set<Edge>>)
    requires InGraph(G.nodes, cs)
    requires ValidMinEdgeCut(cut) && ValidShortestPath(sp)
    ensures r.Ok? ==> r.value <= G.EdgeSet()
    ensures r.Ok? ==> var f := FirstReachable(G.EdgeSet() - r.value, cs);
      f.None? || f.value == ("", "")
    ensures r.Err? ==> r.error == IndexError && exists p :: p in cs && p.0 == p.1 && p.0 != ""
  {
    var H := G.EdgeSet();
    var removed: set<Edge> := {};
    while true
      invariant removed <= G.EdgeSet()
      invariant H == G.EdgeSet() - removed
      decreases |H|
    {
      var step := GreedyStep(H, cs, cut, sp);
      if step.Err? {
        return Err(step.error);
      }
      if step.value.None? {
        break;
      }
      var e := step.value.value;
      if e in H {
        H := H - {e};
        removed := removed + {e};
      } else {
        assert false;
        break;
      }
    }
    return Ok(removed);
  }

  // ----- exhaustive search -----

  /** No constraint pair has a path in E. */
  ghost predicate DisconnectsAll(E: set<Edge>, cs: seq<Pair>) {
    forall i :: 0 <= i < |cs| ==> !Reaches(E, cs[i].0, cs[i].1)
  }

  /** The `has_path` scan inside the brute-force search: false at the first
      pair that still has a path. */
  method AllPairsCut(H: DiGraph, cs: seq<Pair>) returns (ok: bool)
    requires InGraph(H.nodes, cs)
    ensures ok <==> DisconnectsAll(H.EdgeSet(), cs)
  {
    var E := H.EdgeSet();
    ok := true;
    for i := 0 to |cs|
      invariant forall j :: 0 <= j < i ==> !Reaches(E, cs[j].0, cs[j].1)
    {
      var (s, t) := cs[i];
      var b := PathExists(E, s, t);
      if b {
        ok := false;
        break;
      }
    }
  }

  /** `algo_bruteforce_min_hitset`: for k = 1 .. kmax, try every k-combination
      of the edges in `G.edges()` order and return the first whose removal
      disconnects every constraint pair; the empty set when none does. The
      search starts at k = 1. */
  method BruteforceMinHitset(G: DiGraph, cs: seq<Pair>, kmax: int) returns (R: set<Edge>)
    requires G.Valid() && InGraph(G.nodes, cs)
    ensures R <= G.EdgeSet()
    ensures R != {} ==> DisconnectsAll(G.EdgeSet() - R, cs) && |R| <= kmax
    ensures R != {} ==> forall S :: S <= G.EdgeSet() && 1 <= |S| < |R| ==> !DisconnectsAll(G.EdgeSet() - S, cs)
    ensures R == {} <==> forall S :: S <= G.EdgeSet() && 1 <= |S| <= kmax ==> !DisconnectsAll(G.EdgeSet() - S, cs)
    ensures R != {} ==> exists c :: R == SetOf(c) && |c| == |R| && IsFirstCutting(G.EdgeSet(), cs, Combinations(G.edges, |c|), c)
  {
    var E := G.edges;
    if kmax < 1 {
      return {};
    }
    for k := 1 to kmax + 1
      invariant forall S :: S <= G.EdgeSet() && 1 <= |S| < k ==> !DisconnectsAll(G.EdgeSet() - S, cs)
    {
      var c := FirstCuttingCombination(G, cs, k);
      if c.Some? {
        CombinationMembers(E, k, c.value);
        DistinctCard(c.value);
        assert IsFirstCutting(G.EdgeSet(), cs, Combinations(E, |c.value|), c.value);
        return SetOf(c.value);
      }
    }
    return {};
  }

  /** The search as written skips size 0: when the pairs are already cut and
      the graph has an edge, any result meeting the search's contract has
      exactly one edge, although removing nothing suffices. */
  lemma BruteforceSkipsEmptySet(E: set<Edge>, cs: seq<Pair>, kmax: int, R: set<Edge>, e: Edge)
    requires DisconnectsAll(E, cs) && e in E && kmax >= 1
    requires R <= E
    requires R != {} ==> forall S :: S <= E && 1 <= |S| < |R| ==> !DisconnectsAll(E - S, cs)
    requires R == {} <==> forall S :: S <= E && 1 <= |S| <= kmax ==> !DisconnectsAll(E - S, cs)
    ensures |R| == 1
  {
    forall i | 0 <= i < |cs| ensures !Reaches(E - {e}, cs[i].0, cs[i].1) {
      if Reaches(E - {e}, cs[i].0, cs[i].1) {
        ReachesMono(E - {e}, E, cs[i].0, cs[i].1);
      }
    }
    assert DisconnectsAll(E - {e}, cs);
    assert |{e}| == 1;
  }

  /** The search from k = 0, as its comment intends ("the smallest set"):
      nothing is removed when the pairs are already cut, and a non-empty
      result is a smallest cut of at most kmax edges. */
  method BruteforceMinHitsetFromZero(G: DiGraph, cs: seq<Pair>, kmax: int) returns (R: set<Edge>)
    requires G.Valid() && InGraph(G.nodes, cs)
    ensures R <= G.EdgeSet()
    ensures R != {} ==> DisconnectsAll(G.EdgeSet() - R, cs) && |R| <= kmax
    ensures forall S :: S <= G.EdgeSet() && |S| < |R| ==> !DisconnectsAll(G.EdgeSet() - S, cs)
    ensures DisconnectsAll(G.EdgeSet(), cs) && kmax >= 0 ==> R == {}
    ensures R == {} ==>
      || DisconnectsAll(G.EdgeSet(), cs)
      || forall S :: S <= G.EdgeSet() && |S| <= kmax ==> !DisconnectsAll(G.EdgeSet() - S, cs)
    ensures R != {} ==> exists c :: R == SetOf(c) && |c| == |R| && IsFirstCutting(G.EdgeSet(), cs, Combinations(G.edges, |c|), c)
  {
    var E := G.edges;
    assert G.EdgeSet() - {} == G.EdgeSet();
    for k := 0 to if kmax < 0 then 0 else kmax + 1
      invariant forall S :: S <= G.EdgeSet() && |S| < k ==> !DisconnectsAll(G.EdgeSet() - S, cs)
    {
      var c := FirstCuttingCombination(G, cs, k);
      if c.Some? {
        CombinationMembers(E, k, c.value);
        DistinctCard(c.value);
        assert IsFirstCutting(G.EdgeSet(), cs, Combinations(E, |c.value|), c.value);
        return SetOf(c.value);
      }
    }
    return {};
  }

  /** c is the first of combos whose removal from E disconnects every pair. */
  ghost predicate IsFirstCutting(E: set<Edge>, cs: seq<Pair>, combos: seq<seq<Edge>>, c: seq<Edge>) {
    exists j :: 0 <= j < |combos| && combos[j] == c
      && DisconnectsAll(E - SetOf(c), cs)
      && forall i :: 0 <= i < j ==> !DisconnectsAll(E - SetOf(combos[i]), cs)
  }

  /** The inner loop of the search over `combinations(E, k)`: the first
      combination whose removal from a copy of G disconnects every pair, or
      None, in which case no k-subset of the edges does. */
  method FirstCuttingCombination(G: DiGraph, cs: seq<Pair>, k: nat) returns (c: Option<seq<Edge>>)
    requires G.Valid() && InGraph(G.nodes, cs)
    ensures c.Some? ==> c.value in Combinations(G.edges, k) && DisconnectsAll(G.EdgeSet() - SetOf(c.value), cs)
    ensures c.Some? ==> IsFirstCutting(G.EdgeSet(), cs, Combinations(G.edges, k), c.value)
    ensures c.None? ==> forall S :: S <= G.EdgeSet() && |S| == k ==> !DisconnectsAll(G.EdgeSet() - S, cs)
  {
    var combos := Combinations(G.edges, k);
    var j := FirstCutting(G, cs, combos);
    if j < |combos| {
      return Some(combos[j]);
    }
    NoCombinationCuts(G.edges, G.EdgeSet(), cs, k);
    return None;
  }

  /** The position of the first edge list in combos whose removal from a
      copy of G disconnects every pair; |combos| when there is none. */
  method FirstCutting(G: DiGraph, cs: seq<Pair>, combos: seq<seq<Edge>>) returns (j: nat)
    requires G.Valid() && InGraph(G.nodes, cs)
    ensures j <= |combos|
    ensures j < |combos| ==> DisconnectsAll(G.EdgeSet() - SetOf(combos[j]), cs)
    ensures forall i :: 0 <= i < j ==> !DisconnectsAll(G.EdgeSet() - SetOf(combos[i]), cs)
  {
    j := 0;
    while j < |combos|
      invariant j <= |combos|
      invariant forall i :: 0 <= i < j ==> !DisconnectsAll(G.EdgeSet() - SetOf(combos[i]), cs)
    {
      var ok := AllCutAfterRemoving(G, cs, combos[j]);
      if ok {
        return;
      }
      j := j + 1;
    }
  }

  /** Whether removing R from a copy of G disconnects every pair; G is untouched. */
  method AllCutAfterRemoving(G: DiGraph, cs: seq<Pair>, R: seq<Edge>) returns (ok: bool)
    requires G.Valid() && InGraph(G.nodes, cs)
    ensures ok <==> DisconnectsAll(G.EdgeSet() - SetOf(R), cs)
  {
    var H := G.Copy();
    H.RemoveEdges(R);
    ok := AllPairsCut(H, cs);
  }

  /** When no k-combination of the edge list cuts every pair, no k-subset of
      the edges does. */
  lemma NoCombinationCuts(edges: seq<Edge>, E: set<Edge>, cs: seq<Pair>, k: nat)
    requires Distinct(edges) && E == SetOf(edges)
    requires forall i :: 0 <= i < |Combinations(edges, k)| ==>
      !DisconnectsAll(E - SetOf(Combinations(edges, k)[i]), cs)
    ensures forall S :: S <= E && |S| == k ==> !DisconnectsAll(E - S, cs)
  {
    forall S | S <= E && |S| == k ensures !DisconnectsAll(E - S, cs) {
      var x := CombinationsComplete(edges, k, S);
      var i :| 0 <= i < |Combinations(edges, k)| && Combinations(edges, k)[i] == x;
    }
  }

}
