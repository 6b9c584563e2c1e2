/** The adapter that runs the removal strategies on a JSON graph description:
    the constraint list of the loader, the reachability pruning of the
    brute-force multi-cut, the min-cut union and the algorithm-name table. */
module KonstantinAdapter {
  import opened Basics
  import opened Paths
  import opened Graphs
  import opened Itertools
  import opened Oracles
  import opened Strings

  // ----- loading -----

  /** The constraints `_load_graph` builds: (s, target) for each listed start
      s, in the order of the list, when s and the target are nodes of G. A
      description without a target yields none. */
  function LoadConstraints(nodes: seq<Node>, starts: seq<Node>, target: Option<Node>): (r: seq<Pair>)
    ensures forall p :: p in r <==> p.0 in starts && p.0 in nodes && target == Some(p.1) && p.1 in nodes
    ensures |r| <= |starts|
    ensures forall i :: 0 <= i < |r| ==> target == Some(r[i].1)
    ensures IsSubsequence(StartsOf(r), starts)
  {
    if starts == [] then []
    else
      var rest := LoadConstraints(nodes, starts[1..], target);
      if starts[0] in nodes && target.Some? && target.value in nodes then
        var r := [(starts[0], target.value)] + rest;
        assert StartsOf(r)[1..] == StartsOf(rest);
        r
      else
        assert IsSubsequence(StartsOf(rest), starts) by {
          if StartsOf(rest) != [] {
            assert IsSubsequence(StartsOf(rest), starts[1..]);
          }
        }
        rest
  }

  /** The starts of the loaded constraints are exactly the listed starts
      that are nodes, in list order and with repeats, when the target is a
      node; there are none otherwise. */
  lemma {:induction false} LoadConstraintsStarts(nodes: seq<Node>, starts: seq<Node>, target: Option<Node>)
    ensures StartsOf(LoadConstraints(nodes, starts, target))
         == if target.Some? && target.value in nodes then Among(nodes, starts) else []
  {
    if starts != [] {
      LoadConstraintsStarts(nodes, starts[1..], target);
      AmongCons(nodes, starts);
      var r := LoadConstraints(nodes, starts, target);
      var rest := LoadConstraints(nodes, starts[1..], target);
      if starts[0] in nodes && target.Some? && target.value in nodes {
        assert r == [(starts[0], target.value)] + rest;
        assert StartsOf(r) == [starts[0]] + StartsOf(rest);
      } else {
        assert r == rest;
      }
    }
  }

  /** `[s for s, _ in constraints]`. */
  function StartsOf(cs: seq<Pair>): (r: seq<Node>)
    ensures |r| == |cs|
    ensures forall i :: 0 <= i < |cs| ==> r[i] == cs[i].0
  {
    seq(|cs|, i requires 0 <= i < |cs| => cs[i].0)
  }

  // ----- graph queries -----

  /** Every constraint with both endpoints in the graph is cut. */
  ghost predicate DisconnectsPresent(nodes: seq<Node>, E: set<Edge>, cs: seq<Pair>) {
    forall i :: 0 <= i < |cs| && cs[i].0 in nodes && cs[i].1 in nodes ==> !Reaches(E, cs[i].0, cs[i].1)
  }

  /** `_disconnects_all`: false at the first pair of graph nodes with a path. */
  method DisconnectsAll(G: DiGraph, cs: seq<Pair>) returns (b: bool)
    ensures b <==> DisconnectsPresent(G.nodes, G.EdgeSet(), cs)
  {
    var E := G.EdgeSet();
    for i := 0 to |cs|
      invariant forall j :: 0 <= j < i && cs[j].0 in G.nodes && cs[j].1 in G.nodes ==> !Reaches(E, cs[j].0, cs[j].1)
    {
      var (s, t) := cs[i];
      if s in G.nodes && t in G.nodes {
        var p := PathExists(E, s, t);
        if p {
          return false;
        }
      }
    }
    return true;
  }

  /** `_reachable_from_sources`: the sources present in G and every node
      they reach; a source outside G is skipped. */
  method ReachableFromSources(G: DiGraph, sources: seq<Node>) returns (seen: set<Node>)
    ensures forall n :: n in seen <==> exists s :: s in sources && s in G.nodes && Reaches(G.EdgeSet(), s, n)
  {
    var E := G.EdgeSet();
    seen := {};
    for i := 0 to |sources|
      invariant forall n :: n in seen <==> exists s :: s in sources[..i] && s in G.nodes && Reaches(E, s, n)
    {
      var s := sources[i];
      assert sources[..i + 1] == sources[..i] + [sources[i]];
      if s !in G.nodes {
        continue;
      }
      var d := FindDescendants(E, s);
      ReachesRefl(E, s);
      seen := seen + (d + {s});
    }
    assert sources[..|sources|] == sources;
  }

  /** `_reachable_to_target`: the target and every node that reaches it, by
      descendants in the reversed graph; empty when the target is absent. */
  function ReachableToTarget(G: DiGraph, target: Node): (r: set<Node>)
    reads G
    ensures forall n :: n in r <==> target in G.nodes && Reaches(G.EdgeSet(), n, target)
  {
    if target !in G.nodes then {}
    else
      var E := G.EdgeSet();
      var r := Descendants(Reverse(E), target) + {target};
      assert forall n :: n in r <==> Reaches(E, n, target) by {
        forall n ensures n in r <==> Reaches(E, n, target) {
          ReverseReaches(E, n, target);
          ReachesRefl(E, target);
        }
      }
      r
  }

  // ----- min-cut union -----

  /** The edges of E running from side S to side T. */
  function Crossing(E: set<Edge>, S: set<Node>, T: set<Node>): (r: set<Edge>)
    ensures forall e :: e in r <==> e in E && e.0 in S && e.1 in T
  {
    set e | e in E && e.0 in S && e.1 in T
  }

  /** The crossing edges of the partition `minimum_cut` returns for p. */
  ghost function PairCut(N: set<Node>, E: set<Edge>, p: Pair,
                         part: (set<Node>, set<Edge>, Node, Node) -> (set<Node>, set<Node>)): set<Edge>
  {
    Crossing(E, part(N, E, p.0, p.1).0, part(N, E, p.0, p.1).1)
  }

  /** `_fast_min_cut_union`: for each pair of graph nodes, add the edges of G
      from side S to side T of its minimum cut. A pair of a node and itself
      makes `minimum_cut` raise, and the exception escapes. */
  method FastMinCutUnion(G: DiGraph, cs: seq<Pair>,
                         part: (set<Node>, set<Edge>, Node, Node) -> (set<Node>, set<Node>))
    returns (r: Result<set<Edge>>)
    requires G.Valid() && ValidCutPartition(part)
    ensures r.Err? <==> exists i :: 0 <= i < |cs| && cs[i].0 == cs[i].1 && cs[i].0 in G.nodes
    ensures r.Err? ==> r.error.SameSourceSink?
    ensures r.Ok? ==> forall e :: e in r.value <==>
      exists i :: 0 <= i < |cs| && cs[i].0 in G.nodes && cs[i].1 in G.nodes &&
        e in PairCut(SetOf(G.nodes), G.EdgeSet(), cs[i], part)
    ensures r.Ok? ==> r.value <= G.EdgeSet()
    ensures r.Ok? ==> DisconnectsPresent(G.nodes, G.EdgeSet() - r.value, cs)
    ensures r.Ok? ==> forall e :: e in r.value ==>
      exists i :: 0 <= i < |cs| && cs[i].0 in G.nodes && Reaches(G.EdgeSet(), cs[i].0, cs[i].1) &&
                  e in PairCut(SetOf(G.nodes), G.EdgeSet(), cs[i], part)
  {
    var N, E := SetOf(G.nodes), G.EdgeSet();
    var removed: set<Edge> := {};
    for i := 0 to |cs|
      invariant forall j :: 0 <= j < i ==> !(cs[j].0 == cs[j].1 && cs[j].0 in G.nodes)
      invariant forall e :: e in removed <==>
        exists j :: 0 <= j < i && cs[j].0 in G.nodes && cs[j].1 in G.nodes && e in PairCut(N, E, cs[j], part)
    {
      var (s, t) := cs[i];
      if s !in G.nodes || t !in G.nodes {
        continue;
      }
      if s == t {
        return Err(SameSourceSink(s));
      }
      var (S, T) := part(N, E, s, t);
      removed := AddCrossing(removed, G.edges, S, T);
      assert Crossing(E, S, T) == PairCut(N, E, cs[i], part);
    }
    CutUnionDisconnects(G, cs, part, removed);
    forall e | e in removed
      ensures exists i :: 0 <= i < |cs| && cs[i].0 in G.nodes && Reaches(E, cs[i].0, cs[i].1) &&
                          e in PairCut(N, E, cs[i], part)
    {
      var j :| 0 <= j < |cs| && cs[j].0 in G.nodes && cs[j].1 in G.nodes && e in PairCut(N, E, cs[j], part);
    }
    return Ok(removed);
  }

  /** A pair of distinct nodes with no path between them has no crossing
      edge: it adds nothing to the union. */
  lemma PairCutUnreachable(N: set<Node>, E: set<Edge>, p: Pair,
                           part: (set<Node>, set<Edge>, Node, Node) -> (set<Node>, set<Node>))
    requires ValidCutPartition(part)
    requires p.0 in N && p.1 in N && p.0 != p.1 && !Reaches(E, p.0, p.1)
    ensures PairCut(N, E, p, part) == {}
  {
    var (S, T) := part(N, E, p.0, p.1);
    assert forall e: Edge :: e in E ==> !(e.0 in S && e.1 in T);
  }

  /** The edges of G, scanned in order, that run from side S into side T,
      added to removed0. */
  method AddCrossing(removed0: set<Edge>, edges: seq<Edge>, S: set<Node>, T: set<Node>)
    returns (removed: set<Edge>)
    ensures removed == removed0 + Crossing(SetOf(edges), S, T)
  {
    removed := removed0;
    for j := 0 to |edges|
      invariant removed == removed0 + Crossing(SetOf(edges[..j]), S, T)
    {
      var (u, v) := edges[j];
      assert edges[..j + 1] == edges[..j] + [edges[j]];
      if u in S && v in T {
        removed := removed + {(u, v)};
      }
    }
    assert edges[..|edges|] == edges;
  }

  /** The union of the crossing edges cuts every pair of two graph nodes. */
  lemma CutUnionDisconnects(G: DiGraph, cs: seq<Pair>,
                            part: (set<Node>, set<Edge>, Node, Node) -> (set<Node>, set<Node>), R: set<Edge>)
    requires G.Valid() && ValidCutPartition(part)
    requires forall i :: 0 <= i < |cs| ==> !(cs[i].0 == cs[i].1 && cs[i].0 in G.nodes)
    requires forall i :: 0 <= i < |cs| && cs[i].0 in G.nodes && cs[i].1 in G.nodes ==>
      PairCut(SetOf(G.nodes), G.EdgeSet(), cs[i], part) <= R
    ensures DisconnectsPresent(G.nodes, G.EdgeSet() - R, cs)
  {
    var N, E := SetOf(G.nodes), G.EdgeSet();
    forall i | 0 <= i < |cs| && cs[i].0 in G.nodes && cs[i].1 in G.nodes
      ensures !Reaches(E - R, cs[i].0, cs[i].1)
    {
      var (s, t) := cs[i];
      var (S, T) := part(N, E, s, t);
      assert Crossing(E, S, T) == set e | e in E && e.0 in S && e.1 in T;
      CrossingCutSeparates(E, S, T, s, t);
      if Reaches(E - R, s, t) {
        ReachesMono(E - R, E - Crossing(E, S, T), s, t);
      }
    }
  }

  // ----- brute-force multi-cut -----

  /** Edge e leaves a node reachable from a start in G and enters a node that
      reaches a target in G. */
  ghost predicate IsCandidate(nodes: seq<Node>, E: set<Edge>, cs: seq<Pair>, e: Edge) {
    && (exists i :: 0 <= i < |cs| && cs[i].0 in nodes && Reaches(E, cs[i].0, e.0))
    && (exists j :: 0 <= j < |cs| && cs[j].1 in nodes && Reaches(E, e.1, cs[j].1))
  }

  /** IsCandidate as a test on edges. */
  ghost function CandidateTest(nodes: seq<Node>, E: set<Edge>, cs: seq<Pair>): Edge -> bool {
    e => IsCandidate(nodes, E, cs, e)
  }

  /** The candidate edges in the order of `edges`, each at its first
      occurrence. */
  ghost function CandidateList(nodes: seq<Node>, E: set<Edge>, cs: seq<Pair>, edges: seq<Edge>): seq<Edge> {
    Dedup(Filter(edges, CandidateTest(nodes, E, cs)))
  }

  /** The candidate list of `_bruteforce_min_multi_cut`: the edges of G, in
      `G.edges()` order, from the forward-reachable set into the
      backward-reachable set, without repeats. */
  method Candidates(G: DiGraph, cs: seq<Pair>) returns (cands: seq<Edge>)
    requires G.Valid()
    ensures cands == CandidateList(G.nodes, G.EdgeSet(), cs, G.edges)
    ensures Distinct(cands)
    ensures forall e :: e in cands <==> e in G.EdgeSet() && IsCandidate(G.nodes, G.EdgeSet(), cs, e)
  {
    var fromS := ReachableFromSources(G, StartsOf(cs));
    var toT := ReachableToTargets(G, set p | p in cs :: p.1);
    var keep := (e: Edge) => e.0 in fromS && e.1 in toT;
    var pruned := Filter(G.edges, keep);
    cands := Dedup(pruned);
    ghost var test := CandidateTest(G.nodes, G.EdgeSet(), cs);
    forall e: Edge ensures keep(e) == test(e) {
      CandidateSides(G.nodes, G.EdgeSet(), cs, fromS, toT, e);
    }
    FilterCongruent(G.edges, keep, test);
  }

  /** The union of `_reachable_to_target` over a set of targets. */
  method ReachableToTargets(G: DiGraph, targets: set<Node>) returns (toT: set<Node>)
    ensures forall n :: n in toT <==> exists t :: t in targets && t in G.nodes && Reaches(G.EdgeSet(), n, t)
  {
    toT := {};
    var todo := targets;
    while todo != {}
      invariant todo <= targets
      invariant forall n :: n in toT <==>
        exists t :: t in targets - todo && t in G.nodes && Reaches(G.EdgeSet(), n, t)
      decreases |todo|
    {
      var t :| t in todo;
      toT := toT + ReachableToTarget(G, t);
      todo := todo - {t};
    }
  }

  /** Membership in the two reachable sets is the candidate condition. */
  lemma CandidateSides(nodes: seq<Node>, E: set<Edge>, cs: seq<Pair>, fromS: set<Node>, toT: set<Node>, e: Edge)
    requires forall n :: n in fromS <==> exists s :: s in StartsOf(cs) && s in nodes && Reaches(E, s, n)
    requires forall n :: n in toT <==> exists t :: t in (set p | p in cs :: p.1) && t in nodes && Reaches(E, n, t)
    ensures e.0 in fromS && e.1 in toT <==> IsCandidate(nodes, E, cs, e)
  {
    if e.0 in fromS {
      var s :| s in StartsOf(cs) && s in nodes && Reaches(E, s, e.0);
      var i :| 0 <= i < |cs| && StartsOf(cs)[i] == s;
    }
    if e.1 in toT {
      var t :| t in (set p | p in cs :: p.1) && t in nodes && Reaches(E, e.1, t);
      var p :| p in cs && p.1 == t;
      var j :| 0 <= j < |cs| && cs[j] == p;
    }
    if IsCandidate(nodes, E, cs, e) {
      var i :| 0 <= i < |cs| && cs[i].0 in nodes && Reaches(E, cs[i].0, e.0);
      var j :| 0 <= j < |cs| && cs[j].1 in nodes && Reaches(E, e.1, cs[j].1);
      assert StartsOf(cs)[i] in StartsOf(cs);
      assert cs[j].1 in (set p | p in cs :: p.1);
    }
  }

  /** Each step of a path from s to t inside F lies between a node s reaches
      and a node that reaches t, in any E containing F. */
  lemma PathStepReach(E: set<Edge>, F: set<Edge>, p: seq<Node>, s: Node, t: Node, j: nat)
    requires F <= E && IsPathFromTo(F, p, s, t) && j < |p| - 1
    ensures Reaches(E, s, p[j]) && Reaches(E, p[j + 1], t)
  {
    assert IsPathFromTo(E, p[..j + 1], s, p[j]);
    assert IsPathFromTo(E, p[j + 1..], p[j + 1], t);
  }

  /** The pruning loses no cut: if removing S cuts every pair, removing only
      its candidate edges does too. */
  lemma PruneKeepsCut(nodes: seq<Node>, E: set<Edge>, cs: seq<Pair>, C: set<Edge>, S: set<Edge>)
    requires forall e :: e in E && IsCandidate(nodes, E, cs, e) ==> e in C
    requires DisconnectsPresent(nodes, E - S, cs)
    ensures DisconnectsPresent(nodes, E - (S * C), cs)
  {
    forall i | 0 <= i < |cs| && cs[i].0 in nodes && cs[i].1 in nodes
      ensures !Reaches(E - (S * C), cs[i].0, cs[i].1)
    {
      var (s, t) := cs[i];
      if Reaches(E - (S * C), s, t) {
        var p :| IsPathFromTo(E - (S * C), p, s, t);
        forall j | 0 <= j < |p| - 1 ensures (p[j], p[j + 1]) in E - S {
          PathStepReach(E, E - (S * C), p, s, t, j);
          assert IsCandidate(nodes, E, cs, (p[j], p[j + 1]));
        }
        assert IsPathFromTo(E - S, p, s, t);
      }
    }
  }

  /** c is the first of combos whose removal from E cuts every pair. */
  ghost predicate IsFirstCutting(nodes: seq<Node>, E: set<Edge>, cs: seq<Pair>, combos: seq<seq<Edge>>, c: seq<Edge>) {
    exists j :: 0 <= j < |combos| && combos[j] == c
      && DisconnectsPresent(nodes, E - SetOf(c), cs)
      && forall i :: 0 <= i < j ==> !DisconnectsPresent(nodes, E - SetOf(combos[i]), cs)
  }

  /** Some pair is a graph node paired with itself. */
  ghost predicate HasSelfPair(nodes: seq<Node>, cs: seq<Pair>) {
    exists i :: 0 <= i < |cs| && cs[i].0 == cs[i].1 && cs[i].0 in nodes
  }

  /** R holds exactly the crossing edges of the minimum cuts of the pairs of
      two graph nodes. */
  ghost predicate IsCutUnion(nodes: seq<Node>, E: set<Edge>, cs: seq<Pair>,
                             part: (set<Node>, set<Edge>, Node, Node) -> (set<Node>, set<Node>), R: set<Edge>) {
    forall e :: e in R <==>
      exists i :: 0 <= i < |cs| && cs[i].0 in nodes && cs[i].1 in nodes &&
        e in PairCut(SetOf(nodes), E, cs[i], part)
  }

  /** No removal of at most k edges cuts every pair. */
  ghost predicate NoCutWithin(nodes: seq<Node>, E: set<Edge>, cs: seq<Pair>, k: int) {
    forall S :: S <= E && |S| <= k ==> !DisconnectsPresent(nodes, E - S, cs)
  }

  /** Removing R cuts every pair, and no smaller removal does. */
  ghost predicate MinimalCut(nodes: seq<Node>, E: set<Edge>, cs: seq<Pair>, R: set<Edge>) {
    && R <= E
    && DisconnectsPresent(nodes, E - R, cs)
    && forall S :: S <= E && |S| < |R| ==> !DisconnectsPresent(nodes, E - S, cs)
  }

  /** `_bruteforce_min_multi_cut`: nothing when the pairs are already cut;
      otherwise the first combination of candidates, for k = 1 .. kmax, whose
      removal from a copy of G cuts every pair; failing that, the min-cut
      union. A result of the search is a smallest cut among all edge sets,
      candidates or not. */
  method BruteforceMinMultiCut(G: DiGraph, cs: seq<Pair>, kmax: int,
                               part: (set<Node>, set<Edge>, Node, Node) -> (set<Node>, set<Node>))
    returns (r: Result<set<Edge>>)
    requires G.Valid() && ValidCutPartition(part)
    ensures DisconnectsPresent(G.nodes, G.EdgeSet(), cs) ==> r == Ok({})
    ensures r.Ok? ==> r.value <= G.EdgeSet() && DisconnectsPresent(G.nodes, G.EdgeSet() - r.value, cs)
    ensures r.Ok? ==> (MinimalCut(G.nodes, G.EdgeSet(), cs, r.value) && |r.value| <= if kmax < 0 then 0 else kmax)
                      || NoCutWithin(G.nodes, G.EdgeSet(), cs, kmax)
    ensures r.Err? ==> r.error.SameSourceSink? && NoCutWithin(G.nodes, G.EdgeSet(), cs, kmax)
    ensures !DisconnectsPresent(G.nodes, G.EdgeSet(), cs) && !NoCutWithin(G.nodes, G.EdgeSet(), cs, kmax) ==>
      && r.Ok?
      && exists c :: r.value == SetOf(c) && |c| == |r.value| &&
           IsFirstCutting(G.nodes, G.EdgeSet(), cs, Combinations(CandidateList(G.nodes, G.EdgeSet(), cs, G.edges), |c|), c)
    ensures !DisconnectsPresent(G.nodes, G.EdgeSet(), cs) && NoCutWithin(G.nodes, G.EdgeSet(), cs, kmax) ==>
      (r.Err? <==> HasSelfPair(G.nodes, cs)) &&
      (r.Ok? ==> IsCutUnion(G.nodes, G.EdgeSet(), cs, part, r.value))
  {
    var cands := Candidates(G, cs);
    var done := DisconnectsAll(G, cs);
    if done {
      assert G.EdgeSet() - {} == G.EdgeSet();
      return Ok({});
    }
    ghost var E := G.EdgeSet();
    assert E - {} == E;
    for k := 1 to if kmax < 1 then 1 else kmax + 1
      invariant NoCutWithin(G.nodes, E, cs, k - 1)
    {
      var c := FirstCuttingCandidates(G, cs, cands, k);
      if c.Some? {
        CombinationMembers(cands, k, c.value);
        DistinctCard(c.value);
        r := Ok(SetOf(c.value));
        assert IsFirstCutting(G.nodes, E, cs, Combinations(cands, |c.value|), c.value);
        return;
      }
      NoCutGrows(G.nodes, E, cs, SetOf(cands), k);
    }
    r := FastMinCutUnion(G, cs, part);
  }

  /** If no candidate set of size k cuts every pair and no set below size k
      does, then no set of size at most k does. */
  lemma NoCutGrows(nodes: seq<Node>, E: set<Edge>, cs: seq<Pair>, C: set<Edge>, k: nat)
    requires forall e :: e in E && IsCandidate(nodes, E, cs, e) ==> e in C
    requires NoCutWithin(nodes, E, cs, k - 1)
    requires forall S :: S <= C && |S| == k ==> !DisconnectsPresent(nodes, E - S, cs)
    ensures NoCutWithin(nodes, E, cs, k)
  {
    forall S | S <= E && |S| <= k ensures !DisconnectsPresent(nodes, E - S, cs) {
      if DisconnectsPresent(nodes, E - S, cs) {
        PruneKeepsCut(nodes, E, cs, C, S);
        SubsetCardLe(S * C, S);
      }
    }
  }

  /** Whether removing R from a copy of G cuts every pair; G is untouched. */
  method CutsAfterRemoving(G: DiGraph, cs: seq<Pair>, R: seq<Edge>) returns (ok: bool)
    requires G.Valid()
    ensures ok <==> DisconnectsPresent(G.nodes, G.EdgeSet() - SetOf(R), cs)
  {
    var H := G.Copy();
    H.RemoveEdges(R);
    ok := DisconnectsAll(H, cs);
  }

  /** The position of the first edge list in combos whose removal from a
      copy of G cuts every pair; |combos| when there is none. */
  method FirstCutting(G: DiGraph, cs: seq<Pair>, combos: seq<seq<Edge>>) returns (j: nat)
    requires G.Valid()
    ensures j <= |combos|
    ensures j < |combos| ==> DisconnectsPresent(G.nodes, G.EdgeSet() - SetOf(combos[j]), cs)
    ensures forall i :: 0 <= i < j ==> !DisconnectsPresent(G.nodes, G.EdgeSet() - SetOf(combos[i]), cs)
  {
    j := 0;
    while j < |combos|
      invariant j <= |combos|
      invariant forall i :: 0 <= i < j ==> !DisconnectsPresent(G.nodes, G.EdgeSet() - SetOf(combos[i]), cs)
    {
      var ok := CutsAfterRemoving(G, cs, combos[j]);
      if ok {
        return;
      }
      j := j + 1;
    }
  }

  /** The inner loop of the search over `combinations(candidates, k)`: the
      first combination whose removal from a copy of G cuts every pair, or
      None when no k-subset of the candidates does. */
  method FirstCuttingCandidates(G: DiGraph, cs: seq<Pair>, cands: seq<Edge>, k: nat) returns (c: Option<seq<Edge>>)
    requires G.Valid() && Distinct(cands)
    ensures c.Some? ==> c.value in Combinations(cands, k) && DisconnectsPresent(G.nodes, G.EdgeSet() - SetOf(c.value), cs)
    ensures c.Some? ==> IsFirstCutting(G.nodes, G.EdgeSet(), cs, Combinations(cands, k), c.value)
    ensures c.None? ==> forall S :: S <= SetOf(cands) && |S| == k ==> !DisconnectsPresent(G.nodes, G.EdgeSet() - S, cs)
  {
    var combos := Combinations(cands, k);
    var j := FirstCutting(G, cs, combos);
    if j < |combos| {
      return Some(combos[j]);
    }
    NoCombinationCuts(G.nodes, G.EdgeSet(), cs, cands, k);
    return None;
  }

  /** When no k-combination of the candidates cuts every pair, no k-subset
      of the candidates does. */
  lemma NoCombinationCuts(nodes: seq<Node>, E: set<Edge>, cs: seq<Pair>, cands: seq<Edge>, k: nat)
    requires Distinct(cands)
    requires forall i :: 0 <= i < |Combinations(cands, k)| ==>
      !DisconnectsPresent(nodes, E - SetOf(Combinations(cands, k)[i]), cs)
    ensures forall S :: S <= SetOf(cands) && |S| == k ==> !DisconnectsPresent(nodes, E - S, cs)
  {
    forall S | S <= SetOf(cands) && |S| == k ensures !DisconnectsPresent(nodes, E - S, cs) {
      var x := CombinationsComplete(cands, k, S);
      var i :| 0 <= i < |Combinations(cands, k)| && Combinations(cands, k)[i] == x;
    }
  }

  // ----- algorithm names -----

  /** `_NAME_MAP`: the accepted spellings and the strategy each selects. */
  const NAME_MAP: map<string, string> := map[
    "remove random edge" := "random_edge",
    "remove first edge" := "first_edge",
    "remove min-cut" := "min_cut_union",
    "remove minmc" := "minmc_union",
    "brute force" := "bruteforce",
    "random_edge" := "random_edge",
    "first_edge" := "first_edge",
    "st_cut" := "min_cut_union",
    "optimisation_approx" := "minmc_union",
    "bruteforce" := "bruteforce",
    "matrix_bruteforce" := "bruteforce",
    "disconnect" := "disconnect"
  ]

  /** The strategies a name can select. */
  const STRATEGIES: set<string> := {"random_edge", "first_edge", "min_cut_union", "minmc_union", "bruteforce", "disconnect"}

  /** `(name or "").strip().lower()`. */
  function AlgoKey(name: Option<string>): string {
    Lower(Strip(if name.Some? then name.value else ""))
  }

  /** Every listed spelling selects one of the strategies. */
  lemma NameMapTargets()
    ensures forall k :: k in NAME_MAP ==> NAME_MAP[k] in STRATEGIES
  {
  }

  /** The `_NAME_MAP` lookup of a key; ValueError naming the original name
      when the key is unknown. */
  function LookupAlgo(key: string, shown: string): (r: Result<string>)
    ensures r.Ok? <==> key in NAME_MAP
    ensures r.Ok? ==> r.value == NAME_MAP[key] && r.value in STRATEGIES
    ensures r.Err? ==> r.error == UnknownAlgorithm(shown)
  {
    NameMapTargets();
    if key in NAME_MAP then Ok(NAME_MAP[key]) else Err(UnknownAlgorithm(shown))
  }

  /** `_normalize_algo_name`: the strategy for a known spelling, whatever its
      case and surrounding whitespace; ValueError for any other name. */
  function NormalizeAlgoName(name: Option<string>): (r: Result<string>)
    ensures r.Ok? <==> AlgoKey(name) in NAME_MAP
    ensures r.Ok? ==> r.value == NAME_MAP[AlgoKey(name)] && r.value in STRATEGIES
    ensures r.Err? ==> r.error == UnknownAlgorithm(if name.Some? then name.value else "None")
  {
    LookupAlgo(AlgoKey(name), if name.Some? then name.value else "None")
  }

  /** Normalising an already normalised key gives the same answer. */
  lemma NormalizeKeyStable(name: Option<string>)
    ensures NormalizeAlgoName(Some(AlgoKey(name))).Ok? == NormalizeAlgoName(name).Ok?
    ensures NormalizeAlgoName(name).Ok? ==> NormalizeAlgoName(Some(AlgoKey(name))) == NormalizeAlgoName(name)
  {
    AlgoKeyTwice(name);
  }

  /** The key of a key is the key itself. */
  lemma AlgoKeyTwice(name: Option<string>)
    ensures AlgoKey(Some(AlgoKey(name))) == AlgoKey(name)
  {
    StripLowerIdempotent(if name.Some? then name.value else "");
  }

  /** Lower-case letters, blanks, `_` and `-`, with no blank at either end. */
  predicate IsNormalKey(k: string) {
    && k != [] && k[0] != ' ' && k[|k| - 1] != ' '
    && forall i :: 0 <= i < |k| ==> 'a' <= k[i] <= 'z' || k[i] == ' ' || k[i] == '_' || k[i] == '-'
  }

  /** A key in normal form is its own key. */
  lemma NormalKey(k: string)
    requires IsNormalKey(k)
    ensures AlgoKey(Some(k)) == k
  {
    StripStripped(k);
    assert Lower(k) == k;
  }

  /** Every listed spelling is in normal form. */
  lemma NameMapKeysNormal()
    ensures forall k :: k in NAME_MAP ==> IsNormalKey(k)
  {
    PhraseKeysNormal();
    StrategyKeysNormal();
  }

  lemma PhraseKeysNormal()
    ensures IsNormalKey("remove random edge") && IsNormalKey("remove first edge")
    ensures IsNormalKey("remove min-cut") && IsNormalKey("remove minmc") && IsNormalKey("brute force")
  {
  }

  lemma StrategyKeysNormal()
    ensures IsNormalKey("random_edge") && IsNormalKey("first_edge") && IsNormalKey("st_cut")
    ensures IsNormalKey("optimisation_approx") && IsNormalKey("bruteforce")
    ensures IsNormalKey("matrix_bruteforce") && IsNormalKey("disconnect")
  {
  }

  /** Every listed spelling is accepted as written. */
  lemma KnownNamesAccepted()
    ensures forall k :: k in NAME_MAP ==> NormalizeAlgoName(Some(k)) == Ok(NAME_MAP[k])
  {
    NameMapKeysNormal();
    forall k | k in NAME_MAP ensures NormalizeAlgoName(Some(k)) == Ok(NAME_MAP[k]) {
      NormalKey(k);
    }
  }
}
