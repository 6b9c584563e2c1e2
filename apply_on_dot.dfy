/** The consent-edge heuristics run on the dot graph of the consent banner:
    services and consent sources are recognised by their names, and each
    strategy picks consent→service edges to delete. */
module ApplyOnDot {
  import opened Basics
  import opened Strings
  import opened Sorting
  import opened Itertools

  /** The graph `from_pydot` builds from the dot file: node names in insertion
      order and one entry per edge, a parallel edge listed once per copy. */
  datatype MultiGraph = MultiGraph(nodes: seq<Node>, edges: seq<Edge>)

  predicate IsServiceName(n: Node) {
    EndsWith(n, "Svc")
  }

  predicate IsConsentName(n: Node) {
    n == "AcceptAll" || n == "Save" || StartsWith(n, "Acc")
  }

  /** `detect_services`: the nodes whose name ends in "Svc", sorted. */
  function DetectServices(G: MultiGraph): (r: seq<Node>)
    ensures forall n :: n in r <==> n in G.nodes && IsServiceName(n)
    ensures Ordered(r, Less)
    ensures Distinct(G.nodes) ==> Increasing(r, Less)
  {
    LessIsStrictTotalOrder();
    Sort(Filter(G.nodes, IsServiceName), Less)
  }

  /** `detect_consent_sources`: AcceptAll, Save and the Acc* nodes, as a sorted set. */
  function DetectConsentSources(G: MultiGraph): (r: seq<Node>)
    ensures forall n :: n in r <==> n in G.nodes && IsConsentName(n)
    ensures Increasing(r, Less)
  {
    LessIsStrictTotalOrder();
    Sort(Dedup(Filter(G.nodes, IsConsentName)), Less)
  }

  predicate IsConsentEdge(srcs: seq<Node>, services: seq<Node>, e: Edge) {
    e.0 in srcs && e.1 in services
  }

  /** `consent_edges`: the edges from a consent source into a service, as a sorted set. */
  function ConsentEdges(G: MultiGraph, srcs: seq<Node>, services: seq<Node>): (r: seq<Edge>)
    ensures forall e :: e in r <==> e in G.edges && IsConsentEdge(srcs, services, e)
    ensures Increasing(r, EdgeLess)
    ensures Distinct(r)
  {
    EdgeLessIsStrictTotalOrder();
    Sort(Dedup(Filter(G.edges, e => IsConsentEdge(srcs, services, e))), EdgeLess)
  }

  /** `alg_remove_first`: every consent edge is cut. */
  function AlgRemoveFirst(G: MultiGraph, srcs: seq<Node>, services: seq<Node>): (r: seq<Edge>)
    ensures forall e :: e in r <==> e in G.edges && IsConsentEdge(srcs, services, e)
    ensures Increasing(r, EdgeLess)
  {
    ConsentEdges(G, srcs, services)
  }

  /** How many copies of e the graph holds when e is a consent edge; 0 otherwise. */
  function ConsentCopies(G: MultiGraph, srcs: seq<Node>, services: seq<Node>, e: Edge): nat {
    if IsConsentEdge(srcs, services, e) then multiset(G.edges)[e] else 0
  }

  /** `alg_remove_random`: on a copy of the graph, draw a consent edge that is
      still present and delete one copy of it, until none is left. The i-th
      `rng.choice` is the i-th draw taken modulo the number of candidates.
      Every copy of every consent edge is removed, and nothing else. */
  method AlgRemoveRandom(G: MultiGraph, srcs: seq<Node>, services: seq<Node>, draws: nat -> nat)
    returns (removed: seq<Edge>)
    ensures forall e :: multiset(removed)[e] == ConsentCopies(G, srcs, services, e)
  {
    var E := ConsentEdges(G, srcs, services);
    removed := [];
    var H := multiset(G.edges);
    var round := 0;
    while true
      invariant forall e :: e in E ==> IsConsentEdge(srcs, services, e)
      invariant forall e :: e in H && IsConsentEdge(srcs, services, e) ==> e in E
      invariant multiset(removed) + H == multiset(G.edges)
      invariant forall e :: e in removed ==> IsConsentEdge(srcs, services, e)
      decreases |H|
    {
      var pick;
      E, pick := DrawPresent(E, H, draws(round));
      if pick.None? {
        break;
      }
      var e := pick.value;
      TakeOne(removed, H, e);
      H := H - multiset{e};
      removed := removed + [e];
      round := round + 1;
    }
    AllCopiesRemoved(G, srcs, services, removed, H);
  }

  /** Moving one copy of e from H to the end of removed keeps their union
      and shrinks H. */
  lemma TakeOne(removed: seq<Edge>, H: multiset<Edge>, e: Edge)
    requires e in H
    ensures multiset(removed + [e]) + (H - multiset{e}) == multiset(removed) + H
    ensures |H - multiset{e}| < |H|
    ensures forall x :: x in H - multiset{e} ==> x in H
  {
    assert H == (H - multiset{e}) + multiset{e};
  }

  /** One round of `alg_remove_random`: keep the candidates still present in
      H, and pick the one at the drawn index, if any are left. */
  method DrawPresent(E: seq<Edge>, H: multiset<Edge>, d: nat) returns (E': seq<Edge>, pick: Option<Edge>)
    ensures forall x :: x in E' <==> x in E && x in H
    ensures pick.None? <==> E' == []
    ensures pick.Some? ==> pick.value == E'[d % |E'|] && pick.value in H
  {
    var present := (x: Edge) => x in H;
    E' := Filter(E, present);
    if E' == [] {
      return E', None;
    }
    assert E'[d % |E'|] in E';
    return E', Some(E'[d % |E'|]);
  }

  /** Once no consent edge is left in what remains of the graph, and only
      consent edges were taken out, every copy of each consent edge was
      taken out. */
  lemma AllCopiesRemoved(G: MultiGraph, srcs: seq<Node>, services: seq<Node>, removed: seq<Edge>, H: multiset<Edge>)
    requires multiset(removed) + H == multiset(G.edges)
    requires forall e :: e in removed ==> IsConsentEdge(srcs, services, e)
    requires forall e :: e in H ==> !IsConsentEdge(srcs, services, e)
    ensures forall e :: multiset(removed)[e] == ConsentCopies(G, srcs, services, e)
  {
    forall e ensures multiset(removed)[e] == ConsentCopies(G, srcs, services, e) {
      if IsConsentEdge(srcs, services, e) {
        assert e !in H;
      } else {
        assert e !in removed;
      }
    }
  }

  /** On a graph without parallel edges the random strategy removes each
      consent edge exactly once: a permutation of `consent_edges`. */
  lemma RemoveRandomPermutation(G: MultiGraph, srcs: seq<Node>, services: seq<Node>, removed: seq<Edge>)
    requires Distinct(G.edges)
    requires forall e :: multiset(removed)[e] == ConsentCopies(G, srcs, services, e)
    ensures multiset(removed) == multiset(ConsentEdges(G, srcs, services))
  {
    var C := ConsentEdges(G, srcs, services);
    forall e ensures multiset(removed)[e] == multiset(C)[e] {
      DistinctMultiset(G.edges, e);
      DistinctMultiset(C, e);
    }
  }

  /** The preference of `choose_one_incoming`: AcceptAll, then Save, then the
      other Acc* sources, then everything else. */
  function Score(u: Node): (s: nat)
    ensures s == 0 <==> u == "AcceptAll"
    ensures s == 1 <==> u == "Save"
    ensures s == 2 <==> u != "AcceptAll" && u != "Save" && StartsWith(u, "Acc")
    ensures s <= 3
  {
    if u == "AcceptAll" then 0
    else if u == "Save" then 1
    else if StartsWith(u, "Acc") then 2
    else 3
  }

  /** es[i] is the earliest edge whose source has the least score. */
  predicate IsFirstMin(es: seq<Edge>, i: int) {
    && 0 <= i < |es|
    && (forall j :: 0 <= j < |es| ==> Score(es[i].0) <= Score(es[j].0))
    && (forall j :: 0 <= j < i ==> Score(es[j].0) > Score(es[i].0))
  }

  /** Position of the first edge whose source has the least score. */
  function FirstMinIndex(es: seq<Edge>): (i: nat)
    requires es != []
    ensures IsFirstMin(es, i)
  {
    if |es| == 1 then 0
    else
      var k := FirstMinIndex(es[1..]);
      assert forall j :: 1 <= j < |es| ==> es[j] == es[1..][j - 1];
      if Score(es[0].0) <= Score(es[k + 1].0) then 0 else k + 1
  }

  /** `choose_one_incoming`: the head of the edges stably sorted by the score
      of their source, None for no edges. That is the earliest edge whose
      source has the least score. */
  function ChooseOneIncoming(es: seq<Edge>): (r: Option<Edge>)
    ensures r.None? <==> es == []
    ensures r.Some? ==> exists i :: IsFirstMin(es, i) && es[i] == r.value
  {
    if es == [] then None else Some(es[FirstMinIndex(es)])
  }

  /** The edges of E entering v, in the order of E: `by_svc[v]`. */
  function Into(E: seq<Edge>, v: Node): (r: seq<Edge>)
    ensures forall e :: e in r <==> e in E && e.1 == v
    ensures Distinct(E) ==> Distinct(r)
  {
    Filter(E, (e: Edge) => e.1 == v)
  }

  /** The test of `alg_bruteforce` keeping a service: some edge enters it. */
  function HasIncoming(E: seq<Edge>): Node -> bool {
    v => Into(E, v) != []
  }

  lemma IntoSnoc(E: seq<Edge>, x: Edge, v: Node)
    ensures Into(E + [x], v) == Into(E, v) + (if x.1 == v then [x] else [])
  {
    FilterSnoc(E, x, (e: Edge) => e.1 == v);
  }

  /** The `by_svc` dictionary built by `setdefault(v, []).append((u, v))`:
      its keys in insertion order and each key's edge list. */
  method GroupByTarget(E: seq<Edge>) returns (keys: seq<Node>, groups: map<Node, seq<Edge>>)
    ensures Distinct(keys)
    ensures forall v :: v in keys <==> v in groups
    ensures forall v :: v in groups <==> Into(E, v) != []
    ensures forall v :: v in groups ==> groups[v] == Into(E, v)
  {
    keys, groups := [], map[];
    for i := 0 to |E|
      invariant GroupedUpTo(E[..i], keys, groups)
    {
      var v := E[i].1;
      var keys' := if v in groups then keys else keys + [v];
      var groups' := groups[v := (if v in groups then groups[v] else []) + [E[i]]];
      GroupStep(E, i, keys, groups);
      keys, groups := keys', groups';
    }
    assert E[..|E|] == E;
  }

  /** keys and groups are the `by_svc` dictionary of the edges E. */
  ghost predicate GroupedUpTo(E: seq<Edge>, keys: seq<Node>, groups: map<Node, seq<Edge>>) {
    && Distinct(keys)
    && (forall v :: v in keys <==> v in groups)
    && (forall v :: v in groups <==> Into(E, v) != [])
    && (forall v :: v in groups ==> groups[v] == Into(E, v))
  }

  /** Appending E[i] to the list of its target extends the dictionary of
      E[..i] to the dictionary of E[..i + 1]. */
  lemma GroupStep(E: seq<Edge>, i: nat, keys: seq<Node>, groups: map<Node, seq<Edge>>)
    requires i < |E| && GroupedUpTo(E[..i], keys, groups)
    ensures var v := E[i].1;
      GroupedUpTo(E[..i + 1],
        if v in groups then keys else keys + [v],
        groups[v := (if v in groups then groups[v] else []) + [E[i]]])
  {
    var v := E[i].1;
    var keys' := if v in groups then keys else keys + [v];
    var groups' := groups[v := (if v in groups then groups[v] else []) + [E[i]]];
    IntoPrefixStep(E, i);
    if v !in groups {
      DistinctSnoc(keys, v);
    }
    forall w ensures w in groups' <==> Into(E[..i + 1], w) != [] {
      assert Into(E[..i + 1], w) == Into(E[..i], w) + (if E[i].1 == w then [E[i]] else []);
    }
    forall w | w in groups' ensures groups'[w] == Into(E[..i + 1], w) {
      assert Into(E[..i + 1], w) == Into(E[..i], w) + (if E[i].1 == w then [E[i]] else []);
    }
    assert forall w :: w in keys' <==> w in groups';
  }

  /** The edges of E[..i + 1] entering w: those of E[..i], then E[i] if it
      enters w. */
  lemma IntoPrefixStep(E: seq<Edge>, i: nat)
    requires i < |E|
    ensures forall w :: Into(E[..i + 1], w) == Into(E[..i], w) + (if E[i].1 == w then [E[i]] else [])
  {
    assert E[..i + 1] == E[..i] + [E[i]];
    forall w ensures Into(E[..i + 1], w) == Into(E[..i], w) + (if E[i].1 == w then [E[i]] else []) {
      IntoSnoc(E[..i], E[i], w);
    }
  }

  /** e is the edge `choose_one_incoming` picks among the edges of E entering e's target. */
  predicate IsPick(E: seq<Edge>, e: Edge) {
    ChooseOneIncoming(Into(E, e.1)) == Some(e)
  }

  /** The pick among the edges entering v enters v, and only targets with
      an entering edge have a pick. */
  lemma PickEntersTarget(E: seq<Edge>, v: Node)
    ensures Into(E, v) != [] ==>
      var p := ChooseOneIncoming(Into(E, v));
      p.Some? && p.value.1 == v && IsPick(E, p.value)
    ensures forall e: Edge :: e.1 == v && IsPick(E, e) ==> e in Into(E, v)
  {
    if Into(E, v) != [] {
      var p := ChooseOneIncoming(Into(E, v)).value;
      assert p in Into(E, v);
    }
  }

  /** `alg_min_cut_like`: for each service with an incoming consent edge, the
      edge `choose_one_incoming` picks among them; sorted. */
  method AlgMinCutLike(G: MultiGraph, srcs: seq<Node>, services: seq<Node>) returns (r: seq<Edge>)
    ensures Increasing(r, EdgeLess)
    ensures forall e :: e in r <==> IsPick(ConsentEdges(G, srcs, services), e)
  {
    var E := ConsentEdges(G, srcs, services);
    var keys, groups := GroupByTarget(E);
    var removed: seq<Edge> := [];
    for i := 0 to |keys|
      invariant Distinct(removed)
      invariant forall e :: e in removed <==> e.1 in keys[..i] && IsPick(E, e)
    {
      assert keys[..i + 1] == keys[..i] + [keys[i]];
      var v := keys[i];
      var pick := ChooseOneIncoming(groups[v]);
      PickEntersTarget(E, v);
      assert v !in keys[..i];
      if pick.Some? {
        DistinctSnoc(removed, pick.value);
        removed := removed + [pick.value];
      }
    }
    assert keys[..|keys|] == keys;
    EdgeLessIsStrictTotalOrder();
    r := Sort(removed, EdgeLess);
    forall e: Edge | IsPick(E, e) ensures e.1 in keys {
      PickEntersTarget(E, e.1);
    }
  }

  /** Any list described as `alg_min_cut_like`'s result holds consent edges
      only, exactly one into each service that has an incoming consent edge. */
  lemma OnePerService(E: seq<Edge>, r: seq<Edge>)
    requires forall e :: e in r <==> IsPick(E, e)
    ensures forall e :: e in r ==> e in E
    ensures forall v :: Into(E, v) != [] ==> exists e :: e in r && e.1 == v
    ensures forall e, e' :: e in r && e' in r && e.1 == e'.1 ==> e == e'
  {
    forall e | e in r ensures e in E {
      assert e in Into(E, e.1);
    }
    forall v | Into(E, v) != [] ensures exists e :: e in r && e.1 == v {
      var p := ChooseOneIncoming(Into(E, v)).value;
      assert p in Into(E, v);
      assert p in r;
    }
  }

  /** `alg_minmc_greedy`: the same edges as `alg_min_cut_like`. */
  method AlgMinmcGreedy(G: MultiGraph, srcs: seq<Node>, services: seq<Node>) returns (r: seq<Edge>)
    ensures Increasing(r, EdgeLess)
    ensures forall e :: e in r <==> IsPick(ConsentEdges(G, srcs, services), e)
  {
    r := AlgMinCutLike(G, srcs, services);
  }

  /** The targets of a set of edges. */
  function Targets(S: set<Edge>): (r: set<Node>)
    ensures forall v :: v in r <==> exists e :: e in S && e.1 == v
  {
    set e | e in S :: e.1
  }

  /** A set of edges has at least as many edges as targets, and exactly as
      many when no two of its edges share a target. */
  lemma {:induction false} TargetsCard(S: set<Edge>)
    ensures |Targets(S)| <= |S|
    ensures (forall e, e' :: e in S && e' in S && e.1 == e'.1 ==> e == e') ==> |Targets(S)| == |S|
    decreases |S|
  {
    if S != {} {
      var x :| x in S;
      var S' := S - {x};
      TargetsCard(S');
      assert Targets(S) == Targets(S') + {x.1};
      if forall e, e' :: e in S && e' in S && e.1 == e'.1 ==> e == e' {
        assert x.1 !in Targets(S');
      }
    }
  }

  /** Every set of consent edges that cuts into each service with an incoming
      consent edge has at least one edge per such service. */
  lemma HittingLowerBound(E: seq<Edge>, services: seq<Node>, R: set<Edge>)
    requires forall v :: v in services && Into(E, v) != [] ==> exists e :: e in R && e.1 == v
    ensures |R| >= |set v | v in services && Into(E, v) != []|
  {
    var V := set v | v in services && Into(E, v) != [];
    TargetsCard(R);
    assert V <= Targets(R);
    SubsetCardLe(V, Targets(R));
  }

  /** `alg_bruteforce`. With `kmax < len(services)` it is `alg_min_cut_like`.
      Otherwise it walks `product(*choices)` over the non-empty incoming lists
      of the services, keeping the first combination of strictly least size;
      that is the first listed edge into every service that has one. */
  method AlgBruteforce(G: MultiGraph, srcs: seq<Node>, services: seq<Node>, kmax: int) returns (r: seq<Edge>)
    ensures Increasing(r, EdgeLess)
    ensures kmax < |services| ==>
      forall e :: e in r <==> IsPick(ConsentEdges(G, srcs, services), e)
    ensures kmax >= |services| ==>
      forall e :: e in r <==> IsFirstInto(ConsentEdges(G, srcs, services), services, e)
  {
    var E := ConsentEdges(G, srcs, services);
    var keys, groups := GroupByTarget(E);
    if kmax < |services| {
      r := AlgMinCutLike(G, srcs, services);
      return;
    }
    r := ProductSearch(E, services, groups);
  }

  /** The `product(*choices)` branch of `alg_bruteforce`, sorted. */
  method ProductSearch(E: seq<Edge>, services: seq<Node>, groups: map<Node, seq<Edge>>) returns (r: seq<Edge>)
    requires forall v :: v in groups <==> Into(E, v) != []
    requires forall v :: v in groups ==> groups[v] == Into(E, v)
    ensures Increasing(r, EdgeLess)
    ensures forall e :: e in r <==> IsFirstInto(E, services, e)
  {
    var choices, vs := ServiceChoices(E, services, groups);
    var best := LeastCombination(choices, E, vs);
    EdgeLessIsStrictTotalOrder();
    r := Sort(if best.Some? then best.value else [], EdgeLess);
    assert forall e :: e in r <==> e in Firsts(choices);
    FirstsAreFirstInto(E, services, vs, choices);
  }

  /** The `choices` of `alg_bruteforce`: the non-empty incoming lists of the
      services, in the order of `services`; vs names the service of each. */
  method ServiceChoices(E: seq<Edge>, services: seq<Node>, groups: map<Node, seq<Edge>>)
    returns (choices: seq<seq<Edge>>, vs: seq<Node>)
    requires forall v :: v in groups <==> Into(E, v) != []
    requires forall v :: v in groups ==> groups[v] == Into(E, v)
    ensures |vs| == |choices|
    ensures forall k :: 0 <= k < |choices| ==> choices[k] == Into(E, vs[k]) && choices[k] != []
    ensures forall v :: v in vs <==> v in services && Into(E, v) != []
    ensures vs == Filter(services, HasIncoming(E))
  {
    choices, vs := [], [];
    for i := 0 to |services|
      invariant |vs| == |choices|
      invariant forall k :: 0 <= k < |choices| ==> choices[k] == Into(E, vs[k]) && choices[k] != []
      invariant vs == Filter(services[..i], HasIncoming(E))
    {
      var svc := services[i];
      var inc := if svc in groups then groups[svc] else [];
      assert services[..i + 1] == services[..i] + [services[i]];
      FilterSnoc(services[..i], svc, HasIncoming(E));
      assert inc == Into(E, svc) && (HasIncoming(E)(svc) <==> inc != []);
      if inc != [] {
        choices := choices + [inc];
        vs := vs + [svc];
      }
    }
    assert services[..|services|] == services;
  }

  /** The loop over `product(*choices)` keeping the first combination whose
      set of edges is strictly smaller than the best so far: the tuple of
      first edges. */
  method LeastCombination(choices: seq<seq<Edge>>, ghost E: seq<Edge>, ghost vs: seq<Node>)
    returns (best: Option<seq<Edge>>)
    requires |vs| == |choices|
    requires forall k :: 0 <= k < |choices| ==> choices[k] == Into(E, vs[k]) && choices[k] != []
    ensures best == Some(Dedup(Firsts(choices)))
  {
    var combos := Product(choices);
    best := None;
    for j := 0 to |combos|
      invariant j == 0 ==> best == None
      invariant j > 0 ==> best == Some(Dedup(Firsts(choices)))
    {
      var S := Dedup(combos[j]);
      if j > 0 {
        ProductLowerBound(E, vs, choices, combos[j]);
      }
      if best.None? || |S| < |best.value| {
        best := Some(S);
      }
    }
  }

  /** e is the first listed edge of E into its target, a service. */
  predicate IsFirstInto(E: seq<Edge>, services: seq<Node>, e: Edge) {
    e.1 in services && Into(E, e.1) != [] && Into(E, e.1)[0] == e
  }

  /** The first edges of the services' incoming lists are the first edges
      into the services that have one. */
  lemma FirstsAreFirstInto(E: seq<Edge>, services: seq<Node>, vs: seq<Node>, choices: seq<seq<Edge>>)
    requires |vs| == |choices|
    requires forall k :: 0 <= k < |choices| ==> choices[k] == Into(E, vs[k]) && choices[k] != []
    requires forall v :: v in vs <==> v in services && Into(E, v) != []
    ensures forall e :: e in Firsts(choices) <==> IsFirstInto(E, services, e)
  {
    var first := Firsts(choices);
    forall e | e in first ensures IsFirstInto(E, services, e) {
      var k :| 0 <= k < |first| && first[k] == e;
      FirstAtIsFirstInto(E, services, vs, choices, k);
    }
    forall e | IsFirstInto(E, services, e) ensures e in first {
      var k :| 0 <= k < |vs| && vs[k] == e.1;
      FirstAtIsFirstInto(E, services, vs, choices, k);
    }
  }

  /** The k-th first edge is the first listed edge into the k-th service. */
  lemma FirstAtIsFirstInto(E: seq<Edge>, services: seq<Node>, vs: seq<Node>, choices: seq<seq<Edge>>, k: nat)
    requires |vs| == |choices| && k < |choices|
    requires forall k :: 0 <= k < |choices| ==> choices[k] == Into(E, vs[k]) && choices[k] != []
    requires forall v :: v in vs <==> v in services && Into(E, v) != []
    ensures Firsts(choices)[k] == Into(E, vs[k])[0]
    ensures Firsts(choices)[k].1 == vs[k]
    ensures IsFirstInto(E, services, Firsts(choices)[k])
  {
    assert vs[k] in vs;
    assert Into(E, vs[k])[0] in Into(E, vs[k]);
  }

  /** No product tuple has fewer distinct edges than the tuple of first edges:
      the first edges all enter different services. */
  lemma ProductLowerBound(E: seq<Edge>, vs: seq<Node>, choices: seq<seq<Edge>>, p: seq<Edge>)
    requires |vs| == |choices|
    requires forall k :: 0 <= k < |choices| ==> choices[k] == Into(E, vs[k]) && choices[k] != []
    requires |p| == |choices| && forall k :: 0 <= k < |p| ==> p[k] in choices[k]
    ensures |Dedup(p)| >= |Dedup(Firsts(choices))|
  {
    var first := Firsts(choices);
    var F, P := SetOf(first), SetOf(p);
    FirstsDistinctTargets(E, vs, choices);
    FirstsTargetsCovered(E, vs, choices, p);
    TargetsCard(F);
    TargetsCard(P);
    SubsetCardLe(Targets(F), Targets(P));
    DedupCard(p);
    DedupCard(first);
  }

  lemma FirstsDistinctTargets(E: seq<Edge>, vs: seq<Node>, choices: seq<seq<Edge>>)
    requires |vs| == |choices|
    requires forall k :: 0 <= k < |choices| ==> choices[k] == Into(E, vs[k]) && choices[k] != []
    ensures var F := SetOf(Firsts(choices));
      forall e, e' :: e in F && e' in F && e.1 == e'.1 ==> e == e'
  {
    var first := Firsts(choices);
    forall e, e' | e in first && e' in first && e.1 == e'.1 ensures e == e' {
      var k :| 0 <= k < |first| && first[k] == e;
      var k' :| 0 <= k' < |first| && first[k'] == e';
      assert e in Into(E, vs[k]) && e' in Into(E, vs[k']);
    }
  }

  lemma FirstsTargetsCovered(E: seq<Edge>, vs: seq<Node>, choices: seq<seq<Edge>>, p: seq<Edge>)
    requires |vs| == |choices|
    requires forall k :: 0 <= k < |choices| ==> choices[k] == Into(E, vs[k]) && choices[k] != []
    requires |p| == |choices| && forall k :: 0 <= k < |p| ==> p[k] in choices[k]
    ensures Targets(SetOf(Firsts(choices))) <= Targets(SetOf(p))
  {
    var first := Firsts(choices);
    forall v | v in Targets(SetOf(first)) ensures v in Targets(SetOf(p)) {
      var e :| e in SetOf(first) && e.1 == v;
      FirstTargetCovered(E, vs, choices, p, e);
    }
  }

  /** The target of a first edge is the target of an edge of p. */
  lemma FirstTargetCovered(E: seq<Edge>, vs: seq<Node>, choices: seq<seq<Edge>>, p: seq<Edge>, e: Edge)
    requires |vs| == |choices|
    requires forall k :: 0 <= k < |choices| ==> choices[k] == Into(E, vs[k]) && choices[k] != []
    requires |p| == |choices| && forall k :: 0 <= k < |p| ==> p[k] in choices[k]
    requires e in Firsts(choices)
    ensures e.1 in Targets(SetOf(p))
  {
    var first := Firsts(choices);
    var k :| 0 <= k < |first| && first[k] == e;
    SameTargetAt(E, vs, choices, p, k);
  }

  /** The k-th first edge and the k-th edge of a product tuple both enter
      the k-th service. */
  lemma SameTargetAt(E: seq<Edge>, vs: seq<Node>, choices: seq<seq<Edge>>, p: seq<Edge>, k: nat)
    requires |vs| == |choices| && k < |choices|
    requires forall k :: 0 <= k < |choices| ==> choices[k] == Into(E, vs[k]) && choices[k] != []
    requires |p| == |choices| && forall k :: 0 <= k < |p| ==> p[k] in choices[k]
    ensures Firsts(choices)[k].1 == vs[k] && p[k].1 == vs[k]
    ensures vs[k] in Targets(SetOf(p))
  {
    assert Firsts(choices)[k] in Into(E, vs[k]) && p[k] in Into(E, vs[k]);
    assert p[k] in SetOf(p);
  }
}
