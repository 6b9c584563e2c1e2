/** The consent-flow rewrite: on a DOT graph, make sure the backbone
    BannerToast → LetMeChoose → Modal → Save exists, cut every shortcut out
    of AcceptAll, let Save unlock only the required service, and count the
    clicks from a start page to that service before and after. */
module ConsentOptimize {
  import opened Basics
  import opened Strings
  import opened Paths
  import opened Graphs

  /** The service nodes a Save button can unlock. */
  const SERVICES: set<Node> :=
    {"SecuritySvc", "AnalyticsSvc", "ExtMediaSvc", "SupportSvc", "PaymentsSvc", "PersonalSvc"}

  /** The edges every optimised flow must contain, in the order they are added. */
  const BACKBONE: seq<Edge> := [("BannerToast", "LetMeChoose"), ("LetMeChoose", "Modal"), ("Modal", "Save")]

  /** The click count standing for "unreachable". */
  const INF: nat := 1_000_000_000

  /** es with each pair of ps that is not yet present appended, in the order
      of ps; a pair is checked against the list as it has grown so far. */
  function AddMissing(es: seq<Edge>, ps: seq<Edge>): (r: seq<Edge>)
    ensures forall p :: p in ps ==> p in r
    ensures |es| <= |r| && r[..|es|] == es
    ensures forall i :: |es| <= i < |r| ==> r[i] in ps && r[i] !in es
  {
    if ps == [] then es
    else
      var r := AddMissing(es, ps[..|ps| - 1]);
      var p := ps[|ps| - 1];
      assert forall q :: q in ps ==> q in ps[..|ps| - 1] || q == p;
      if p in r then r
      else
        assert p !in es by { assert r[..|es|] == es; }
        r + [p]
  }

  /** When every pair is already present nothing is added. */
  lemma {:induction false} AddMissingPresent(es: seq<Edge>, ps: seq<Edge>)
    requires forall p :: p in ps ==> p in es
    ensures AddMissing(es, ps) == es
  {
    if ps != [] {
      AddMissingPresent(es, ps[..|ps| - 1]);
    }
  }

  /** Adding the missing pairs twice adds nothing the second time. */
  lemma AddMissingIdempotent(es: seq<Edge>, ps: seq<Edge>)
    ensures AddMissing(AddMissing(es, ps), ps) == AddMissing(es, ps)
  {
    AddMissingPresent(AddMissing(es, ps), ps);
  }

  /** The edges of es leaving u. */
  function OutOf(es: seq<Edge>, u: Node): (r: set<Edge>)
    ensures forall e :: e in r <==> e in es && e.0 == u
  {
    set e | e in es && e.0 == u
  }

  /** The edges of es from Save into a service other than the required one. */
  function OtherSaveEdges(es: seq<Edge>, required: Node): (r: set<Edge>)
    ensures forall e :: e in r <==> e in es && e.0 == "Save" && e.1 in SERVICES && e.1 != required
  {
    set e | e in es && e.0 == "Save" && e.1 in SERVICES && e.1 != required
  }

  /** One step of a loop over a snapshot L that deletes the edges of P it
      meets: after L[i], the edges of P among L[..i + 1] are gone. */
  lemma DeleteStep(L: seq<Edge>, P: set<Edge>, i: nat)
    requires i < |L|
    ensures L[i] in P ==>
      Without(Without(L, P * SetOf(L[..i])), {L[i]}) == Without(L, P * SetOf(L[..i + 1]))
    ensures L[i] !in P ==> Without(L, P * SetOf(L[..i])) == Without(L, P * SetOf(L[..i + 1]))
  {
    assert SetOf(L[..i + 1]) == SetOf(L[..i]) + {L[i]};
    WithoutTwice(L, P * SetOf(L[..i]), {L[i]});
    if L[i] in P {
      assert P * SetOf(L[..i + 1]) == P * SetOf(L[..i]) + {L[i]};
    } else {
      assert P * SetOf(L[..i + 1]) == P * SetOf(L[..i]);
    }
  }

  /** The number shown for a click count: ∞ for the sentinel and above. */
  function Norm(x: int): (r: string)
    ensures r == "∞" <==> x >= INF
    ensures x < INF ==> r == IntToString(x)
  {
    if x >= INF then "∞"
    else
      var s := IntToString(x);
      assert s[0] != '∞';
      s
  }

  /** A pydot graph: its declared nodes and its edge list in the order
      `get_edges()` yields it. Parallel edges are allowed. */
  class DotGraph {
    var declared: set<Node>
    var edges: seq<Edge>

    /** The nodes of the networkx graph `from_pydot` builds: the declared
        nodes and every edge endpoint. */
    function Nodes(): (r: set<Node>)
      reads this
      ensures forall n :: n in r <==> n in declared || exists e :: e in edges && (n == e.0 || n == e.1)
    {
      declared + (set e | e in edges :: e.0) + (set e | e in edges :: e.1)
    }

    /** Whether some edge of the pydot graph runs from u to v. */
    function HasEdge(u: Node, v: Node): (b: bool)
      reads this
      ensures b <==> exists i :: 0 <= i < |edges| && edges[i] == (u, v)
    {
      (u, v) in edges
    }

    /** `pdot.add_edge(pydot.Edge(u, v, ...))` for a pair with no edge yet,
        the only way the optimiser calls it: the new edge comes last. */
    method AddEdge(u: Node, v: Node)
      requires (u, v) !in edges
      modifies this
      ensures edges == old(edges) + [(u, v)]
      ensures declared == old(declared)
    {
      edges := edges + [(u, v)];
    }

    /** `pdot.del_edge(u, v)`: every edge from u to v is deleted; deleting an
        absent edge does nothing. */
    method DelEdge(u: Node, v: Node)
      modifies this
      ensures edges == Without(old(edges), {(u, v)})
      ensures declared == old(declared)
    {
      edges := Without(edges, {(u, v)});
    }

    /** `ensure_backbone`: each BACKBONE pair without an edge yet gets one. */
    method EnsureBackbone()
      modifies this
      ensures edges == AddMissing(old(edges), BACKBONE)
      ensures forall p :: p in BACKBONE ==> p in edges
      ensures forall e :: e in edges <==> e in old(edges) || e in BACKBONE
      ensures declared == old(declared)
    {
      ghost var E0 := edges;
      for i := 0 to |BACKBONE|
        invariant edges == AddMissing(E0, BACKBONE[..i])
        invariant declared == old(declared)
      {
        var (u, v) := BACKBONE[i];
        assert BACKBONE[..i + 1][..i] == BACKBONE[..i];
        if !HasEdge(u, v) {
          AddEdge(u, v);
        }
      }
      assert BACKBONE[..|BACKBONE|] == BACKBONE;
      forall e | e in edges ensures e in E0 || e in BACKBONE {
        var r := AddMissing(E0, BACKBONE);
        var i :| 0 <= i < |r| && r[i] == e;
        if i < |E0| {
          assert r[..|E0|][i] == e;
        }
      }
      forall e | e in E0 ensures e in edges {
        var r := AddMissing(E0, BACKBONE);
        assert r[..|E0|] == E0;
      }
    }

    /** `remove_accept_all_shortcuts`: over a snapshot of the edge list, every
        edge out of AcceptAll is deleted; every other edge stays in order. */
    method RemoveAcceptAllShortcuts()
      modifies this
      ensures edges == Without(old(edges), OutOf(old(edges), "AcceptAll"))
      ensures forall e :: e in edges <==> e in old(edges) && e.0 != "AcceptAll"
      ensures declared == old(declared)
    {
      var L := edges;
      ghost var P := OutOf(L, "AcceptAll");
      WithoutAbsent(L, {});
      assert P * SetOf(L[..0]) == {};
      for i := 0 to |L|
        invariant edges == Without(L, P * SetOf(L[..i]))
        invariant declared == old(declared)
      {
        DeleteStep(L, P, i);
        if L[i].0 == "AcceptAll" {
          DelEdge(L[i].0, L[i].1);
        }
      }
      assert L[..|L|] == L;
      assert P * SetOf(L) == P;
    }

    /** `keep_only_save_to(pdot, required)`: over a snapshot of the edge list,
        every edge from Save into a service other than `required` is deleted;
        Save → required, Save → non-services and all other edges stay. */
    method KeepOnlySaveTo(required: Node)
      modifies this
      ensures edges == Without(old(edges), OtherSaveEdges(old(edges), required))
      ensures forall e :: e in edges <==>
        e in old(edges) && !(e.0 == "Save" && e.1 in SERVICES && e.1 != required)
      ensures declared == old(declared)
    {
      var L := edges;
      ghost var P := OtherSaveEdges(L, required);
      WithoutAbsent(L, {});
      assert P * SetOf(L[..0]) == {};
      for i := 0 to |L|
        invariant edges == Without(L, P * SetOf(L[..i]))
        invariant declared == old(declared)
      {
        DeleteStep(L, P, i);
        if L[i].0 == "Save" && L[i].1 in SERVICES {
          if L[i].1 != required {
            DelEdge("Save", L[i].1);
          }
        }
      }
      assert L[..|L|] == L;
      assert P * SetOf(L) == P;
    }

    /** `add_missing_save_edge(pdot, required)`: Save → required is added
        unless an edge from Save to required already exists. */
    method AddMissingSaveEdge(required: Node)
      modifies this
      ensures ("Save", required) in edges
      ensures ("Save", required) in old(edges) ==> edges == old(edges)
      ensures ("Save", required) !in old(edges) ==> edges == old(edges) + [("Save", required)]
      ensures declared == old(declared)
    {
      if !HasEdge("Save", required) {
        AddEdge("Save", required);
      }
    }

    /** The four rewrites in the order the optimiser applies them: AcceptAll
        loses every outgoing edge, the backbone is complete, and among the
        services Save leads exactly to the required one. No other edge is
        added or removed. */
    method OptimizeFlow(required: Node)
      modifies this
      ensures forall e :: e in edges <==>
        && (e in old(edges) || e in BACKBONE || e == ("Save", required))
        && e.0 != "AcceptAll"
        && !(e.0 == "Save" && e.1 in SERVICES && e.1 != required)
      ensures forall e :: e in edges ==> e.0 != "AcceptAll"
      ensures forall p :: p in BACKBONE ==> p in edges
      ensures forall s :: s in SERVICES ==> (("Save", s) in edges <==> s == required)
      ensures declared == old(declared)
    {
      EnsureBackbone();
      RemoveAcceptAllShortcuts();
      KeepOnlySaveTo(required);
      AddMissingSaveEdge(required);
    }

    /** `shortest_clicks(pdot, start, target)`: the fewest edges on a path from
        start to target in the converted graph, and INF when either node is
        missing or the target is unreachable. */
    function ShortestClicks(start: Node, target: Node): (r: nat)
      reads this
      ensures start !in Nodes() || target !in Nodes() ==> r == INF
      ensures start in Nodes() && target in Nodes() && !Reaches(SetOf(edges), start, target) ==> r == INF
      ensures start in Nodes() && target in Nodes() && Reaches(SetOf(edges), start, target) ==>
        ReachesWithin(SetOf(edges), start, target, r) &&
        forall j :: 0 <= j < r ==> !ReachesWithin(SetOf(edges), start, target, j)
    {
      if start !in Nodes() || target !in Nodes() then INF
      else
        match HopDistance(SetOf(edges), start, target)
        case None => INF
        case Some(d) => d
    }
  }
}
