/** Directed paths over an edge set: reachability (networkx `has_path`,
    `descendants`), hop distance (unweighted `shortest_path_length`), and
    cost-weighted path length (the quantity Dijkstra minimises). */
module Paths {
  import opened Basics

  /** p is a walk of at least one node along edges of E. */
  ghost predicate IsPath(E: set<Edge>, p: seq<Node>) {
    |p| >= 1 && forall i :: 0 <= i < |p| - 1 ==> (p[i], p[i + 1]) in E
  }

  ghost predicate IsPathFromTo(E: set<Edge>, p: seq<Node>, s: Node, t: Node) {
    IsPath(E, p) && p[0] == s && p[|p| - 1] == t
  }

  ghost predicate Reaches(E: set<Edge>, s: Node, t: Node) {
    exists p :: IsPathFromTo(E, p, s, t)
  }

  /** Reachable by a path of at most k edges. */
  ghost predicate ReachesWithin(E: set<Edge>, s: Node, t: Node, k: nat) {
    exists p :: IsPathFromTo(E, p, s, t) && |p| <= k + 1
  }

  /** Successors of the nodes of S. */
  function Post(E: set<Edge>, S: set<Node>): (r: set<Node>)
    ensures forall v :: v in r <==> exists u :: u in S && (u, v) in E
  {
    var r := set e | e in E && e.0 in S :: e.1;
    assert forall u, v :: u in S && (u, v) in E ==> v in r by {
      forall u, v | u in S && (u, v) in E ensures v in r {
        var e := (u, v);
        assert e in E && e.0 in S;
      }
    }
    r
  }

  /** Targets of all edges of E. */
  function Heads(E: set<Edge>): set<Node> {
    set e | e in E :: e.1
  }

  /** The edges of E turned around: networkx `G.reverse()`. */
  function Reverse(E: set<Edge>): (r: set<Edge>)
    ensures forall u, v :: (u, v) in r <==> (v, u) in E
  {
    var r := set e | e in E :: (e.1, e.0);
    assert forall u, v :: (v, u) in E ==> (u, v) in r by {
      forall u, v | (v, u) in E ensures (u, v) in r {
        var e := (v, u);
        assert e in E;
      }
    }
    r
  }

  // ----- basic facts about paths -----

  lemma ReachesRefl(E: set<Edge>, s: Node)
    ensures Reaches(E, s, s)
  {
    assert IsPathFromTo(E, [s], s, s);
  }

  lemma ReachesEdge(E: set<Edge>, u: Node, v: Node)
    requires (u, v) in E
    ensures Reaches(E, u, v)
  {
    assert IsPathFromTo(E, [u, v], u, v);
  }

  /** A path followed by one more edge. */
  lemma ReachesStep(E: set<Edge>, s: Node, u: Node, v: Node)
    requires Reaches(E, s, u) && (u, v) in E
    ensures Reaches(E, s, v)
  {
    var p :| IsPathFromTo(E, p, s, u);
    assert IsPathFromTo(E, p + [v], s, v);
  }

  /** One edge followed by a path. */
  lemma ReachesPrepend(E: set<Edge>, u: Node, v: Node, t: Node)
    requires (u, v) in E && Reaches(E, v, t)
    ensures Reaches(E, u, t)
  {
    var p :| IsPathFromTo(E, p, v, t);
    assert IsPathFromTo(E, [u] + p, u, t);
  }

  lemma ReachesTrans(E: set<Edge>, a: Node, b: Node, c: Node)
    requires Reaches(E, a, b) && Reaches(E, b, c)
    ensures Reaches(E, a, c)
  {
    var p :| IsPathFromTo(E, p, a, b);
    var q :| IsPathFromTo(E, q, b, c);
    var r := p + q[1..];
    assert IsPathFromTo(E, r, a, c) by {
      forall i | 0 <= i < |r| - 1 ensures (r[i], r[i + 1]) in E {
        if i < |p| - 1 {
        } else {
          assert r[i] == q[i - |p| + 1] && r[i + 1] == q[i - |p| + 2];
        }
      }
    }
  }

  /** More edges never disconnect anything. */
  lemma ReachesMono(E: set<Edge>, F: set<Edge>, s: Node, t: Node)
    requires E <= F && Reaches(E, s, t)
    ensures Reaches(F, s, t)
  {
    var p :| IsPathFromTo(E, p, s, t);
    assert IsPathFromTo(F, p, s, t);
  }

  /** Every node reachable from s lies in any set that contains s and is closed
      under successors. */
  lemma {:induction false} ClosedContainsReach(E: set<Edge>, S: set<Node>, p: seq<Node>)
    requires IsPath(E, p) && p[0] in S
    requires Post(E, S) <= S
    ensures p[|p| - 1] in S
    decreases |p|
  {
    if |p| > 1 {
      var q := p[..|p| - 1];
      assert IsPath(E, q);
      ClosedContainsReach(E, S, q);
      assert (q[|q| - 1], p[|p| - 1]) in E;
    }
  }

  /** A path over E read backwards is a path over Reverse(E). */
  lemma ReverseReaches(E: set<Edge>, s: Node, t: Node)
    ensures Reaches(Reverse(E), t, s) <==> Reaches(E, s, t)
  {
    if Reaches(E, s, t) {
      var p :| IsPathFromTo(E, p, s, t);
      var q := Backwards(p);
      assert IsPathFromTo(Reverse(E), q, t, s);
    }
    if Reaches(Reverse(E), t, s) {
      var q :| IsPathFromTo(Reverse(E), q, t, s);
      var p := Backwards(q);
      assert IsPathFromTo(E, p, s, t);
    }
  }

  function Backwards(p: seq<Node>): (q: seq<Node>)
    ensures |q| == |p|
    ensures forall i :: 0 <= i < |p| ==> q[i] == p[|p| - 1 - i]
  {
    seq(|p|, i requires 0 <= i < |p| => p[|p| - 1 - i])
  }

  /** Removing every edge that runs from S to T separates s in S from t in T,
      provided every edge ends in S or T. */
  lemma CrossingCutSeparates(E: set<Edge>, S: set<Node>, T: set<Node>, s: Node, t: Node)
    requires s in S && t in T && S !! T
    requires forall e :: e in E ==> e.1 in S + T
    ensures !Reaches(E - (set e | e in E && e.0 in S && e.1 in T), s, t)
  {
    var F := E - (set e | e in E && e.0 in S && e.1 in T);
    assert Post(F, S) <= S by {
      forall v | v in Post(F, S) ensures v in S {
        var u :| u in S && (u, v) in F;
        var e := (u, v);
        assert e in E && !(e.0 in S && e.1 in T);
      }
    }
    if Reaches(F, s, t) {
      var p :| IsPathFromTo(F, p, s, t);
      ClosedContainsReach(F, S, p);
    }
  }

  // ----- reachability as a computation -----

  /** A set closed under successors holds exactly what its own nodes reach. */
  lemma ClosedReach(E: set<Edge>, S: set<Node>)
    requires Post(E, S) <= S
    ensures forall n :: n in S <==> exists s :: s in S && Reaches(E, s, n)
  {
    forall n | exists s :: s in S && Reaches(E, s, n) ensures n in S {
      var s :| s in S && Reaches(E, s, n);
      var p :| IsPathFromTo(E, p, s, n);
      ClosedContainsReach(E, S, p);
    }
    forall n | n in S ensures exists s :: s in S && Reaches(E, s, n) {
      ReachesRefl(E, n);
    }
  }

  /** Adding the successors of S does not change what S reaches. */
  lemma GrowReach(E: set<Edge>, S: set<Node>, r: set<Node>)
    requires forall n :: n in r <==> exists s :: s in S + Post(E, S) && Reaches(E, s, n)
    ensures forall n :: n in r <==> exists s :: s in S && Reaches(E, s, n)
  {
    forall n | n in r ensures exists s :: s in S && Reaches(E, s, n) {
      var s' :| s' in S + Post(E, S) && Reaches(E, s', n);
      if s' !in S {
        var u :| u in S && (u, s') in E;
        ReachesPrepend(E, u, s', n);
      }
    }
    forall n | exists s :: s in S && Reaches(E, s, n) ensures n in r {
      var s :| s in S && Reaches(E, s, n);
      assert s in S + Post(E, S);
    }
  }

  /** Each layer that adds a node gets closer to covering all edge heads. */
  lemma LayerProgress(E: set<Edge>, S: set<Node>)
    requires !(Post(E, S) <= S)
    ensures |Heads(E) - (S + Post(E, S))| < |Heads(E) - S|
  {
    var next := Post(E, S);
    var v :| v in next && v !in S;
    var u :| u in S && (u, v) in E;
    var e := (u, v);
    assert e in E;
    assert v in Heads(E);
    SubsetCard(Heads(E) - (S + next), Heads(E) - S);
  }

  /** The nodes reachable from some node of S: the least superset of S closed
      under successors, computed by breadth-first layers. */
  function ReachFrom(E: set<Edge>, S: set<Node>): (r: set<Node>)
    ensures forall n :: n in r <==> exists s :: s in S && Reaches(E, s, n)
    decreases |Heads(E) - S|
  {
    var next := Post(E, S);
    if next <= S then
      ClosedReach(E, S);
      S
    else
      LayerProgress(E, S);
      var r := ReachFrom(E, S + next);
      GrowReach(E, S, r);
      r
  }

  /** networkx `has_path`. */
  function HasPath(E: set<Edge>, s: Node, t: Node): (b: bool)
    ensures b <==> Reaches(E, s, t)
  {
    var r := ReachFrom(E, {s});
    assert t in r <==> Reaches(E, s, t) by {
      if Reaches(E, s, t) { assert s in {s}; }
    }
    t in r
  }

  /** `has_path` as a call: the caller learns only its meaning. */
  method PathExists(E: set<Edge>, s: Node, t: Node) returns (b: bool)
    ensures b <==> Reaches(E, s, t)
  {
    b := HasPath(E, s, t);
  }

  /** networkx `descendants`: every node reachable from s, s itself excluded. */
  function Descendants(E: set<Edge>, s: Node): (r: set<Node>)
    ensures forall n :: n in r <==> n != s && Reaches(E, s, n)
  {
    var r := ReachFrom(E, {s});
    assert forall n :: n in r <==> Reaches(E, s, n) by {
      forall n ensures n in r <==> Reaches(E, s, n) {
        if Reaches(E, s, n) { assert s in {s}; }
      }
    }
    r - {s}
  }

  /** `descendants` as a call. */
  method FindDescendants(E: set<Edge>, s: Node) returns (r: set<Node>)
    ensures forall n :: n in r <==> n != s && Reaches(E, s, n)
  {
    r := Descendants(E, s);
  }

  // ----- hop distance -----

  /** The layers of a breadth-first search: S is the set of nodes within k hops
      of s; the search stops at the first layer holding t. */
  function HopSearch(E: set<Edge>, s: Node, t: Node, S: set<Node>, k: nat): (r: Option<nat>)
    requires forall n :: n in S <==> ReachesWithin(E, s, n, k)
    ensures r == None <==> !Reaches(E, s, t)
    ensures r.Some? ==> k <= r.value && ReachesWithin(E, s, t, r.value)
    ensures r.Some? ==> forall j :: k <= j < r.value ==> !ReachesWithin(E, s, t, j)
    decreases |Heads(E) - S|
  {
    if t in S then
      assert ReachesWithin(E, s, t, k);
      assert Reaches(E, s, t) by {
        var p :| IsPathFromTo(E, p, s, t) && |p| <= k + 1;
      }
      Some(k)
    else
      var next := Post(E, S);
      if next <= S then
        assert !Reaches(E, s, t) by {
          if Reaches(E, s, t) {
            var p :| IsPathFromTo(E, p, s, t);
            assert IsPathFromTo(E, [s], s, s) && |[s]| <= k + 1;
            assert ReachesWithin(E, s, s, k);
            ClosedContainsReach(E, S, p);
            assert false;
          }
        }
        None
      else
        assert Heads(E) - (S + next) < Heads(E) - S by {
          var v :| v in next && v !in S;
          var u :| u in S && (u, v) in E;
          var e := (u, v);
          assert v in Heads(E);
        }
        SubsetCard(Heads(E) - (S + next), Heads(E) - S);
        NextLayer(E, s, S, k);
        HopSearch(E, s, t, S + next, k + 1)
  }

  lemma ReachesWithinZero(E: set<Edge>, s: Node)
    ensures ReachesWithin(E, s, s, 0)
  {
    assert IsPathFromTo(E, [s], s, s);
  }

  /** The nodes within k + 1 hops are those within k hops and their successors. */
  lemma NextLayer(E: set<Edge>, s: Node, S: set<Node>, k: nat)
    requires forall n :: n in S <==> ReachesWithin(E, s, n, k)
    ensures forall n :: n in S + Post(E, S) <==> ReachesWithin(E, s, n, k + 1)
  {
    forall n ensures n in S + Post(E, S) <==> ReachesWithin(E, s, n, k + 1) {
      if n in S {
        var p :| IsPathFromTo(E, p, s, n) && |p| <= k + 1;
        assert IsPathFromTo(E, p, s, n) && |p| <= k + 2;
      } else if n in Post(E, S) {
        var u :| u in S && (u, n) in E;
        var p :| IsPathFromTo(E, p, s, u) && |p| <= k + 1;
        assert IsPathFromTo(E, p + [n], s, n);
      }
      if ReachesWithin(E, s, n, k + 1) {
        var p :| IsPathFromTo(E, p, s, n) && |p| <= k + 2;
        if |p| <= k + 1 {
          assert n in S;
        } else {
          var q := p[..|p| - 1];
          assert IsPathFromTo(E, q, s, q[|q| - 1]) && |q| <= k + 1;
          assert q[|q| - 1] in S;
          assert (q[|q| - 1], n) in E;
        }
      }
    }
  }

  /** Unweighted `shortest_path_length`: the fewest edges on a path from s to t,
      None when t is unreachable. */
  function HopDistance(E: set<Edge>, s: Node, t: Node): (r: Option<nat>)
    ensures r == None <==> !Reaches(E, s, t)
    ensures r.Some? ==> ReachesWithin(E, s, t, r.value)
    ensures r.Some? ==> forall j :: 0 <= j < r.value ==> !ReachesWithin(E, s, t, j)
  {
    forall n ensures n in {s} <==> ReachesWithin(E, s, n, 0) {
      ReachesWithinZero(E, s);
    }
    HopSearch(E, s, t, {s}, 0)
  }

  // ----- cost-weighted paths -----

  /** The summed weight of the edges along p. */
  function PathCost(w: Edge -> int, p: seq<Node>): int {
    if |p| < 2 then 0 else w((p[0], p[1])) + PathCost(w, p[1..])
  }

  /** d is the least total weight of a path from s to t. */
  ghost predicate IsMinCost(E: set<Edge>, w: Edge -> int, s: Node, t: Node, d: int) {
    && (exists p :: IsPathFromTo(E, p, s, t) && PathCost(w, p) == d)
    && (forall p :: IsPathFromTo(E, p, s, t) ==> d <= PathCost(w, p))
  }

  lemma {:induction false} PathCostNonNegative(E: set<Edge>, w: Edge -> int, p: seq<Node>)
    requires IsPath(E, p)
    requires forall e :: e in E ==> w(e) >= 0
    ensures PathCost(w, p) >= 0
  {
    if |p| >= 2 {
      assert (p[0], p[1]) in E;
      assert IsPath(E, p[1..]);
      PathCostNonNegative(E, w, p[1..]);
    }
  }

  /** With non-negative weights the distance from a node to itself is 0. */
  lemma MinCostSelf(E: set<Edge>, w: Edge -> int, s: Node)
    requires forall e :: e in E ==> w(e) >= 0
    ensures IsMinCost(E, w, s, s, 0)
  {
    assert IsPathFromTo(E, [s], s, s) && PathCost(w, [s]) == 0;
    forall p | IsPathFromTo(E, p, s, s) ensures 0 <= PathCost(w, p) {
      PathCostNonNegative(E, w, p);
    }
  }

  /** The minimum path cost is unique. */
  lemma MinCostUnique(E: set<Edge>, w: Edge -> int, s: Node, t: Node, d1: int, d2: int)
    requires IsMinCost(E, w, s, t, d1) && IsMinCost(E, w, s, t, d2)
    ensures d1 == d2
  {
    var p1 :| IsPathFromTo(E, p1, s, t) && PathCost(w, p1) == d1;
    var p2 :| IsPathFromTo(E, p2, s, t) && PathCost(w, p2) == d2;
  }
}
