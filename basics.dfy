/** Shared vocabulary of the consent-flow model: nodes, edges, the
    Option/Result wrappers that stand for Python's None and raised
    exceptions, and a few facts about sequences of distinct elements. */
module Basics {

  /** A graph node is identified by its name. */
  type Node = string

  /** A directed edge (u, v). */
  type Edge = (Node, Node)

  /** A constraint (s, t): t must become unreachable from s. */
  type Pair = (Node, Node)

  datatype Option<+T> = None | Some(value: T)

  /** The exceptions the core lets escape, one constructor per kind. */
  datatype Error =
    | NodeNotFound(node: Node)       // networkx.NodeNotFound
    | SameSourceSink(node: Node)     // networkx.NetworkXError: source and sink are the same node
    | IndexError                     // Python IndexError
    | UnknownAlgorithm(name: string) // ValueError raised for an unknown strategy name

  datatype Result<+T> = Ok(value: T) | Err(error: Error)

  predicate Distinct<T(==)>(s: seq<T>) {
    forall i, j :: 0 <= i < j < |s| ==> s[i] != s[j]
  }

  function SetOf<T(!new)>(s: seq<T>): (r: set<T>)
    ensures forall x :: x in r <==> x in s
  {
    set x | x in s
  }

  /** The elements of s satisfying p, in their original order. */
  function Filter<T(!new)>(s: seq<T>, p: T -> bool): (r: seq<T>)
    ensures forall x :: x in r <==> x in s && p(x)
    ensures |r| <= |s|
    ensures Distinct(s) ==> Distinct(r)
  {
    if s == [] then []
    else if p(s[0]) then [s[0]] + Filter(s[1..], p)
    else Filter(s[1..], p)
  }

  /** The elements of ns that are nodes of the graph, in the order of ns,
      repeats kept. */
  function Among(nodes: seq<Node>, ns: seq<Node>): (r: seq<Node>)
    ensures forall n :: n in r <==> n in ns && n in nodes
    ensures |r| <= |ns|
  {
    Filter(ns, n => n in nodes)
  }

  /** Among, one element at a time from the front. */
  lemma AmongCons(nodes: seq<Node>, ns: seq<Node>)
    requires ns != []
    ensures Among(nodes, ns) == (if ns[0] in nodes then [ns[0]] else []) + Among(nodes, ns[1..])
  {
  }

  /** The sequences of ss joined end to end, in order. */
  function Concat<T>(ss: seq<seq<T>>): seq<T> {
    if ss == [] then [] else ss[0] + Concat(ss[1..])
  }


  /** Two tests that agree on the elements of s keep the same elements. */
  lemma {:induction false} FilterCongruent<T(!new)>(s: seq<T>, p: T -> bool, q: T -> bool)
    requires forall x :: x in s ==> p(x) == q(x)
    ensures Filter(s, p) == Filter(s, q)
  {
    if s != [] {
      FilterCongruent(s[1..], p, q);
      assert s[0] in s;
    }
  }

  /** Filtering a sequence extended by one element. */
  lemma {:induction false} FilterSnoc<T(!new)>(s: seq<T>, x: T, p: T -> bool)
    ensures Filter(s + [x], p) == Filter(s, p) + (if p(x) then [x] else [])
  {
    if s != [] {
      FilterSnoc(s[1..], x, p);
      assert (s + [x])[1..] == s[1..] + [x];
    }
  }

  /** The edges of E that are not in R, in the order of E. */
  function Without(E: seq<Edge>, R: set<Edge>): (r: seq<Edge>)
    ensures forall e :: e in r <==> e in E && e !in R
    ensures Distinct(E) ==> Distinct(r)
    ensures SetOf(r) == SetOf(E) - R
  {
    Filter(E, e => e !in R)
  }

  /** s with x appended unless it is there already. */
  function AddNew<T(==,!new)>(s: seq<T>, x: T): (r: seq<T>)
    ensures forall y :: y in r <==> y in s || y == x
    ensures |s| <= |r| <= |s| + 1 && r[..|s|] == s
    ensures Distinct(s) ==> Distinct(r)
  {
    if x in s then s
    else
      assert Distinct(s) ==> Distinct(s + [x]) by {
        if Distinct(s) {
          DistinctSnoc(s, x);
        }
      }
      s + [x]
  }

  /** The elements of s, each kept at its first occurrence: what a Python
      set or `dict.fromkeys` retains of a list. */
  function Dedup<T(==,!new)>(s: seq<T>): (r: seq<T>)
    ensures Distinct(r)
    ensures forall x :: x in r <==> x in s
    ensures |r| <= |s|
    ensures Distinct(s) ==> r == s
  {
    if s == [] then []
    else
      var init, last := s[..|s| - 1], s[|s| - 1];
      var r := Dedup(init);
      assert s == init + [last];
      if last in r then r
      else
        DistinctSnoc(r, last);
        r + [last]
  }

  /** One more element is kept exactly when it is new. */
  lemma DedupSnoc<T(!new)>(s: seq<T>, x: T)
    ensures Dedup(s + [x]) == AddNew(Dedup(s), x)
  {
    var t := s + [x];
    assert t[..|t| - 1] == s;
  }

  /** Lists with the same elements kept stay so when one more is appended. */
  lemma DedupSnocSame<T(!new)>(a: seq<T>, b: seq<T>, x: T)
    requires Dedup(a) == Dedup(b)
    ensures Dedup(a + [x]) == Dedup(b + [x])
  {
    DedupSnoc(a, x);
    DedupSnoc(b, x);
  }

  lemma AppendLast<T>(a: seq<T>, q: seq<T>)
    requires q != []
    ensures a + q == (a + q[..|q| - 1]) + [q[|q| - 1]]
  {
    assert q == q[..|q| - 1] + [q[|q| - 1]];
  }

  /** Removing repeats before appending more changes nothing once the
      repeats are removed again. */
  lemma {:induction false} DedupAppend<T(!new)>(p: seq<T>, q: seq<T>)
    ensures Dedup(Dedup(p) + q) == Dedup(p + q)
    decreases |q|
  {
    if q == [] {
      assert Dedup(p) + q == Dedup(p) && p + q == p;
    } else {
      DedupAppend(p, q[..|q| - 1]);
      AppendLast(Dedup(p), q);
      AppendLast(p, q);
      DedupSnocSame(Dedup(p) + q[..|q| - 1], p + q[..|q| - 1], q[|q| - 1]);
    }
  }

  lemma {:induction false} DistinctCard<T(!new)>(s: seq<T>)
    requires Distinct(s)
    ensures |SetOf(s)| == |s|
  {
    if s != [] {
      DistinctCard(s[1..]);
      assert SetOf(s) == {s[0]} + SetOf(s[1..]);
      assert s[0] !in SetOf(s[1..]);
    }
  }

  /** Removing duplicates leaves as many elements as s has distinct values. */
  lemma DedupCard<T(!new)>(s: seq<T>)
    ensures |Dedup(s)| == |SetOf(s)|
  {
    DistinctCard(Dedup(s));
    assert SetOf(Dedup(s)) == SetOf(s);
  }

  lemma {:induction false} DistinctMultiset<T(!new)>(s: seq<T>, x: T)
    requires Distinct(s)
    ensures multiset(s)[x] == if x in s then 1 else 0
  {
    if s != [] {
      DistinctMultiset(s[1..], x);
      assert s == [s[0]] + s[1..];
      assert s[0] !in s[1..];
    }
  }

  /** Two duplicate-free sequences with the same elements are permutations of each other. */
  lemma SameElementsPermutation<T(!new)>(a: seq<T>, b: seq<T>)
    requires Distinct(a) && Distinct(b)
    requires forall x :: x in a <==> x in b
    ensures multiset(a) == multiset(b)
  {
    forall x ensures multiset(a)[x] == multiset(b)[x] {
      DistinctMultiset(a, x);
      DistinctMultiset(b, x);
    }
  }

  lemma DistinctCons<T>(x: T, s: seq<T>)
    requires Distinct(s) && x !in s
    ensures Distinct([x] + s)
  {
    forall a, b | 0 <= a < b < |s| + 1 ensures ([x] + s)[a] != ([x] + s)[b] {
      assert ([x] + s)[b] == s[b - 1];
      if a > 0 {
        assert ([x] + s)[a] == s[a - 1];
      }
    }
  }

  lemma DistinctSnoc<T>(s: seq<T>, x: T)
    requires Distinct(s) && x !in s
    ensures Distinct(s + [x])
  {
    forall i, j | 0 <= i < j < |s| + 1 ensures (s + [x])[i] != (s + [x])[j] {
      if j == |s| {
        assert (s + [x])[i] == s[i];
      }
    }
  }

  lemma {:induction false} SubsetCardLe<T>(a: set<T>, b: set<T>)
    requires a <= b
    ensures |a| <= |b|
    decreases a
  {
    if a != {} {
      var y :| y in a;
      SubsetCardLe(a - {y}, b - {y});
    }
  }

  lemma SubsetCard<T>(a: set<T>, b: set<T>)
    requires a < b
    ensures |a| < |b|
  {
    var x :| x in b && x !in a;
    SubsetCardLe(a, b - {x});
  }
}
