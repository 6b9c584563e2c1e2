/** Python's `sorted` on lists of node names and of edges: the code-point
    lexicographic order on strings, the component-wise order on edge tuples,
    and an insertion sort over any strict total order. */
module Sorting {
  import opened Basics

  ghost predicate StrictTotalOrder<T(!new)>(lt: (T, T) -> bool) {
    && (forall x :: !lt(x, x))
    && (forall x, y, z :: lt(x, y) && lt(y, z) ==> lt(x, z))
    && (forall x, y :: x != y ==> lt(x, y) || lt(y, x))
  }

  /** Non-decreasing: no later element is smaller than an earlier one. */
  predicate Ordered<T>(s: seq<T>, lt: (T, T) -> bool) {
    forall i, j :: 0 <= i < j < |s| ==> !lt(s[j], s[i])
  }

  /** Strictly increasing, hence also duplicate-free. */
  predicate Increasing<T>(s: seq<T>, lt: (T, T) -> bool) {
    forall i, j :: 0 <= i < j < |s| ==> lt(s[i], s[j])
  }

  /** Python's `<` on str: lexicographic comparison of code points, a proper
      prefix being smaller. */
  predicate Less(a: string, b: string) {
    if a == [] then b != []
    else if b == [] then false
    else if a[0] != b[0] then a[0] < b[0]
    else Less(a[1..], b[1..])
  }

  /** Python's `<` on (u, v) tuples of strings. */
  predicate EdgeLess(x: Edge, y: Edge) {
    Less(x.0, y.0) || (x.0 == y.0 && Less(x.1, y.1))
  }

  lemma {:induction false} LessIrreflexive(a: string)
    ensures !Less(a, a)
  {
    if a != [] { LessIrreflexive(a[1..]); }
  }

  lemma {:induction false} LessTransitive(a: string, b: string, c: string)
    requires Less(a, b) && Less(b, c)
    ensures Less(a, c)
  {
    if a != [] && b != [] && c != [] && a[0] == b[0] && b[0] == c[0] {
      LessTransitive(a[1..], b[1..], c[1..]);
    }
  }

  lemma {:induction false} LessConnected(a: string, b: string)
    requires a != b
    ensures Less(a, b) || Less(b, a)
  {
    if a != [] && b != [] && a[0] == b[0] {
      assert a == [a[0]] + a[1..] && b == [b[0]] + b[1..];
      LessConnected(a[1..], b[1..]);
    }
  }

  lemma LessIsStrictTotalOrder()
    ensures StrictTotalOrder(Less)
  {
    forall a ensures !Less(a, a) { LessIrreflexive(a); }
    forall a, b, c | Less(a, b) && Less(b, c) ensures Less(a, c) { LessTransitive(a, b, c); }
    forall a, b | a != b ensures Less(a, b) || Less(b, a) { LessConnected(a, b); }
  }

  lemma EdgeLessIsStrictTotalOrder()
    ensures StrictTotalOrder(EdgeLess)
  {
    LessIsStrictTotalOrder();
  }

  /** Prepending an element no larger than any element keeps a sequence ordered. */
  lemma OrderedCons<T(!new)>(x: T, s: seq<T>, lt: (T, T) -> bool)
    requires Ordered(s, lt)
    requires forall y :: y in s ==> !lt(y, x)
    ensures Ordered([x] + s, lt)
  {
    forall i, j | 0 <= i < j < |[x] + s| ensures !lt(([x] + s)[j], ([x] + s)[i]) {
      if i > 0 {
        assert ([x] + s)[j] == s[j - 1] && ([x] + s)[i] == s[i - 1];
      } else {
        assert ([x] + s)[j] in s;
      }
    }
  }

  function Insert<T(!new)>(x: T, s: seq<T>, lt: (T, T) -> bool): (r: seq<T>)
    requires StrictTotalOrder(lt)
    requires Ordered(s, lt)
    ensures multiset(r) == multiset(s) + multiset{x}
    ensures Ordered(r, lt)
  {
    if s == [] || !lt(s[0], x) then
      InsertFront(x, s, lt);
      [x] + s
    else
      var rest := Insert(x, s[1..], lt);
      InsertBehind(x, s, rest, lt);
      [s[0]] + rest
  }

  /** x goes in front of an ordered s whose head is not below x. */
  lemma InsertFront<T(!new)>(x: T, s: seq<T>, lt: (T, T) -> bool)
    requires StrictTotalOrder(lt) && Ordered(s, lt)
    requires s == [] || !lt(s[0], x)
    ensures Ordered([x] + s, lt)
  {
    forall y | y in s ensures !lt(y, x) {
      var k :| 0 <= k < |s| && s[k] == y;
      assert k > 0 ==> !lt(s[k], s[0]);
    }
    OrderedCons(x, s, lt);
  }

  /** The head of s, below x, stays in front of x inserted into the tail. */
  lemma InsertBehind<T(!new)>(x: T, s: seq<T>, rest: seq<T>, lt: (T, T) -> bool)
    requires StrictTotalOrder(lt) && Ordered(s, lt)
    requires s != [] && lt(s[0], x)
    requires multiset(rest) == multiset(s[1..]) + multiset{x} && Ordered(rest, lt)
    ensures Ordered([s[0]] + rest, lt)
    ensures multiset([s[0]] + rest) == multiset(s) + multiset{x}
  {
    assert s == [s[0]] + s[1..];
    forall y | y in rest ensures !lt(y, s[0]) {
      assert y in multiset(rest);
      if y != x {
        assert y in multiset(s[1..]);
        var k :| 0 <= k < |s[1..]| && s[1..][k] == y;
        assert s[k + 1] == y;
      }
    }
    OrderedCons(s[0], rest, lt);
  }

  /** Insertion sort: the result is ordered and a permutation of the input. */
  function Sort<T(!new)>(s: seq<T>, lt: (T, T) -> bool): (r: seq<T>)
    requires StrictTotalOrder(lt)
    ensures multiset(r) == multiset(s)
    ensures Ordered(r, lt)
    ensures Distinct(s) ==> Distinct(r) && Increasing(r, lt)
    ensures forall x :: x in r <==> x in s
  {
    if s == [] then []
    else
      var r := Insert(s[0], Sort(s[1..], lt), lt);
      assert s == [s[0]] + s[1..];
      assert forall x :: x in r <==> x in multiset(r);
      assert forall x :: x in s <==> x in multiset(s);
      DistinctOrderedIncreasing(s, r, lt);
      r
  }

  lemma DistinctOrderedIncreasing<T(!new)>(s: seq<T>, r: seq<T>, lt: (T, T) -> bool)
    requires StrictTotalOrder(lt)
    requires multiset(r) == multiset(s) && Ordered(r, lt)
    ensures Distinct(s) ==> Distinct(r) && Increasing(r, lt)
  {
    if Distinct(s) {
      forall i, j | 0 <= i < j < |r| ensures r[i] != r[j] {
        if r[i] == r[j] {
          RepeatCounted(r, i, j);
          DistinctMultiset(s, r[i]);
          assert false;
        }
      }
    }
  }

  /** An element at two positions occurs at least twice. */
  lemma RepeatCounted<T>(r: seq<T>, i: nat, j: nat)
    requires i < j < |r| && r[i] == r[j]
    ensures multiset(r)[r[i]] >= 2
  {
    assert r == r[..j] + r[j..];
    assert r[i] == r[..j][i];
    assert r[j] == r[j..][0];
  }

  /** Two increasing sequences holding the same elements are equal: a sorted
      duplicate-free list is determined by its set of elements. */
  lemma {:induction false} IncreasingUnique<T(!new)>(a: seq<T>, b: seq<T>, lt: (T, T) -> bool)
    requires StrictTotalOrder(lt)
    requires Increasing(a, lt) && Increasing(b, lt)
    requires forall x :: x in a <==> x in b
    ensures a == b
  {
    IncreasingDistinct(a, lt);
    IncreasingDistinct(b, lt);
    DistinctCard(a);
    DistinctCard(b);
    assert SetOf(a) == SetOf(b);
    if a != [] {
      assert a[0] == b[0] by {
        var a0, b0 := a[0], b[0];
        assert a0 in b && b0 in a;
        var k :| 0 <= k < |b| && b[k] == a0;
        var m :| 0 <= m < |a| && a[m] == b0;
        assert k == 0 || lt(b0, a0);
        assert m == 0 || lt(a0, b0);
      }
      forall x ensures x in a[1..] <==> x in b[1..] {
        assert a == [a[0]] + a[1..] && b == [b[0]] + b[1..];
        if x in a[1..] {
          var k :| 1 <= k < |a| && a[k] == x;
          assert lt(a[0], x);
          assert x in b && x != b[0];
        }
        if x in b[1..] {
          var k :| 1 <= k < |b| && b[k] == x;
          assert lt(b[0], x);
          assert x in a && x != a[0];
        }
      }
      IncreasingUnique(a[1..], b[1..], lt);
      assert a == [a[0]] + a[1..] && b == [b[0]] + b[1..];
    }
  }

  lemma IncreasingDistinct<T(!new)>(s: seq<T>, lt: (T, T) -> bool)
    requires StrictTotalOrder(lt)
    requires Increasing(s, lt)
    ensures Distinct(s)
  {
  }
}
