/** `itertools.combinations` and `itertools.product`, enumerated in the order
    Python yields them, with the facts the brute-force searches rely on:
    every subset of the right size is enumerated, and the first product
    tuple takes the first element of every choice list. */
module Itertools {
  import opened Basics

  /** Each sequence of cs with x put in front. */
  function Prefix<T>(x: T, cs: seq<seq<T>>): (r: seq<seq<T>>)
    ensures |r| == |cs|
    ensures forall p :: p in r ==> |p| >= 1 && p[0] == x && p[1..] in cs
  {
    if cs == [] then []
    else
      var r := [[x] + cs[0]] + Prefix(x, cs[1..]);
      assert ([x] + cs[0])[1..] == cs[0];
      r
  }

  /** `itertools.combinations(E, k)`: the k-element subsequences of E in
      lexicographic order of their positions. */
  function Combinations<T>(E: seq<T>, k: nat): seq<seq<T>>
    decreases |E|
  {
    if k == 0 then [[]]
    else if E == [] then []
    else Prefix(E[0], Combinations(E[1..], k - 1)) + Combinations(E[1..], k)
  }

  /** The i-th sequence of Prefix(x, cs) is cs[i] with x in front. */
  lemma {:induction false} PrefixAt<T>(x: T, cs: seq<seq<T>>, i: nat)
    requires i < |cs|
    ensures Prefix(x, cs)[i] == [x] + cs[i]
  {
    if i > 0 {
      PrefixAt(x, cs[1..], i - 1);
    }
  }

  /** An enumerated combination either starts with E[0] followed by a
      combination of the rest (first), or is a combination of the rest. */
  lemma CombinationSplit<T>(E: seq<T>, k: nat, c: seq<T>) returns (first: bool)
    requires k != 0 && c in Combinations(E, k)
    ensures E != []
    ensures first ==> c != [] && c[0] == E[0] && c[1..] in Combinations(E[1..], k - 1)
    ensures !first ==> c in Combinations(E[1..], k)
  {
    assert Combinations(E, k) == Prefix(E[0], Combinations(E[1..], k - 1)) + Combinations(E[1..], k);
    first := c !in Combinations(E[1..], k);
  }

  /** The combination of the rest of E that an enumerated combination of E
      comes from, and its size. */
  lemma CombinationStep<T>(E: seq<T>, k: nat, c: seq<T>) returns (k': nat, c': seq<T>)
    requires k != 0 && c in Combinations(E, k)
    ensures E != [] && c' in Combinations(E[1..], k')
    ensures || (k' == k && c' == c)
            || (k' == k - 1 && c != [] && c[0] == E[0] && c' == c[1..])
  {
    var first := CombinationSplit(E, k, c);
    k' := if first then k - 1 else k;
    c' := if first then c[1..] else c;
  }

  /** Every enumerated combination has k elements and keeps E's order. */
  lemma {:induction false} CombinationShape<T>(E: seq<T>, k: nat, c: seq<T>)
    requires c in Combinations(E, k)
    ensures |c| == k && IsSubsequence(c, E)
    decreases |E|
  {
    if k == 0 {
      assert c == [];
    } else {
      var k', c' := CombinationStep(E, k, c);
      CombinationShape(E[1..], k', c');
    }
  }

  /** c is obtained from E by deleting elements. */
  predicate IsSubsequence<T(==)>(c: seq<T>, E: seq<T>)
    decreases |E|
  {
    c == [] || (E != [] && ((c[0] == E[0] && IsSubsequence(c[1..], E[1..])) || IsSubsequence(c, E[1..])))
  }

  /** A subsequence draws its elements from E, and repeats none when E repeats none. */
  lemma {:induction false} SubsequenceDistinct<T>(c: seq<T>, E: seq<T>)
    requires IsSubsequence(c, E)
    ensures forall y :: y in c ==> y in E
    ensures Distinct(E) ==> Distinct(c)
    decreases |E|
  {
    if c != [] {
      var x, E' := E[0], E[1..];
      assert E == [x] + E';
      if c[0] == x && IsSubsequence(c[1..], E') {
        SubsequenceDistinct(c[1..], E');
        assert c == [x] + c[1..];
        if Distinct(E) {
          assert Distinct(E') && x !in E';
          DistinctCons(x, c[1..]);
        }
      } else {
        SubsequenceDistinct(c, E');
      }
    }
  }

  /** The combination facts the searches use: k distinct elements of E. */
  lemma CombinationMembers<T>(E: seq<T>, k: nat, c: seq<T>)
    requires c in Combinations(E, k)
    ensures |c| == k
    ensures forall y :: y in c ==> y in E
    ensures Distinct(E) ==> Distinct(c)
  {
    CombinationShape(E, k, c);
    SubsequenceDistinct(c, E);
  }

  /** [x] + c' is enumerated whenever c' is enumerated for the rest of E. */
  lemma CombinationWithFirst<T>(E: seq<T>, k: nat, c': seq<T>)
    requires E != [] && k >= 1
    requires c' in Combinations(E[1..], k - 1)
    ensures [E[0]] + c' in Combinations(E, k)
  {
    var with := Combinations(E[1..], k - 1);
    assert Combinations(E, k) == Prefix(E[0], with) + Combinations(E[1..], k);
    var i :| 0 <= i < |with| && with[i] == c';
    PrefixAt(E[0], with, i);
  }

  /** c is enumerated for E whenever it is enumerated for the rest of E. */
  lemma CombinationWithoutFirst<T>(E: seq<T>, k: nat, c: seq<T>)
    requires E != [] && k >= 1
    requires c in Combinations(E[1..], k)
    ensures c in Combinations(E, k)
  {
    assert Combinations(E, k) == Prefix(E[0], Combinations(E[1..], k - 1)) + Combinations(E[1..], k);
  }

  lemma SetOfCons<T(!new)>(x: T, c: seq<T>)
    ensures SetOf([x] + c) == {x} + SetOf(c)
  {
  }

  /** Every k-element subset of a duplicate-free E is enumerated by
      `combinations(E, k)`. */
  lemma {:induction false} CombinationsComplete<T(!new)>(E: seq<T>, k: nat, R: set<T>) returns (c: seq<T>)
    requires Distinct(E)
    requires R <= SetOf(E) && |R| == k
    ensures c in Combinations(E, k) && SetOf(c) == R
    decreases |E|
  {
    if k == 0 {
      c := [];
      assert SetOf(c) == R;
    } else {
      var take, k', R' := CompleteStep(E, k, R);
      var c' := CombinationsComplete(E[1..], k', R');
      c := Lift(E, k, R, take, k', R', c');
    }
  }

  /** The subset of the rest of E left to choose once E[0] is taken or skipped. */
  lemma CompleteStep<T(!new)>(E: seq<T>, k: nat, R: set<T>) returns (take: bool, k': nat, R': set<T>)
    requires Distinct(E) && k != 0
    requires R <= SetOf(E) && |R| == k
    ensures E != [] && Distinct(E[1..]) && R' <= SetOf(E[1..]) && |R'| == k'
    ensures take <==> E[0] in R
    ensures take ==> k' == k - 1 && R' == R - {E[0]}
    ensures !take ==> k' == k && R' == R
  {
    take := E[0] in R;
    SubsetCardLe(R, SetOf(E));
    DistinctCard(E);
    assert E == [E[0]] + E[1..];
    assert Distinct(E[1..]) && E[0] !in E[1..];
    k' := if E[0] in R then k - 1 else k;
    R' := if E[0] in R then R - {E[0]} else R;
  }

  /** A combination of the rest of E for R' gives one of E for R. */
  lemma Lift<T(!new)>(E: seq<T>, k: nat, R: set<T>, take: bool, k': nat, R': set<T>, c': seq<T>) returns (c: seq<T>)
    requires E != [] && k != 0
    requires c' in Combinations(E[1..], k') && SetOf(c') == R'
    requires take ==> E[0] in R && k' == k - 1 && R' == R - {E[0]}
    requires !take ==> k' == k && R' == R
    ensures c in Combinations(E, k) && SetOf(c) == R
  {
    if take {
      assert Combinations(E[1..], k') == Combinations(E[1..], k - 1);
      c := LiftWith(E, k, R, c');
    } else {
      c := LiftWithout(E, k, R, c');
    }
  }

  /** Taking E[0] in front of a combination of the rest for R - {E[0]}. */
  lemma LiftWith<T(!new)>(E: seq<T>, k: nat, R: set<T>, c': seq<T>) returns (c: seq<T>)
    requires E != [] && k != 0 && E[0] in R
    requires c' in Combinations(E[1..], k - 1) && SetOf(c') == R - {E[0]}
    ensures c in Combinations(E, k) && SetOf(c) == R
  {
    CombinationWithFirst(E, k, c');
    SetOfCons(E[0], c');
    c := [E[0]] + c';
  }

  /** Skipping E[0]: a combination of the rest for R is one of E. */
  lemma LiftWithout<T(!new)>(E: seq<T>, k: nat, R: set<T>, c': seq<T>) returns (c: seq<T>)
    requires E != [] && k != 0
    requires c' in Combinations(E[1..], k) && SetOf(c') == R
    ensures c in Combinations(E, k) && SetOf(c) == R
  {
    CombinationWithoutFirst(E, k, c');
    c := c';
  }

  /** Every x of xs put in front of every tuple of rest, x varying slowest. */
  function ProductWith<T>(xs: seq<T>, rest: seq<seq<T>>): (r: seq<seq<T>>)
    ensures forall p :: p in r ==> |p| >= 1 && p[0] in xs && p[1..] in rest
    ensures xs != [] && rest != [] ==> r != [] && r[0] == [xs[0]] + rest[0]
  {
    if xs == [] then []
    else
      Prefix(xs[0], rest) + ProductWith(xs[1..], rest)
  }

  /** `itertools.product(*choices)`: one element from each list, the last
      list varying fastest. */
  function Product<T>(choices: seq<seq<T>>): (r: seq<seq<T>>)
    ensures forall p :: p in r ==> |p| == |choices| && forall i :: 0 <= i < |p| ==> p[i] in choices[i]
    ensures (forall i :: 0 <= i < |choices| ==> choices[i] != []) ==>
      r != [] && r[0] == Firsts(choices)
  {
    if choices == [] then [[]]
    else
      var rest := Product(choices[1..]);
      var r := ProductWith(choices[0], rest);
      ProductShape(choices, rest, r);
      ProductFirst(choices, rest, r);
      r
  }

  lemma ProductShape<T>(choices: seq<seq<T>>, rest: seq<seq<T>>, r: seq<seq<T>>)
    requires choices != []
    requires forall p :: p in rest ==> |p| == |choices| - 1 && forall i :: 0 <= i < |p| ==> p[i] in choices[i + 1]
    requires forall p :: p in r ==> |p| >= 1 && p[0] in choices[0] && p[1..] in rest
    ensures forall p :: p in r ==> |p| == |choices| && forall i :: 0 <= i < |p| ==> p[i] in choices[i]
  {
    forall p | p in r ensures |p| == |choices| && forall i :: 0 <= i < |p| ==> p[i] in choices[i] {
      assert p[1..] in rest;
      forall i | 1 <= i < |p| ensures p[i] in choices[i] {
        assert p[1..][i - 1] == p[i];
      }
    }
  }

  lemma ProductFirst<T>(choices: seq<seq<T>>, rest: seq<seq<T>>, r: seq<seq<T>>)
    requires choices != []
    requires (forall i :: 0 <= i < |choices[1..]| ==> choices[1..][i] != []) ==>
      rest != [] && rest[0] == Firsts(choices[1..])
    requires choices[0] != [] && rest != [] ==> r != [] && r[0] == [choices[0][0]] + rest[0]
    ensures (forall i :: 0 <= i < |choices| ==> choices[i] != []) ==>
      r != [] && r[0] == Firsts(choices)
  {
    if forall i :: 0 <= i < |choices| ==> choices[i] != [] {
      assert forall i :: 0 <= i < |choices[1..]| ==> choices[1..][i] != [] by {
        forall i | 0 <= i < |choices[1..]| ensures choices[1..][i] != [] {
          assert choices[1..][i] == choices[i + 1];
        }
      }
      assert Firsts(choices) == [choices[0][0]] + Firsts(choices[1..]);
    }
  }

  /** The first element of every list. */
  function Firsts<T>(choices: seq<seq<T>>): (r: seq<T>)
    requires forall i :: 0 <= i < |choices| ==> choices[i] != []
    ensures |r| == |choices|
    ensures forall i :: 0 <= i < |choices| ==> r[i] == choices[i][0]
  {
    if choices == [] then [] else [choices[0][0]] + Firsts(choices[1..])
  }
}
