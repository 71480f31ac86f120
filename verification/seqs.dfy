/** Small facts about sequences and finite sets that the searches and
    generators lean on: distinctness, cardinality of subsets, and the set
    of first components of a queue of pairs. */
module Seqs {

  /** No element occurs twice. */
  predicate Distinct<T(==)>(s: seq<T>) {
    forall i, j :: 0 <= i < j < |s| ==> s[i] != s[j]
  }

  function Elems<T(==)>(s: seq<T>): set<T> {
    set x | x in s
  }

  /** The set of first components of a queue of pairs, e.g. the cells waiting in a BFS queue. */
  function Firsts<A(==), B>(q: seq<(A, B)>): (r: set<A>)
    ensures forall i :: 0 <= i < |q| ==> q[i].0 in r
    ensures forall a :: a in r ==> exists i :: 0 <= i < |q| && q[i].0 == a
  {
    if q == [] then {} else {q[0].0} + Firsts(q[1..])
  }

  lemma {:induction false} FirstsAppend<A, B>(p: seq<(A, B)>, q: seq<(A, B)>)
    ensures Firsts(p + q) == Firsts(p) + Firsts(q)
  {
    if p != [] {
      assert (p + q)[1..] == p[1..] + q;
      FirstsAppend(p[1..], q);
    } else {
      assert p + q == q;
    }
  }

  lemma FirstsTail<A, B>(q: seq<(A, B)>)
    requires q != []
    ensures Firsts(q) == {q[0].0} + Firsts(q[1..])
  {
  }

  /** A subset of a finite set is no larger than it. */
  lemma {:induction false} SubsetCard<T>(a: set<T>, b: set<T>)
    requires a <= b
    ensures |a| <= |b|
    decreases |b|
  {
    if a != {} {
      var x :| x in a;
      SubsetCard(a - {x}, b - {x});
    }
  }

  /** A proper subset of a finite set is strictly smaller. */
  lemma ProperSubsetCard<T>(a: set<T>, b: set<T>)
    requires a < b
    ensures |a| < |b|
  {
    var x :| x in b && x !in a;
    SubsetCard(a, b - {x});
  }

  /** A duplicate-free sequence has as many distinct elements as entries. */
  lemma {:induction false} DistinctCard<T>(s: seq<T>)
    requires Distinct(s)
    ensures |Elems(s)| == |s|
  {
    if s != [] {
      DistinctCard(s[1..]);
      assert Elems(s) == {s[0]} + Elems(s[1..]);
      assert s[0] !in Elems(s[1..]);
    }
  }

  /** A duplicate-free sequence drawn from u is no longer than u is large. */
  lemma DistinctBound<T>(s: seq<T>, u: set<T>)
    requires Distinct(s)
    requires forall i :: 0 <= i < |s| ==> s[i] in u
    ensures |s| <= |u|
  {
    DistinctCard(s);
    SubsetCard(Elems(s), u);
  }

  /** A duplicate-free sequence that ends where it starts has one element. */
  lemma DistinctLoop<T>(s: seq<T>)
    requires |s| >= 1 && Distinct(s) && s[0] == s[|s| - 1]
    ensures |s| == 1
  {
  }

  lemma DistinctAppend<T>(s: seq<T>, t: seq<T>)
    requires Distinct(s) && Distinct(t)
    requires forall x :: x in s ==> x !in t
    ensures Distinct(s + t)
  {
    forall i, j | 0 <= i < j < |s + t|
      ensures (s + t)[i] != (s + t)[j]
    {
      if j < |s| {
      } else if i >= |s| {
        assert (s + t)[i] == t[i - |s|] && (s + t)[j] == t[j - |s|];
      } else {
        assert (s + t)[i] in s && (s + t)[j] in t;
      }
    }
  }
}
