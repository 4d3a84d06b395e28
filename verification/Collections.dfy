/** Sizes of sets and lists, and permutations of lists without duplicates. */
module Collections {

  predicate Distinct<T(==)>(s: seq<T>) { forall i, j | 0 <= i < j < |s| :: s[i] != s[j] }

  lemma {:induction false} SubsetSize<T>(a: set<T>, b: set<T>)
    requires a <= b
    ensures |a| <= |b|
  {
    if a != {} {
      var x :| x in a;
      SubsetSize(a - {x}, b - {x});
    }
  }

  lemma SubsetSizeOfMap<V>(a: map<int, V>, b: map<int, V>)
    requires a.Keys <= b.Keys
    ensures |a| <= |b|
  {
    SubsetSize(a.Keys, b.Keys);
    assert |a| == |a.Keys| && |b| == |b.Keys|;
  }

  lemma DisjointSize<T>(a: set<T>, b: set<T>)
    requires a !! b
    ensures |a + b| == |a| + |b|
  {
  }

  lemma UnionSize<T>(a: set<T>, b: set<T>)
    ensures |a + b| <= |a| + |b|
  {
    assert a + b == a + (b - a);
    SubsetSize(b - a, b);
  }

  lemma {:induction false} DistinctWithin<T>(s: seq<T>, elems: set<T>)
    requires Distinct(s) && forall x | x in s :: x in elems
    ensures |s| <= |elems|
  {
    if s != [] {
      var front, x := s[..|s| - 1], s[|s| - 1];
      DistinctWithin(front, elems - {x});
    }
  }

  lemma {:induction false} OccursOnce<T(!new)>(s: seq<T>)
    ensures (forall i, j | 0 <= i < j < |s| :: s[i] != s[j]) <==> (forall x :: multiset(s)[x] <= 1)
  {
    if s != [] {
      var front, y := s[..|s| - 1], s[|s| - 1];
      assert s == front + [y];
      OccursOnce(front);
      if forall i, j | 0 <= i < j < |s| :: s[i] != s[j] {
        assert y !in front;
        assert multiset(front)[y] == 0;
      } else if forall i, j | 0 <= i < j < |front| :: front[i] != front[j] {
        var i, j :| 0 <= i < j < |s| && s[i] == s[j];
        assert j == |s| - 1 && front[i] == y;
        assert y in multiset(front);
        assert multiset(s)[y] > 1;
      } else {
        var x :| multiset(front)[x] > 1;
        assert multiset(s)[x] > 1;
      }
    }
  }

  /** A permutation of a list without duplicates has none, and the same members. */
  lemma PermutationKeeps<T(!new)>(s: seq<T>, t: seq<T>)
    requires multiset(s) == multiset(t)
    ensures |s| == |t|
    ensures forall x :: x in s <==> x in t
    ensures (forall i, j | 0 <= i < j < |s| :: s[i] != s[j]) ==> (forall i, j | 0 <= i < j < |t| :: t[i] != t[j])
  {
    OccursOnce(s);
    OccursOnce(t);
    assert |multiset(s)| == |s| && |multiset(t)| == |t|;
    assert forall x :: x in s <==> x in multiset(s);
    assert forall x :: x in t <==> x in multiset(t);
  }

  /** A member of a set that is not empty. */
  lemma Member<T>(s: set<T>) returns (x: T)
    requires s != {}
    ensures x in s
  {
    x :| x in s;
  }

  /** Where x sits in s, and what is left of s without it. */
  lemma RemoveOne<T>(s: seq<T>, x: T) returns (k: nat)
    requires x in multiset(s)
    ensures k < |s| && s[k] == x
    ensures multiset(s[..k] + s[k + 1..]) == multiset(s) - multiset{x}
  {
    k :| 0 <= k < |s| && s[k] == x;
    assert s == s[..k] + [x] + s[k + 1..];
  }

  lemma AppendDistinct<T>(s: seq<T>, x: T)
    requires Distinct(s) && x !in s
    ensures Distinct(s + [x])
  {
    forall i, j | 0 <= i < j < |s + [x]| ensures (s + [x])[i] != (s + [x])[j] {
      assert s[i] in s;
    }
  }

  lemma NoMembers<T(!new)>(s: seq<T>)
    ensures s == [] <==> forall x :: x !in s
  {
    if s != [] {
      assert s[0] in s;
    }
  }

  /** A list without duplicates is as long as the set of its members. */
  lemma {:induction false} DistinctSize<T>(s: seq<T>, elems: set<T>)
    requires Distinct(s) && (forall x | x in s :: x in elems) && (forall x | x in elems :: x in s)
    ensures |s| == |elems|
  {
    if s != [] {
      var front, x := s[..|s| - 1], s[|s| - 1];
      assert s == front + [x];
      DistinctSize(front, elems - {x});
    } else {
      assert elems == {};
    }
  }
}
