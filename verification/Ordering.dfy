/** Byte-wise string order and the stable sort the reports and manifests rely on. */
module Ordering {
  import opened Collections

  /** Lexicographic order on strings, as Go compares them. Each char stands for one byte. */
  predicate StrLess(a: string, b: string) {
    if b == [] then false
    else if a == [] then true
    else if a[0] != b[0] then a[0] < b[0]
    else StrLess(a[1..], b[1..])
  }

  lemma {:induction false} StrLessTotal(a: string, b: string)
    ensures a != b ==> StrLess(a, b) || StrLess(b, a)
    ensures !(StrLess(a, b) && StrLess(b, a))
    ensures a == b ==> !StrLess(a, b)
    decreases |a|
  {
    if a != [] && b != [] && a[0] == b[0] {
      StrLessTotal(a[1..], b[1..]);
      assert a == [a[0]] + a[1..] && b == [b[0]] + b[1..];
    }
  }

  lemma {:induction false} StrLessTransitive(a: string, b: string, c: string)
    requires !StrLess(b, a) && !StrLess(c, b)
    ensures !StrLess(c, a)
    ensures StrLess(a, b) || StrLess(b, c) ==> StrLess(a, c)
    decreases |a|
  {
    if a != [] && b != [] && c != [] && a[0] == b[0] == c[0] {
      StrLessTransitive(a[1..], b[1..], c[1..]);
    }
  }

  /** One string is before another exactly when it is a proper prefix, or smaller at the first difference. */
  lemma {:induction false} Lexicographic(a: string, b: string)
    ensures StrLess(a, b) <==>
            a < b || exists k | 0 <= k < |a| && k < |b| :: a[..k] == b[..k] && a[k] < b[k]
    decreases |a|
  {
    if a != [] && b != [] && a[0] == b[0] {
      Lexicographic(a[1..], b[1..]);
      SamePrefix(a, b);
    } else if a != [] && b != [] {
      assert a[..0] == b[..0];
    }
  }

  /** Strings that begin alike differ where their rests do. */
  lemma SamePrefix(a: string, b: string)
    requires a != [] && b != [] && a[0] == b[0]
    ensures a < b <==> a[1..] < b[1..]
    ensures (exists k | 0 <= k < |a| && k < |b| :: a[..k] == b[..k] && a[k] < b[k])
       <==> exists k | 0 <= k < |a[1..]| && k < |b[1..]| :: a[1..][..k] == b[1..][..k] && a[1..][k] < b[1..][k]
  {
    var x, y := a[1..], b[1..];
    assert a == [a[0]] + x && b == [b[0]] + y;
    if k :| 0 <= k < |a| && k < |b| && a[..k] == b[..k] && a[k] < b[k] {
      assert k >= 1;
      assert x[..k - 1] == a[..k][1..] && y[..k - 1] == b[..k][1..];
      assert x[k - 1] < y[k - 1];
    }
    if k :| 0 <= k < |x| && k < |y| && x[..k] == y[..k] && x[k] < y[k] {
      assert a[..k + 1] == [a[0]] + x[..k] && b[..k + 1] == [b[0]] + y[..k];
      assert a[k + 1] < b[k + 1];
    }
  }

  /** What sort.Slice needs of its comparison. */
  ghost predicate StrictWeakOrder<T(!new)>(less: (T, T) -> bool) {
    && (forall x, y :: less(x, y) ==> !less(y, x))
    && (forall x, y, z :: !less(y, x) && !less(z, y) ==> !less(z, x))
  }

  predicate SortedBy<T>(s: seq<T>, less: (T, T) -> bool) {
    forall i, j | 0 <= i < j < |s| :: !less(s[j], s[i])
  }

  function Insert<T>(x: T, s: seq<T>, less: (T, T) -> bool): seq<T> {
    if s == [] then [x]
    else if less(x, s[|s| - 1]) then Insert(x, s[..|s| - 1], less) + [s[|s| - 1]]
    else s + [x]
  }

  /** sort.SliceStable. */
  function StableSort<T>(s: seq<T>, less: (T, T) -> bool): seq<T> {
    if s == [] then [] else Insert(s[|s| - 1], StableSort(s[..|s| - 1], less), less)
  }

  /** The elements of s that compare equal to z, in their order in s. */
  ghost function Ties<T>(s: seq<T>, z: T, less: (T, T) -> bool): seq<T> {
    if s == [] then []
    else
      var y := s[|s| - 1];
      Ties(s[..|s| - 1], z, less) + if !less(y, z) && !less(z, y) then [y] else []
  }

  lemma {:induction false} InsertPermutes<T>(x: T, s: seq<T>, less: (T, T) -> bool)
    ensures multiset(Insert(x, s, less)) == multiset(s) + multiset{x}
  {
    if s != [] && less(x, s[|s| - 1]) {
      InsertPermutes(x, s[..|s| - 1], less);
      assert s == s[..|s| - 1] + [s[|s| - 1]];
    }
  }

  lemma {:induction false} InsertSorts<T(!new)>(x: T, s: seq<T>, less: (T, T) -> bool)
    requires StrictWeakOrder(less) && SortedBy(s, less)
    ensures SortedBy(Insert(x, s, less), less)
  {
    if s != [] && less(x, s[|s| - 1]) {
      var front, y := s[..|s| - 1], s[|s| - 1];
      InsertSorts(x, front, less);
      var r := Insert(x, front, less);
      forall i | 0 <= i < |r| ensures !less(y, r[i]) {
        InsertPermutes(x, front, less);
        assert r[i] in multiset(r);
        if r[i] != x {
          assert r[i] in front;
        }
      }
    } else if s != [] {
      var y := s[|s| - 1];
      forall i | 0 <= i < |s| ensures !less(x, s[i]) {
        assert !less(y, s[i]);
      }
    }
  }

  lemma {:induction false} InsertKeepsTies<T(!new)>(x: T, s: seq<T>, z: T, less: (T, T) -> bool)
    requires StrictWeakOrder(less)
    ensures Ties(Insert(x, s, less), z, less) == Ties(s + [x], z, less)
  {
    assert (s + [x])[..|s|] == s;
    if s != [] && less(x, s[|s| - 1]) {
      var front, y := s[..|s| - 1], s[|s| - 1];
      InsertKeepsTies(x, front, z, less);
      var r := Insert(x, front, less);
      assert (r + [y])[..|r|] == r;
      assert (front + [x])[..|front|] == front;
    } else {
      assert Insert(x, s, less) == s + [x];
    }
  }

  /** The sort is a sorted permutation that keeps equal elements in their order. */
  lemma {:induction false} StableSortCorrect<T(!new)>(s: seq<T>, less: (T, T) -> bool)
    requires StrictWeakOrder(less)
    ensures SortedBy(StableSort(s, less), less)
    ensures multiset(StableSort(s, less)) == multiset(s)
    ensures |StableSort(s, less)| == |s|
    ensures forall z :: Ties(StableSort(s, less), z, less) == Ties(s, z, less)
  {
    if s != [] {
      var front, x := s[..|s| - 1], s[|s| - 1];
      assert s == front + [x];
      StableSortCorrect(front, less);
      var r := StableSort(front, less);
      InsertSorts(x, r, less);
      InsertPermutes(x, r, less);
      forall z ensures Ties(Insert(x, r, less), z, less) == Ties(s, z, less) {
        InsertKeepsTies(x, r, z, less);
        assert (r + [x])[..|r|] == r;
      }
      assert |multiset(StableSort(s, less))| == |multiset(s)|;
    }
  }

  /** sort.Strings leaves a set of strings in the one ascending order there is. */
  ghost predicate IsSortedKeys(keys: set<string>, s: seq<string>) {
    Distinct(s) && (forall k :: k in s <==> k in keys) && SortedBy(s, StrLess)
  }

  lemma StrOrder()
    ensures StrictWeakOrder(StrLess)
  {
    forall x, y | StrLess(x, y) ensures !StrLess(y, x) {
      StrLessTotal(x, y);
    }
    forall x, y, z | !StrLess(y, x) && !StrLess(z, y) ensures !StrLess(z, x) {
      StrLessTransitive(x, y, z);
    }
  }

  lemma {:induction false} SortedKeysUnique(keys: set<string>, s: seq<string>, t: seq<string>)
    requires IsSortedKeys(keys, s) && IsSortedKeys(keys, t)
    ensures s == t
    decreases |s|
  {
    EmptyKeys(keys, s);
    EmptyKeys(keys, t);
    if keys != {} {
      LastIsGreatest(keys, s, t);
      var x := s[|s| - 1];
      DropLast(keys, s);
      DropLast(keys, t);
      SortedKeysUnique(keys - {x}, s[..|s| - 1], t[..|t| - 1]);
      assert s == s[..|s| - 1] + [x] && t == t[..|t| - 1] + [x];
    }
  }

  lemma EmptyKeys(keys: set<string>, s: seq<string>)
    requires IsSortedKeys(keys, s)
    ensures s == [] <==> keys == {}
  {
    if s != [] {
      assert s[0] in s;
    }
  }

  lemma LastIsGreatest(keys: set<string>, s: seq<string>, t: seq<string>)
    requires IsSortedKeys(keys, s) && IsSortedKeys(keys, t) && s != [] && t != []
    ensures s[|s| - 1] == t[|t| - 1]
  {
    var x, y := s[|s| - 1], t[|t| - 1];
    assert x in t && y in s;
    var i :| 0 <= i < |t| && t[i] == x;
    var j :| 0 <= j < |s| && s[j] == y;
    StrLessTotal(x, y);
  }

  lemma DropLast(keys: set<string>, s: seq<string>)
    requires IsSortedKeys(keys, s) && s != []
    ensures IsSortedKeys(keys - {s[|s| - 1]}, s[..|s| - 1])
  {
    var front, x := s[..|s| - 1], s[|s| - 1];
    forall k ensures k in front <==> k in keys - {x} {
      if k in keys - {x} {
        assert k in s;
      }
    }
  }

  /** sort.Strings on the keys of a set, given in any order. */
  method SortStrings(keys: seq<string>) returns (s: seq<string>)
    requires Distinct(keys)
    ensures IsSortedKeys((set k | k in keys), s)
  {
    StrOrder();
    StableSortCorrect(keys, StrLess);
    s := StableSort(keys, StrLess);
    PermutationKeeps(keys, s);
  }

  /** The members of a set, listed in any order and then sorted. */
  method SortedList(keys: set<string>) returns (s: seq<string>)
    ensures IsSortedKeys(keys, s)
  {
    var list: seq<string> := [];
    var left := keys;
    while left != {}
      invariant left <= keys
      invariant Distinct(list) && forall k :: k in list <==> k in keys && k !in left
      decreases left
    {
      ghost var some := Member(left);
      var k :| k in left;
      AppendDistinct(list, k);
      list := list + [k];
      left := left - {k};
    }
    s := SortStrings(list);
    assert keys == set k | k in list;
  }
}
