/** Length-prefixed and NUL-separated byte streams, and what can be read back from them. */
module Encoding {
  import opened Collections
  import opened Ordering

  /** binary.PutUvarint: seven bits a byte, low group first, the high bit set on all but the last. */
  function Uvarint(n: nat): (s: string)
    ensures s != []
  {
    if n < 128 then [n as char] else [(n % 128 + 128) as char] + Uvarint(n / 128)
  }

  /** One length-prefixed component. */
  function Component(p: string): string { Uvarint(|p|) + p }

  /** What writeComponents feeds into the hash. */
  function Components(parts: seq<string>): string {
    if parts == [] then [] else Component(parts[0]) + Components(parts[1..])
  }

  lemma {:induction false} ComponentsAppend(a: seq<string>, b: seq<string>)
    ensures Components(a + b) == Components(a) + Components(b)
  {
    if a == [] {
      assert a + b == b;
    } else {
      assert (a + b)[1..] == a[1..] + b;
      ComponentsAppend(a[1..], b);
    }
  }

  lemma ComponentsSnoc(a: seq<string>, p: string)
    ensures Components(a + [p]) == Components(a) + Component(p)
  {
    ComponentsAppend(a, [p]);
    assert [p][1..] == [] && Components([]) == [];
  }

  method PutUvarint(n: nat) returns (buf: string)
    ensures buf == Uvarint(n)
  {
    buf := [];
    var x := n;
    while x >= 128
      invariant buf + Uvarint(x) == Uvarint(n)
    {
      ghost var was := buf;
      buf := buf + [(x % 128 + 128) as char];
      assert buf + Uvarint(x / 128) == was + Uvarint(x);
      x := x / 128;
    }
    buf := buf + [x as char];
  }

  /** The hasher's buffered input. */
  class Hasher {
    var fed: string

    constructor ()
      ensures fed == []
    {
      fed := [];
    }

    method Write(s: string)
      modifies this
      ensures fed == old(fed) + s
    {
      fed := fed + s;
    }
  }

  method WriteComponents(h: Hasher, parts: seq<string>)
    modifies h
    ensures h.fed == old(h.fed) + Components(parts)
  {
    assert h.fed == old(h.fed) + Components(parts[..0]);
    for i := 0 to |parts|
      invariant h.fed == old(h.fed) + Components(parts[..i])
    {
      var n := PutUvarint(|parts[i]|);
      h.Write(n);
      h.Write(parts[i]);
      ComponentsSnoc(parts[..i], parts[i]);
      assert parts[..i + 1] == parts[..i] + [parts[i]];
    }
    assert parts[..|parts|] == parts;
  }

  datatype Length = Truncated | Length(value: nat, rest: string)

  /** binary.Uvarint: the number at the front of s and what follows it. */
  function ReadUvarint(s: string): (r: Length)
    ensures r.Length? ==> |r.rest| < |s|
  {
    if s == [] then Truncated
    else if s[0] < 128 as char then Length(s[0] as nat, s[1..])
    else
      match ReadUvarint(s[1..])
      case Truncated => Truncated
      case Length(v, rest) => Length(128 * v + (s[0] as nat - 128) % 128, rest)
  }

  datatype Decoded = Malformed | Parts(parts: seq<string>)

  /** Reads length-prefixed components until the stream ends. */
  function Decode(s: string): Decoded
    decreases |s|
  {
    if s == [] then Parts([])
    else
      match ReadUvarint(s)
      case Truncated => Malformed
      case Length(n, rest) =>
        if n > |rest| then Malformed
        else
          match Decode(rest[n..])
          case Malformed => Malformed
          case Parts(ps) => Parts([rest[..n]] + ps)
  }

  lemma {:induction false} ReadBack(n: nat, rest: string)
    ensures ReadUvarint(Uvarint(n) + rest) == Length(n, rest)
  {
    var s := Uvarint(n) + rest;
    if n < 128 {
      assert s[1..] == rest;
    } else {
      ReadBack(n / 128, rest);
      assert s[1..] == Uvarint(n / 128) + rest;
    }
  }

  lemma DecodeStep(s: string, n: nat, rest: string)
    requires ReadUvarint(s) == Length(n, rest) && n <= |rest| && Decode(rest[n..]).Parts?
    ensures Decode(s) == Parts([rest[..n]] + Decode(rest[n..]).parts)
  {
  }

  lemma DecodeFront(p: string, tail: string)
    requires Decode(tail).Parts?
    ensures Decode(Component(p) + tail) == Parts([p] + Decode(tail).parts)
  {
    assert Component(p) + tail == Uvarint(|p|) + (p + tail);
    ReadBack(|p|, p + tail);
    assert (p + tail)[..|p|] == p && (p + tail)[|p|..] == tail;
    DecodeStep(Component(p) + tail, |p|, p + tail);
  }

  /** The stream decodes back to the components it was written from. */
  lemma {:induction false} RoundTrip(parts: seq<string>)
    ensures Decode(Components(parts)) == Parts(parts)
  {
    if parts != [] {
      RoundTrip(parts[1..]);
      DecodeFront(parts[0], Components(parts[1..]));
      assert [parts[0]] + parts[1..] == parts;
    }
  }

  lemma ComponentsInjective(a: seq<string>, b: seq<string>)
    requires Components(a) == Components(b)
    ensures a == b
  {
    RoundTrip(a);
    RoundTrip(b);
  }

  lemma {:induction false} SortedKeysExist(keys: set<string>)
    ensures exists s :: IsSortedKeys(keys, s)
  {
    if keys == {} {
      assert IsSortedKeys(keys, []);
    } else {
      var k :| k in keys;
      SortedKeysExist(keys - {k});
      var front :| IsSortedKeys(keys - {k}, front);
      var s := StableSort(front + [k], StrLess);
      AppendDistinct(front, k);
      StrOrder();
      StableSortCorrect(front + [k], StrLess);
      PermutationKeeps(front + [k], s);
      forall x ensures x in s <==> x in keys {
        assert x in front + [k] <==> x in front || x == k;
      }
      assert IsSortedKeys(keys, s);
    }
  }

  ghost function SortedKeys(keys: set<string>): (s: seq<string>)
    ensures IsSortedKeys(keys, s)
  {
    SortedKeysExist(keys);
    var s :| IsSortedKeys(keys, s);
    s
  }

  /** Each key followed by its value. */
  function Interleave(keys: seq<string>, pairs: map<string, string>): (r: seq<string>)
    requires forall k | k in keys :: k in pairs
    ensures |r| == 2 * |keys|
    ensures forall i | 0 <= i < |keys| :: r[2 * i] == keys[i] && r[2 * i + 1] == pairs[keys[i]]
  {
    if keys == [] then []
    else
      var front := keys[..|keys| - 1];
      assert forall k | k in front :: k in keys;
      Interleave(front, pairs) + [keys[|keys| - 1], pairs[keys[|keys| - 1]]]
  }

  /** The stream a manifest hashes: a function of the map alone. */
  ghost function ManifestStream(pairs: map<string, string>): string {
    Components(Interleave(SortedKeys(pairs.Keys), pairs))
  }

  /** Distinct path-to-hash maps never share a stream. */
  lemma ManifestInjective(a: map<string, string>, b: map<string, string>)
    requires ManifestStream(a) == ManifestStream(b)
    ensures a == b
  {
    var ka, kb := SortedKeys(a.Keys), SortedKeys(b.Keys);
    ComponentsInjective(Interleave(ka, a), Interleave(kb, b));
    InterleaveInjective(ka, a, kb, b);
  }

  lemma InterleaveInjective(ka: seq<string>, a: map<string, string>, kb: seq<string>, b: map<string, string>)
    requires forall k :: k in ka <==> k in a
    requires forall k :: k in kb <==> k in b
    requires Interleave(ka, a) == Interleave(kb, b)
    ensures a == b
  {
    var r := Interleave(ka, a);
    assert |ka| == |kb|;
    forall i | 0 <= i < |ka| ensures ka[i] == kb[i] && a[ka[i]] == b[kb[i]] {
      assert r[2 * i] == ka[i] && r[2 * i + 1] == a[ka[i]];
    }
    assert ka == kb;
    forall k | k in a ensures k in b && a[k] == b[k] {
      var i :| 0 <= i < |ka| && ka[i] == k;
    }
    assert forall k | k in b :: k in ka;
  }

  method ManifestOf(pairs: map<string, string>, hash: string -> string) returns (manifest: string)
    ensures manifest == hash(ManifestStream(pairs))
  {
    var keys := SortedList(pairs.Keys);
    SortedKeysUnique(pairs.Keys, keys, SortedKeys(pairs.Keys));
    var h := new Hasher();
    for i := 0 to |keys|
      invariant h.fed == Components(Interleave(keys[..i], pairs))
    {
      assert keys[..i + 1][..i] == keys[..i];
      ComponentsAppend(Interleave(keys[..i], pairs), [keys[i], pairs[keys[i]]]);
      WriteComponents(h, [keys[i], pairs[keys[i]]]);
    }
    assert keys[..|keys|] == keys;
    manifest := hash(h.fed);
  }

  const NUL: char := 0 as char

  predicate NoNul(s: string) { NUL !in s }

  /** The worktree manifest's form: every text followed by one NUL. */
  function NulTerminated(parts: seq<string>): string {
    if parts == [] then [] else NulTerminated(parts[..|parts| - 1]) + parts[|parts| - 1] + [NUL]
  }

  /** Just past the last NUL of s. */
  ghost function NulEnd(s: string): nat {
    if s == [] then 0 else if s[|s| - 1] == NUL then |s| else NulEnd(s[..|s| - 1])
  }

  lemma {:induction false} NulEndOf(x: string, p: string)
    requires NoNul(p) && (x == [] || x[|x| - 1] == NUL)
    ensures NulEnd(x + p) == |x|
  {
    if p != [] {
      assert p[|p| - 1] in p;
      assert (x + p)[..|x + p| - 1] == x + p[..|p| - 1];
      NulEndOf(x, p[..|p| - 1]);
    } else {
      assert x + p == x;
    }
  }

  lemma LastPart(x: string, p: string, y: string, q: string)
    requires NoNul(p) && NoNul(q)
    requires (x == [] || x[|x| - 1] == NUL) && (y == [] || y[|y| - 1] == NUL)
    requires x + p == y + q
    ensures x == y && p == q
  {
    NulEndOf(x, p);
    NulEndOf(y, q);
    var s := x + p;
    assert s[..|x|] == x && s[..|y|] == y && s[|x|..] == p && s[|y|..] == q;
  }

  /** Separators are enough as long as no text holds one. */
  lemma {:induction false} NulTerminatedInjective(a: seq<string>, b: seq<string>)
    requires (forall p | p in a :: NoNul(p)) && (forall p | p in b :: NoNul(p))
    requires NulTerminated(a) == NulTerminated(b)
    ensures a == b
  {
    if a != [] && b != [] {
      var x, p := NulTerminated(a[..|a| - 1]), a[|a| - 1];
      var y, q := NulTerminated(b[..|b| - 1]), b[|b| - 1];
      var s := NulTerminated(a);
      assert s[..|s| - 1] == x + p && s[..|s| - 1] == y + q;
      LastPart(x, p, y, q);
      NulTerminatedInjective(a[..|a| - 1], b[..|b| - 1]);
      assert a == a[..|a| - 1] + [p] && b == b[..|b| - 1] + [q];
    }
  }

  /** The stream the worktree manifest hashes. */
  ghost function WorktreeStream(files: map<string, string>): string {
    NulTerminated(Interleave(SortedKeys(files.Keys), files))
  }

  lemma WorktreeInjective(a: map<string, string>, b: map<string, string>)
    requires forall k | k in a :: NoNul(k) && NoNul(a[k])
    requires forall k | k in b :: NoNul(k) && NoNul(b[k])
    requires WorktreeStream(a) == WorktreeStream(b)
    ensures a == b
  {
    var ka, kb := SortedKeys(a.Keys), SortedKeys(b.Keys);
    InterleaveNoNul(ka, a);
    InterleaveNoNul(kb, b);
    NulTerminatedInjective(Interleave(ka, a), Interleave(kb, b));
    InterleaveInjective(ka, a, kb, b);
  }

  lemma {:induction false} InterleaveNoNul(keys: seq<string>, pairs: map<string, string>)
    requires forall k | k in keys :: k in pairs && NoNul(k) && NoNul(pairs[k])
    ensures forall p | p in Interleave(keys, pairs) :: NoNul(p)
  {
    if keys != [] {
      InterleaveNoNul(keys[..|keys| - 1], pairs);
      assert keys[|keys| - 1] in keys;
    }
  }
}
