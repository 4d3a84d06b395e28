/** The per-workspace analyzer cache: its keys, and analysis through it. */
module Cache {
  import Decimal
  import opened Encoding
  import opened Wrappers

  /** Everything an analyzer's answer depends on. */
  datatype Origin = Origin(version: nat, workspace: string, analyzer: string, pairs: map<string, string>)

  /** Not a path: it pins the manifest to the code that produced the result. */
  const VERSION_ENTRY := [NUL] + "indexer-version"

  /** Paths hold no NUL, so no path is the version entry. */
  predicate WellFormed(o: Origin) { VERSION_ENTRY !in o.pairs }

  function KeyedPairs(o: Origin): map<string, string> { o.pairs[VERSION_ENTRY := Decimal.Itoa(o.version)] }

  function KeyParts(version: nat, workspace: string, namespace: string, manifest: string): seq<string> {
    ["le-cache-v" + Decimal.Itoa(version), workspace, namespace, manifest]
  }

  ghost function Key(hash: string -> string, o: Origin): string {
    hash(Components(KeyParts(o.version, o.workspace, o.analyzer, hash(ManifestStream(KeyedPairs(o))))))
  }

  /** No two origins share a key: not across workspaces, versions, analyzers or file contents. */
  lemma KeyInjective(hash: string -> string, a: Origin, b: Origin)
    requires Injective(hash) && WellFormed(a) && WellFormed(b)
    requires Key(hash, a) == Key(hash, b)
    ensures a == b
  {
    var ma, mb := hash(ManifestStream(KeyedPairs(a))), hash(ManifestStream(KeyedPairs(b)));
    var pa, pb := KeyParts(a.version, a.workspace, a.analyzer, ma), KeyParts(b.version, b.workspace, b.analyzer, mb);
    ComponentsInjective(pa, pb);
    assert pa[0] == pb[0] && pa[1] == pb[1] && pa[2] == pb[2] && pa[3] == pb[3];
    VersionText(a.version, b.version);
    ManifestInjective(KeyedPairs(a), KeyedPairs(b));
    PairsBack(a);
    PairsBack(b);
  }

  lemma VersionText(v: nat, w: nat)
    requires "le-cache-v" + Decimal.Itoa(v) == "le-cache-v" + Decimal.Itoa(w)
    ensures v == w
  {
    assert ("le-cache-v" + Decimal.Itoa(v))[|"le-cache-v"|..] == Decimal.Itoa(v);
    assert ("le-cache-v" + Decimal.Itoa(w))[|"le-cache-v"|..] == Decimal.Itoa(w);
    Decimal.ItoaInjective(v, w);
  }

  lemma PairsBack(o: Origin)
    requires WellFormed(o)
    ensures o.pairs == KeyedPairs(o) - {VERSION_ENTRY}
  {
  }

  /** What the cache is built on: the digest, the stored form and the analyzers. derive is None
      where an analyzer fails, marshal where a result has no stored form. */
  datatype Setting<!R(!new)> = Setting(hash: string -> string, parse: string -> Option<R>, marshal: R -> Option<string>,
                                 derive: Origin -> Option<R>)
  {
    ghost predicate Valid() {
      && Injective(hash)
      && forall r :: marshal(r).Some? ==> parse(marshal(r).value) == Some(r)
    }
  }

  /** Which of the cache's own file operations fail during one call. */
  datatype Faults = Faults(get: bool, put: bool)

  type Blobs = map<string, string>

  /** Every entry is unreadable or is the fresh answer for the origin it is stored under. */
  ghost predicate Consistent<R(!new)>(s: Setting<R>, blobs: Blobs) {
    forall o | WellFormed(o) && Key(s.hash, o) in blobs ::
      s.parse(blobs[Key(s.hash, o)]).None? || s.parse(blobs[Key(s.hash, o)]) == s.derive(o)
  }

  /** One analyze call: what it answers and what it leaves in the store. */
  ghost function Serve<R(!new)>(s: Setting<R>, blobs: Blobs, o: Origin, f: Faults): (Option<R>, Blobs) {
    var key := Key(s.hash, o);
    if !f.get && key in blobs && s.parse(blobs[key]).Some? then (s.parse(blobs[key]), blobs)
    else if s.derive(o).None? || s.marshal(s.derive(o).value).None? || f.put then (s.derive(o), blobs)
    else (s.derive(o), blobs[key := s.marshal(s.derive(o).value).value])
  }

  lemma ServeFresh<R(!new)>(s: Setting<R>, blobs: Blobs, o: Origin, f: Faults)
    requires s.Valid() && Consistent(s, blobs) && WellFormed(o)
    ensures Serve(s, blobs, o, f).0 == s.derive(o)
    ensures Consistent(s, Serve(s, blobs, o, f).1)
  {
    var after := Serve(s, blobs, o, f).1;
    forall o' | WellFormed(o') && Key(s.hash, o') in after
      ensures s.parse(after[Key(s.hash, o')]).None? || s.parse(after[Key(s.hash, o')]) == s.derive(o')
    {
      if Key(s.hash, o') == Key(s.hash, o) {
        KeyInjective(s.hash, o', o);
      }
    }
  }

  /** A call that meets no fault leaves an entry for its origin, and from then on a call finds it: even where the
      analyzer itself would fail, the stored answer is given and nothing is written. */
  lemma ThenItHits<R(!new)>(s: Setting<R>, blobs: Blobs, o: Origin, broken: Setting<R>)
    requires s.Valid() && Consistent(s, blobs) && WellFormed(o)
    requires s.derive(o).Some? && s.marshal(s.derive(o).value).Some?
    requires broken == s.(derive := broken.derive)
    ensures var after := Serve(s, blobs, o, Faults(false, false)).1;
            Serve(broken, after, o, Faults(false, false)) == (s.derive(o), after)
  {
    ServeFresh(s, blobs, o, Faults(false, false));
  }

  /** What can happen to the store: a call of any version in any workspace, damage that leaves an
      entry unreadable, or an entry that is gone. */
  datatype Event = Call(o: Origin, f: Faults) | Damage(key: string, body: string) | Drop(key: string)

  ghost predicate Possible<R(!new)>(s: Setting<R>, e: Event) {
    match e
    case Call(o, _) => WellFormed(o)
    case Damage(_, body) => s.parse(body).None?
    case Drop(_) => true
  }

  ghost function After<R(!new)>(s: Setting<R>, events: seq<Event>): Blobs {
    if events == [] then map[]
    else
      var blobs := After(s, events[..|events| - 1]);
      match events[|events| - 1]
      case Call(o, f) => Serve(s, blobs, o, f).1
      case Damage(key, body) => blobs[key := body]
      case Drop(key) => blobs - {key}
  }

  lemma {:induction false} AlwaysConsistent<R(!new)>(s: Setting<R>, events: seq<Event>)
    requires s.Valid() && forall e | e in events :: Possible(s, e)
    ensures Consistent(s, After(s, events))
  {
    if events != [] {
      var front, e := events[..|events| - 1], events[|events| - 1];
      assert e in events && forall x | x in front :: x in events;
      AlwaysConsistent(s, front);
      if e.Call? {
        ServeFresh(s, After(s, front), e.o, e.f);
      }
    }
  }

  /** Whatever came before, every call answers what a fresh analysis would. */
  lemma EveryCallIsFresh<R(!new)>(s: Setting<R>, events: seq<Event>, k: nat)
    requires s.Valid() && k < |events| && events[k].Call? && forall e | e in events :: Possible(s, e)
    ensures Serve(s, After(s, events[..k]), events[k].o, events[k].f).0 == s.derive(events[k].o)
  {
    AlwaysConsistent(s, events[..k]);
    assert Possible(s, events[k]);
    ServeFresh(s, After(s, events[..k]), events[k].o, events[k].f);
  }

  datatype Found = Hit(body: string) | Miss | Fault

  class BlobCache {
    const workspace: string
    const version: nat
    const hash: string -> string
    var blobs: Blobs
    var hits: nat
    var misses: nat

    constructor (workspace: string, version: nat, hash: string -> string)
      ensures this.workspace == workspace && this.version == version && this.hash == hash
      ensures blobs == map[] && hits == misses == 0
    {
      this.workspace, this.version, this.hash := workspace, version, hash;
      blobs, hits, misses := map[], 0, 0;
    }

    method KeyOf(namespace: string, manifest: string) returns (key: string)
      ensures key == hash(Components(KeyParts(version, workspace, namespace, manifest)))
    {
      var h := new Hasher();
      WriteComponents(h, KeyParts(version, workspace, namespace, manifest));
      assert h.fed == Components(KeyParts(version, workspace, namespace, manifest));
      key := hash(h.fed);
    }

    method Get(namespace: string, manifest: string, fault: bool) returns (r: Found)
      modifies this`hits, this`misses
      ensures var key := hash(Components(KeyParts(version, workspace, namespace, manifest)));
              r == if fault then Fault else if key in blobs then Hit(blobs[key]) else Miss
      ensures hits == old(hits) + if r.Hit? then 1 else 0
      ensures misses == old(misses) + if r.Miss? then 1 else 0
    {
      var key := KeyOf(namespace, manifest);
      if fault {
        return Fault;
      }
      if key !in blobs {
        misses := misses + 1;
        return Miss;
      }
      hits := hits + 1;
      return Hit(blobs[key]);
    }

    method Put(namespace: string, manifest: string, body: string, fault: bool)
      modifies this`blobs
      ensures var key := hash(Components(KeyParts(version, workspace, namespace, manifest)));
              blobs == if fault then old(blobs) else old(blobs)[key := body]
    {
      var key := KeyOf(namespace, manifest);
      if !fault {
        blobs := blobs[key := body];
      }
    }
  }

  datatype File = File(path: string, contentHash: string)

  /** The path-to-hash map of the accepted files; a repeated path keeps its last hash. */
  ghost function PairsOf(files: seq<File>): map<string, string> {
    if files == [] then map[]
    else
      var f := files[|files| - 1];
      PairsOf(files[..|files| - 1])[f.path := f.contentHash]
  }

  /** Of several files with one path the last one's hash counts. */
  lemma {:induction false} LastHashCounts(a: seq<File>, f: File, b: seq<File>)
    requires forall i | 0 <= i < |b| :: b[i].path != f.path
    ensures f.path in PairsOf(a + [f] + b) && PairsOf(a + [f] + b)[f.path] == f.contentHash
  {
    var all := a + [f] + b;
    if b == [] {
      assert all[|all| - 1] == f;
    } else {
      LastHashCounts(a, f, b[..|b| - 1]);
      assert all[..|all| - 1] == a + [f] + b[..|b| - 1];
    }
  }

  /** Runs one analyzer through the cache. */
  method Analyze<R(!new)>(c: BlobCache, s: Setting<R>, analyzer: string, accepted: seq<File>, f: Faults) returns (r: Option<R>)
    requires s.hash == c.hash
    requires VERSION_ENTRY !in PairsOf(accepted)
    modifies c
    ensures (r, c.blobs) ==
            Serve(s, old(c.blobs), Origin(c.version, c.workspace, analyzer, PairsOf(accepted)), f)
    ensures s.Valid() && old(Consistent(s, c.blobs)) ==>
            r == s.derive(Origin(c.version, c.workspace, analyzer, PairsOf(accepted))) && Consistent(s, c.blobs)
  {
    var pairs: map<string, string> := map[];
    for i := 0 to |accepted|
      invariant pairs == PairsOf(accepted[..i])
    {
      assert accepted[..i + 1][..i] == accepted[..i];
      pairs := pairs[accepted[i].path := accepted[i].contentHash];
    }
    assert accepted[..|accepted|] == accepted;
    ghost var o := Origin(c.version, c.workspace, analyzer, pairs);
    ghost var blobs := c.blobs;
    if s.Valid() && Consistent(s, blobs) {
      ServeFresh(s, blobs, o, f);
    }
    var origin := Origin(c.version, c.workspace, analyzer, pairs);
    pairs := pairs[VERSION_ENTRY := Decimal.Itoa(c.version)];
    assert pairs == KeyedPairs(o);
    var manifest := ManifestOf(pairs, c.hash);
    var found := c.Get(analyzer, manifest, f.get);
    if found.Hit? && s.parse(found.body).Some? {
      return s.parse(found.body);
    }
    r := s.derive(origin);
    if r.None? {
      return r;
    }
    var body := s.marshal(r.value);
    if body.Some? {
      c.Put(analyzer, manifest, body.value, f.put);
    }
  }
}
