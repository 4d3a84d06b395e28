/** The level-by-level bounded walk, proved against the walks of the edge table. */
module Traverse {
  import opened Graph
  import opened Collections
  import opened Ordering

  const MAX_TRAVERSAL_DEPTH := 6
  const DEFAULT_MAX_NODES := 5000
  const EXPAND_BATCH := 400

  datatype PathState = PathState(depth: nat, rank: nat, via: EdgeKind)
  datatype Reached = Reached(node: Node, depth: nat, via: EdgeKind, evidence: Evidence)
  datatype Error = DepthOutOfRange | InvalidEvidence | ForeignWorkspace
  datatype Result = Ok(reached: seq<Reached>) | Err(error: Error)

  /** The best map, which Traverse hands to expand and fetchHop to be updated in place. */
  class PathTable {
    var best: map<int, PathState>

    constructor ()
      ensures best == map[]
    {
      best := map[];
    }
  }

  function MaxDepth(q: Query): int { if q.maxDepth <= 0 then 1 else q.maxDepth }
  function Limit(q: Query): int { if q.maxNodes <= 0 then DEFAULT_MAX_NODES else q.maxNodes }

  ghost function Hops(edges: set<Edge>, q: Query): set<Edge> { set e | e in edges && Passes(q, e) }

  /** Every node any walk can end in: a bound a caller can compute before the call. */
  ghost function Ball(edges: set<Edge>, q: Query): set<int> {
    (set n | n in q.start) + (set e | e in Hops(edges, q) :: To(q, e))
  }

  ghost function Via(p: seq<Edge>): EdgeKind { if p == [] then Unset else p[|p| - 1].kind }

  /** st describes a walk that is really there: its depth, its weakest hop and its last edge kind. */
  ghost predicate Witnessed(edges: set<Edge>, q: Query, n: int, st: PathState) {
    exists p :: IsWalk(edges, q, p, n) && |p| == st.depth && Weakest(p) == st.rank && Via(p) == st.via
  }

  ghost predicate Sound(edges: set<Edge>, q: Query, best: map<int, PathState>) {
    forall n | n in best :: Witnessed(edges, q, n, best[n])
  }

  /** No walk of at most d hops is shorter than the entry of its end, or as short and stronger. */
  ghost predicate Covers(edges: set<Edge>, q: Query, best: map<int, PathState>, d: int) {
    forall p, n | IsWalk(edges, q, p, n) && |p| <= d ::
      n in best && best[n].depth <= |p| && (best[n].depth == |p| ==> best[n].rank <= Weakest(p))
  }

  /** How one level changes the table: it only adds entries of depth d or strengthens them. */
  ghost predicate Advances(b0: map<int, PathState>, b1: map<int, PathState>, d: nat) {
    && b0.Keys <= b1.Keys
    && (forall n | n in b0 && b0[n].depth < d :: b1[n] == b0[n])
    && (forall n | n in b0 && b0[n].depth == d :: b1[n].depth == d && b1[n].rank <= b0[n].rank)
    && (forall n | n in b1 && n !in b0 :: b1[n].depth == d)
  }

  ghost predicate DepthsWithin(b: map<int, PathState>, d: int) { forall n | n in b :: b[n].depth <= d }

  /** The entry of e's far end is at least as good as the way over e. */
  ghost predicate Relaxed(q: Query, b: map<int, PathState>, e: Edge, d: nat) {
    && From(q, e) in b && To(q, e) in b && b[To(q, e)].depth <= d
    && (b[To(q, e)].depth == d ==> b[To(q, e)].rank <= Max(b[From(q, e)].rank, e.evidence.Rank()))
  }

  ghost predicate Enumerates<T(!new)>(s: seq<T>, elems: set<T>) {
    Distinct(s) && forall x :: x in s <==> x in elems
  }

  lemma EnumeratesSnoc<T(!new)>(s: seq<T>, x: T, elems: set<T>)
    requires Enumerates(s, elems) && x !in elems
    ensures Enumerates(s + [x], elems + {x})
  {
    forall i, j | 0 <= i < j < |s + [x]| ensures (s + [x])[i] != (s + [x])[j] {
      assert s[i] in s;
    }
  }

  /** What the LIMITed hop query may return: distinct matching rows in any order, all of them
      unless the cap is reached. */
  predicate RowSet(edges: set<Edge>, q: Query, chunk: seq<int>, cap: int, rows: seq<Edge>) {
    && Distinct(rows)
    && (forall e | e in rows :: e in edges && Passes(q, e) && From(q, e) in chunk)
    && |rows| <= cap
    && (|rows| < cap ==> forall e | e in edges && Passes(q, e) && From(q, e) in chunk :: e in rows)
  }

  lemma {:induction false} SomeRowSet(edges: set<Edge>, q: Query, chunk: seq<int>, cap: int)
    requires cap >= 0
    ensures exists rows :: RowSet(edges, q, chunk, cap, rows)
    decreases edges
  {
    if edges == {} || cap == 0 {
      assert RowSet(edges, q, chunk, cap, []);
    } else {
      var e :| e in edges;
      if Passes(q, e) && From(q, e) in chunk {
        SomeRowSet(edges - {e}, q, chunk, cap - 1);
        var rows :| RowSet(edges - {e}, q, chunk, cap - 1, rows);
        assert RowSet(edges, q, chunk, cap, rows + [e]);
      } else {
        SomeRowSet(edges - {e}, q, chunk, cap);
        var rows :| RowSet(edges - {e}, q, chunk, cap, rows);
        assert RowSet(edges, q, chunk, cap, rows);
      }
    }
  }

  lemma SoundInBall(edges: set<Edge>, q: Query, best: map<int, PathState>)
    requires Sound(edges, q, best)
    ensures best.Keys <= Ball(edges, q)
    ensures |best| <= |Ball(edges, q)|
  {
    forall n | n in best ensures n in Ball(edges, q) {
      var p :| IsWalk(edges, q, p, n) && |p| == best[n].depth && Weakest(p) == best[n].rank && Via(p) == best[n].via;
      if p != [] {
        assert p[|p| - 1] in Hops(edges, q);
      }
    }
    assert |best| == |best.Keys|;
    SubsetSize(best.Keys, Ball(edges, q));
  }

  lemma WitnessedStep(edges: set<Edge>, q: Query, from: PathState, e: Edge)
    requires Witnessed(edges, q, From(q, e), from) && e in edges && Passes(q, e)
    ensures Witnessed(edges, q, To(q, e), PathState(from.depth + 1, Max(from.rank, e.evidence.Rank()), e.kind))
  {
    var p :| IsWalk(edges, q, p, From(q, e)) && |p| == from.depth && Weakest(p) == from.rank && Via(p) == from.via;
    ExtendWalk(edges, q, p, e);
    assert Via(p + [e]) == e.kind;
  }

  /** The invariant of one level, between its first row and its last. */
  ghost predicate InLevel(edges: set<Edge>, q: Query, b0: map<int, PathState>, b: map<int, PathState>, depth: nat) {
    Sound(edges, q, b) && DepthsWithin(b, depth) && Advances(b0, b, depth)
  }

  lemma RecordHop(edges: set<Edge>, q: Query, b0: map<int, PathState>, b: map<int, PathState>, e: Edge, depth: nat,
                  st: PathState)
    requires InLevel(edges, q, b0, b, depth)
    requires e in edges && Passes(q, e) && From(q, e) in b0 && b0[From(q, e)].depth == depth - 1
    requires st == PathState(depth, Max(b[From(q, e)].rank, e.evidence.Rank()), e.kind)
    requires To(q, e) in b ==> b[To(q, e)].depth == depth && b[To(q, e)].rank > st.rank
    ensures InLevel(edges, q, b0, b[To(q, e) := st], depth)
    ensures Advances(b, b[To(q, e) := st], depth)
    ensures Relaxed(q, b[To(q, e) := st], e, depth)
  {
    WitnessedStep(edges, q, b[From(q, e)], e);
  }

  lemma RelaxedMonotone(q: Query, b0: map<int, PathState>, b1: map<int, PathState>, e: Edge, d: nat)
    requires Advances(b0, b1, d) && Relaxed(q, b0, e, d) && b0[From(q, e)].depth < d
    ensures Relaxed(q, b1, e, d)
  {
  }

  /** Every edge of es starts at an entry of the previous level. */
  ghost predicate FromLevel(q: Query, b0: map<int, PathState>, es: seq<Edge>, depth: nat) {
    forall e | e in es :: From(q, e) in b0 && b0[From(q, e)].depth == depth - 1
  }

  ghost predicate AllRelaxed(q: Query, b: map<int, PathState>, es: seq<Edge>, depth: nat) {
    forall e | e in es :: Relaxed(q, b, e, depth)
  }

  lemma AllRelaxedMonotone(q: Query, b0: map<int, PathState>, b1: map<int, PathState>, b2: map<int, PathState>,
                           es: seq<Edge>, d: nat)
    requires Advances(b0, b1, d) && Advances(b1, b2, d) && AllRelaxed(q, b1, es, d)
    requires d >= 1 && FromLevel(q, b0, es, d)
    ensures AllRelaxed(q, b2, es, d)
  {
    forall e | e in es ensures Relaxed(q, b2, e, d) {
      assert From(q, e) in b0 && b0[From(q, e)].depth < d;
      RelaxedMonotone(q, b1, b2, e, d);
    }
  }

  /** Every row leads to a node that is recorded already. */
  ghost predicate OnlyMeets(q: Query, b: map<int, PathState>, rows: seq<Edge>) {
    forall k | 0 <= k < |rows| :: To(q, rows[k]) in b
  }

  /** The entry a row offers its far end. */
  function Offer(b: map<int, PathState>, q: Query, e: Edge, depth: nat): PathState
    requires From(q, e) in b
  {
    PathState(depth, Max(b[From(q, e)].rank, e.evidence.Rank()), e.kind)
  }

  /** Whether the entry of the far end is as good as the offer already. */
  predicate Declines(b: map<int, PathState>, to: int, offer: PathState) {
    to in b && (b[to].depth < offer.depth || (b[to].depth == offer.depth && b[to].rank <= offer.rank))
  }

  /** What a row does to the table: nothing, or it enters its offer. */
  function MetRow(b: map<int, PathState>, q: Query, e: Edge, depth: nat, limit: int): map<int, PathState>
    requires From(q, e) in b
  {
    var offer := Offer(b, q, e, depth);
    if Declines(b, To(q, e), offer) || (To(q, e) !in b && |b| >= limit) then b else b[To(q, e) := offer]
  }

  method MeetRow(q: Query, e: Edge, depth: nat, limit: int, t: PathTable) returns (isNew: bool, full: bool)
    requires From(q, e) in t.best
    modifies t
    ensures t.best == MetRow(old(t.best), q, e, depth, limit)
    ensures full <==> To(q, e) !in old(t.best) && |old(t.best)| >= limit
    ensures isNew <==> To(q, e) !in old(t.best) && |old(t.best)| < limit
  {
    isNew, full := false, false;
    var to := To(q, e);
    var rank := e.evidence.Rank();
    var parent := t.best[From(q, e)];
    if parent.rank > rank {
      rank := parent.rank;
    }
    if to in t.best
       && (t.best[to].depth < depth || (t.best[to].depth == depth && t.best[to].rank <= rank)) {
      return;
    }
    if to !in t.best && |t.best| >= limit {
      full := true;
      return;
    }
    isNew := to !in t.best;
    t.best := t.best[to := PathState(depth, rank, e.kind)];
  }

  /** A row keeps the level sound, only improves it, and unless the table is full the way over it is accounted for. */
  lemma RowKeepsLevel(edges: set<Edge>, b0: map<int, PathState>, b: map<int, PathState>, q: Query, e: Edge, depth: nat,
                      limit: int)
    requires depth >= 1 && InLevel(edges, q, b0, b, depth)
    requires e in edges && Passes(q, e) && From(q, e) in b0 && b0[From(q, e)].depth == depth - 1
    ensures From(q, e) in b && b[From(q, e)] == b0[From(q, e)]
    ensures var b' := MetRow(b, q, e, depth, limit);
            InLevel(edges, q, b0, b', depth) && Advances(b, b', depth)
            && (To(q, e) in b || |b| < limit ==> Relaxed(q, b', e, depth))
  {
    assert b[From(q, e)] == b0[From(q, e)];
    var offer := Offer(b, q, e, depth);
    if !Declines(b, To(q, e), offer) {
      Entering(edges, b0, b, q, e, depth);
    }
  }

  lemma Entering(edges: set<Edge>, b0: map<int, PathState>, b: map<int, PathState>, q: Query, e: Edge, depth: nat)
    requires depth >= 1 && InLevel(edges, q, b0, b, depth)
    requires e in edges && Passes(q, e) && From(q, e) in b0 && b0[From(q, e)].depth == depth - 1
    requires From(q, e) in b && !Declines(b, To(q, e), Offer(b, q, e, depth))
    ensures var b' := b[To(q, e) := Offer(b, q, e, depth)];
            InLevel(edges, q, b0, b', depth) && Advances(b, b', depth) && Relaxed(q, b', e, depth)
  {
    RecordHop(edges, q, b0, b, e, depth, Offer(b, q, e, depth));
  }

  /** After the first i rows. */
  ghost predicate RowsMet(edges: set<Edge>, q: Query, b0: map<int, PathState>, b: map<int, PathState>, rows: seq<Edge>,
                          i: nat, depth: nat, limit: int, found: seq<int>)
  {
    && i <= |rows| && InLevel(edges, q, b0, b, depth)
    && Enumerates(found, b.Keys - b0.Keys) && (|b| <= |b0| || |b| <= limit)
    && (OnlyMeets(q, b0, rows) ==> found == []) && AllRelaxed(q, b, rows[..i], depth)
  }

  ghost predicate RowsOf(edges: set<Edge>, q: Query, b0: map<int, PathState>, rows: seq<Edge>, depth: nat) {
    depth >= 1 && FromLevel(q, b0, rows, depth) && forall e | e in rows :: e in edges && Passes(q, e)
  }

  lemma NextRow(edges: set<Edge>, q: Query, b0: map<int, PathState>, b: map<int, PathState>, rows: seq<Edge>, i: nat,
                depth: nat, limit: int, found: seq<int>, found': seq<int>)
    requires RowsOf(edges, q, b0, rows, depth) && i < |rows| && RowsMet(edges, q, b0, b, rows, i, depth, limit, found)
    requires To(q, rows[i]) in b || |b| < limit
    requires found' == if To(q, rows[i]) in b then found else found + [To(q, rows[i])]
    ensures From(q, rows[i]) in b
    ensures RowsMet(edges, q, b0, MetRow(b, q, rows[i], depth, limit), rows, i + 1, depth, limit, found')
  {
    RowFits(edges, q, b0, b, rows, i, depth);
    var b' := MetRow(b, q, rows[i], depth, limit);
    RowKeepsLevel(edges, b0, b, q, rows[i], depth, limit);
    RelaxedSnoc(q, b0, b, b', rows, i, depth);
    NextFound(q, b0, b, b', rows, i, limit, found, found');
  }

  lemma RowFits(edges: set<Edge>, q: Query, b0: map<int, PathState>, b: map<int, PathState>, rows: seq<Edge>, i: nat,
                depth: nat)
    requires RowsOf(edges, q, b0, rows, depth) && i < |rows| && Advances(b0, b, depth)
    ensures rows[i] in edges && Passes(q, rows[i]) && From(q, rows[i]) in b0 && b0[From(q, rows[i])].depth == depth - 1
    ensures From(q, rows[i]) in b
  {
    assert rows[i] in rows;
  }

  lemma NextFound(q: Query, b0: map<int, PathState>, b: map<int, PathState>, b': map<int, PathState>, rows: seq<Edge>,
                  i: nat, limit: int, found: seq<int>, found': seq<int>)
    requires i < |rows| && b0.Keys <= b.Keys && b'.Keys == b.Keys + {To(q, rows[i])}
    requires found' == if To(q, rows[i]) in b then found else found + [To(q, rows[i])]
    requires Enumerates(found, b.Keys - b0.Keys) && (|b| <= |b0| || |b| <= limit) && (To(q, rows[i]) in b || |b| < limit)
    requires OnlyMeets(q, b0, rows) ==> found == []
    ensures Enumerates(found', b'.Keys - b0.Keys) && (|b'| <= |b0| || |b'| <= limit)
    ensures OnlyMeets(q, b0, rows) ==> found' == []
  {
    var to := To(q, rows[i]);
    KeysGrow(b0, b, b', to, to !in b);
    if to !in b {
      EnumeratesSnoc(found, to, b.Keys - b0.Keys);
    }
  }

  method FetchHop(ghost edges: set<Edge>, q: Query, rows: seq<Edge>, depth: nat, limit: int, t: PathTable)
    returns (found: seq<int>, fetched: nat, capped: bool)
    requires Sound(edges, q, t.best) && DepthsWithin(t.best, depth) && RowsOf(edges, q, t.best, rows, depth)
    modifies t
    ensures InLevel(edges, q, old(t.best), t.best, depth)
    ensures Enumerates(found, t.best.Keys - old(t.best).Keys)
    ensures |t.best| <= |old(t.best)| || |t.best| <= limit
    ensures OnlyMeets(q, old(t.best), rows) ==> found == []
    ensures capped ==> |t.best| >= limit
    ensures !capped ==> fetched == |rows| && AllRelaxed(q, t.best, rows, depth)
  {
    ghost var b0 := t.best;
    found, fetched, capped := [], 0, false;
    NoRows(edges, q, b0, rows, depth, limit);
    for i := 0 to |rows|
      invariant fetched == i
      invariant RowsMet(edges, q, b0, t.best, rows, i, depth, limit, found)
    {
      fetched := fetched + 1;
      ghost var b, before := t.best, found;
      RowFits(edges, q, b0, b, rows, i, depth);
      var isNew, full := MeetRow(q, rows[i], depth, limit, t);
      if full {
        capped := true;
        return;
      }
      if isNew {
        found := found + [To(q, rows[i])];
      }
      NextRow(edges, q, b0, b, rows, i, depth, limit, before, found);
    }
    assert rows[..|rows|] == rows;
  }

  lemma NoRows(edges: set<Edge>, q: Query, b: map<int, PathState>, rows: seq<Edge>, depth: nat, limit: int)
    requires Sound(edges, q, b) && DepthsWithin(b, depth)
    ensures RowsMet(edges, q, b, b, rows, 0, depth, limit, [])
  {
    assert b.Keys - b.Keys == {};
  }

  lemma RelaxedSnoc(q: Query, b0: map<int, PathState>, b1: map<int, PathState>, b2: map<int, PathState>,
                    rows: seq<Edge>, i: nat, d: nat)
    requires i < |rows| && Advances(b0, b1, d) && Advances(b1, b2, d) && d >= 1 && FromLevel(q, b0, rows, d)
    requires AllRelaxed(q, b1, rows[..i], d) && Relaxed(q, b2, rows[i], d)
    ensures AllRelaxed(q, b2, rows[..i + 1], d)
  {
    assert rows[..i + 1] == rows[..i] + [rows[i]];
    AllRelaxedMonotone(q, b0, b1, b2, rows[..i], d);
  }

  lemma KeysGrow(b0: map<int, PathState>, b1: map<int, PathState>, b2: map<int, PathState>, n: int, isNew: bool)
    requires b0.Keys <= b1.Keys && b2.Keys == b1.Keys + (if isNew then {n} else {}) && (isNew ==> n !in b1)
    ensures b2.Keys - b0.Keys == (b1.Keys - b0.Keys) + if isNew then {n} else {}
    ensures |b2| == |b1| + if isNew then 1 else 0
  {
    assert |b1| == |b1.Keys| && |b2| == |b2.Keys|;
  }

  /** Every passing edge that leaves one of the nodes has been relaxed. */
  ghost predicate ChunkRelaxed(edges: set<Edge>, q: Query, b: map<int, PathState>, chunk: seq<int>, d: nat) {
    forall e | e in edges && Passes(q, e) && From(q, e) in chunk :: Relaxed(q, b, e, d)
  }

  ghost predicate AtLevel(b: map<int, PathState>, ns: seq<int>, d: int) {
    forall n | n in ns :: n in b && b[n].depth == d
  }

  lemma ChunkRelaxedMonotone(edges: set<Edge>, q: Query, b0: map<int, PathState>, b1: map<int, PathState>,
                             b2: map<int, PathState>, chunk: seq<int>, d: nat)
    requires d >= 1 && AtLevel(b0, chunk, d - 1)
    requires Advances(b0, b1, d) && Advances(b1, b2, d) && ChunkRelaxed(edges, q, b1, chunk, d)
    ensures ChunkRelaxed(edges, q, b2, chunk, d)
  {
    forall e | e in edges && Passes(q, e) && From(q, e) in chunk ensures Relaxed(q, b2, e, d) {
      assert From(q, e) in b0 && b0[From(q, e)].depth < d;
      RelaxedMonotone(q, b1, b2, e, d);
    }
  }

  lemma AdvancesTransitive(b0: map<int, PathState>, b1: map<int, PathState>, b2: map<int, PathState>, d: nat)
    requires Advances(b0, b1, d) && Advances(b1, b2, d)
    ensures Advances(b0, b2, d)
  {
  }

  lemma EnumeratesConcat<T(!new)>(s: seq<T>, a: set<T>, t: seq<T>, b: set<T>)
    requires Enumerates(s, a) && Enumerates(t, b) && a !! b
    ensures Enumerates(s + t, a + b)
  {
    forall i, j | 0 <= i < j < |s + t| ensures (s + t)[i] != (s + t)[j] {
      if i < |s| <= j {
        assert s[i] in s && t[j - |s|] in t;
      }
    }
  }

  /** The answer to one batch fills the row cap with rows that lead to recorded nodes only. */
  ghost predicate Hides(edges: set<Edge>, q: Query, answer: (seq<int>, int) -> seq<Edge>, chunk: seq<int>, limit: int,
                        b: map<int, PathState>)
  {
    && |b| < limit
    && var rows := answer(chunk, 4 * (limit - |b|));
       RowSet(edges, q, chunk, 4 * (limit - |b|), rows) && |rows| == 4 * (limit - |b|) && OnlyMeets(q, b, rows)
  }

  /** What the hop query answers: the rows that answer names, if a query may return them, else any that it may. */
  method HopRows(edges: set<Edge>, q: Query, answer: (seq<int>, int) -> seq<Edge>, chunk: seq<int>, cap: int,
                 ghost limit: int, ghost b: map<int, PathState>)
    returns (rows: seq<Edge>)
    requires cap == 4 * (limit - |b|) >= 0
    ensures RowSet(edges, q, chunk, cap, rows)
    ensures RowSet(edges, q, chunk, cap, answer(chunk, cap)) ==> rows == answer(chunk, cap)
    ensures Hides(edges, q, answer, chunk, limit, b) ==> |rows| == cap && OnlyMeets(q, b, rows)
  {
    rows := answer(chunk, cap);
    if !RowSet(edges, q, chunk, cap, rows) {
      SomeRowSet(edges, q, chunk, cap);
      rows :| RowSet(edges, q, chunk, cap, rows);
    }
  }

  lemma RowsFromLevel(edges: set<Edge>, q: Query, b: map<int, PathState>, chunk: seq<int>, cap: int, rows: seq<Edge>,
                      depth: nat)
    requires AtLevel(b, chunk, depth - 1) && RowSet(edges, q, chunk, cap, rows)
    ensures FromLevel(q, b, rows, depth)
  {
  }

  /** One batch of the frontier. */
  method ExpandBatch(edges: set<Edge>, q: Query, answer: (seq<int>, int) -> seq<Edge>, chunk: seq<int>, depth: nat,
                     limit: int, t: PathTable)
    returns (found: seq<int>, hitCap: bool)
    requires depth >= 1 && Sound(edges, q, t.best) && DepthsWithin(t.best, depth)
    requires AtLevel(t.best, chunk, depth - 1)
    modifies t
    ensures InLevel(edges, q, old(t.best), t.best, depth)
    ensures Enumerates(found, t.best.Keys - old(t.best).Keys)
    ensures |t.best| <= |old(t.best)| || |t.best| <= limit
    ensures hitCap ==> |Hops(edges, q)| >= 4 * (limit - |t.best|)
    ensures !hitCap ==> ChunkRelaxed(edges, q, t.best, chunk, depth)
    ensures Hides(edges, q, answer, chunk, limit, old(t.best)) ==> hitCap && found == []
  {
    var remaining := limit - |t.best|;
    if remaining <= 0 {
      return [], true;
    }
    var rowCap := remaining * 4;
    ghost var before := t.best;
    var rows := HopRows(edges, q, answer, chunk, rowCap, limit, before);
    found, hitCap := Fetched(edges, q, chunk, rows, depth, limit, rowCap, t);
  }

  /** The rows of one batch; filling the row cap counts as hitting it. */
  method Fetched(ghost edges: set<Edge>, q: Query, ghost chunk: seq<int>, rows: seq<Edge>, depth: nat, limit: int,
                 rowCap: int, t: PathTable)
    returns (found: seq<int>, hitCap: bool)
    requires depth >= 1 && Sound(edges, q, t.best) && DepthsWithin(t.best, depth)
    requires AtLevel(t.best, chunk, depth - 1) && RowSet(edges, q, chunk, rowCap, rows)
    requires rowCap == 4 * (limit - |t.best|) > 0
    modifies t
    ensures InLevel(edges, q, old(t.best), t.best, depth)
    ensures Enumerates(found, t.best.Keys - old(t.best).Keys)
    ensures |t.best| <= |old(t.best)| || |t.best| <= limit
    ensures hitCap ==> |Hops(edges, q)| >= 4 * (limit - |t.best|)
    ensures !hitCap ==> ChunkRelaxed(edges, q, t.best, chunk, depth)
    ensures |rows| == rowCap && OnlyMeets(q, old(t.best), rows) ==> hitCap && found == []
  {
    ghost var before := t.best;
    RowsFromLevel(edges, q, t.best, chunk, rowCap, rows, depth);
    var fetched, capped;
    found, fetched, capped := FetchHop(edges, q, rows, depth, limit, t);
    LevelGrows(before, t.best, found);
    DistinctWithin(rows, Hops(edges, q));
    hitCap := capped || fetched >= rowCap;
    if !hitCap {
      AllRowsRelaxed(edges, q, t.best, chunk, rowCap, rows, depth);
    }
  }

  lemma AllRowsRelaxed(edges: set<Edge>, q: Query, b: map<int, PathState>, chunk: seq<int>, cap: int, rows: seq<Edge>,
                       depth: nat)
    requires RowSet(edges, q, chunk, cap, rows) && |rows| < cap && AllRelaxed(q, b, rows, depth)
    ensures ChunkRelaxed(edges, q, b, chunk, depth)
  {
  }

  /** A level adds the nodes it returns, so one that returns none adds none. */
  lemma LevelGrows(b0: map<int, PathState>, b1: map<int, PathState>, next: seq<int>)
    requires b0.Keys <= b1.Keys && Enumerates(next, b1.Keys - b0.Keys)
    ensures |b0| <= |b1| && (next == [] ==> b1.Keys == b0.Keys && |b1| == |b0|)
  {
    SubsetSizeOfMap(b0, b1);
    if next == [] {
      forall n | n in b1.Keys ensures n in b0.Keys {
        assert n in b1.Keys - b0.Keys ==> n in next;
      }
      assert b1.Keys == b0.Keys;
      assert |b1| == |b1.Keys| && |b0| == |b0.Keys|;
    }
  }

  /** One level, in batches. */
  method Expand(edges: set<Edge>, q: Query, answer: (seq<int>, int) -> seq<Edge>, frontier: seq<int>, depth: nat,
                limit: int, t: PathTable)
    returns (next: seq<int>, hitCap: bool)
    requires depth >= 1
    requires Sound(edges, q, t.best) && DepthsWithin(t.best, depth)
    requires AtLevel(t.best, frontier, depth - 1)
    modifies t
    ensures InLevel(edges, q, old(t.best), t.best, depth)
    ensures Enumerates(next, t.best.Keys - old(t.best).Keys)
    ensures |t.best| <= |old(t.best)| || |t.best| <= limit
    ensures hitCap ==> |Hops(edges, q)| >= 4 * (limit - |t.best|)
    ensures !hitCap ==> ChunkRelaxed(edges, q, t.best, frontier, depth)
    ensures 0 < |frontier| <= EXPAND_BATCH && Hides(edges, q, answer, frontier, limit, old(t.best)) ==>
            hitCap && next == []
  {
    ghost var b0 := t.best;
    next := [];
    var start := 0;
    while start < |frontier|
      invariant 0 <= start <= |frontier| && (start == 0 || start >= EXPAND_BATCH || start == |frontier|)
      invariant start == 0 ==> next == [] && t.best == b0
      invariant start > 0 && |frontier| <= EXPAND_BATCH ==> !Hides(edges, q, answer, frontier, limit, b0)
      invariant InLevel(edges, q, b0, t.best, depth)
      invariant Enumerates(next, t.best.Keys - b0.Keys)
      invariant |t.best| <= |b0| || |t.best| <= limit
      invariant ChunkRelaxed(edges, q, t.best, frontier[..start], depth)
    {
      var end := start + EXPAND_BATCH;
      if end > |frontier| {
        end := |frontier|;
      }
      var chunk := frontier[start..end];
      ghost var b1 := t.best;
      assert start == 0 && |frontier| <= EXPAND_BATCH ==> chunk == frontier;
      LaterBatch(b0, b1, frontier, start, end, depth);
      var found;
      found, hitCap := ExpandBatch(edges, q, answer, chunk, depth, limit, t);
      NextGrows(next, found, b0, b1, t.best);
      next := next + found;
      AdvancesTransitive(b0, b1, t.best, depth);
      if hitCap {
        return;
      }
      BatchRelaxed(edges, q, b0, b1, t.best, frontier, start, end, depth);
      start := end;
    }
    assert frontier[..|frontier|] == frontier;
    hitCap := false;
  }

  /** The nodes of a later batch still stand where the level found them. */
  lemma LaterBatch(b0: map<int, PathState>, b1: map<int, PathState>, frontier: seq<int>, start: nat, end: nat, d: nat)
    requires start <= end <= |frontier| && d >= 1 && AtLevel(b0, frontier, d - 1) && Advances(b0, b1, d)
    ensures AtLevel(b1, frontier[start..end], d - 1)
  {
    forall n | n in frontier[start..end] ensures n in b1 && b1[n].depth == d - 1 {
      assert n in frontier;
    }
  }

  lemma BatchRelaxed(edges: set<Edge>, q: Query, b0: map<int, PathState>, b1: map<int, PathState>,
                     b2: map<int, PathState>, frontier: seq<int>, start: nat, end: nat, d: nat)
    requires start <= end <= |frontier| && d >= 1 && AtLevel(b0, frontier, d - 1)
    requires Advances(b0, b1, d) && Advances(b1, b2, d)
    requires ChunkRelaxed(edges, q, b1, frontier[..start], d) && ChunkRelaxed(edges, q, b2, frontier[start..end], d)
    ensures ChunkRelaxed(edges, q, b2, frontier[..end], d)
  {
    assert AtLevel(b0, frontier[..start], d - 1) by {
      assert forall n | n in frontier[..start] :: n in frontier;
    }
    ChunkRelaxedMonotone(edges, q, b0, b1, b2, frontier[..start], d);
    assert frontier[..end] == frontier[..start] + frontier[start..end];
  }

  lemma NextGrows(next: seq<int>, found: seq<int>, b0: map<int, PathState>, b1: map<int, PathState>,
                  b2: map<int, PathState>)
    requires b0.Keys <= b1.Keys <= b2.Keys
    requires Enumerates(next, b1.Keys - b0.Keys) && Enumerates(found, b2.Keys - b1.Keys)
    ensures Enumerates(next + found, b2.Keys - b0.Keys)
  {
    EnumeratesConcat(next, b1.Keys - b0.Keys, found, b2.Keys - b1.Keys);
    assert (b1.Keys - b0.Keys) + (b2.Keys - b1.Keys) == b2.Keys - b0.Keys;
  }

  /** A level that relaxed every edge out of the level before it covers the walks one hop longer. */
  lemma CoversNext(edges: set<Edge>, q: Query, b0: map<int, PathState>, b1: map<int, PathState>, d: nat)
    requires d >= 1 && Sound(edges, q, b0) && Covers(edges, q, b0, d - 1) && DepthsWithin(b0, d - 1)
    requires Advances(b0, b1, d)
    requires forall e | e in edges && Passes(q, e) && From(q, e) in b0 && b0[From(q, e)].depth == d - 1 ::
               Relaxed(q, b1, e, d)
    ensures Covers(edges, q, b1, d)
  {
    forall p, n | IsWalk(edges, q, p, n) && |p| <= d
      ensures n in b1 && b1[n].depth <= |p| && (b1[n].depth == |p| ==> b1[n].rank <= Weakest(p))
    {
      if |p| == d {
        var e, front := p[|p| - 1], p[..|p| - 1];
        var m := From(q, e);
        assert IsWalk(edges, q, front, m);
        if b0[m].depth < d - 1 {
          WitnessedStep(edges, q, b0[m], e);
          var st := PathState(b0[m].depth + 1, Max(b0[m].rank, e.evidence.Rank()), e.kind);
          var p' :| IsWalk(edges, q, p', n) && |p'| == st.depth && Weakest(p') == st.rank && Via(p') == st.via;
          assert n in b0 && b0[n].depth <= |p'|;
        } else {
          assert Relaxed(q, b1, e, d);
        }
      } else {
        assert n in b0;
      }
    }
  }

  /** Once a level is empty, nothing lies further out. */
  lemma {:induction false} EmptyLevelCovers(edges: set<Edge>, q: Query, b: map<int, PathState>, d: nat, k: nat)
    requires Sound(edges, q, b) && Covers(edges, q, b, d) && DepthsWithin(b, d) && d <= k
    requires forall n | n in b :: b[n].depth != d
    ensures Covers(edges, q, b, k)
    decreases k - d
  {
    if d < k {
      CoversNext(edges, q, b, b, d + 1);
      EmptyLevelCovers(edges, q, b, d + 1, k);
    }
  }

  /** The nodes table rows of the given ids, in any order; a row of another workspace is refused. */
  method LoadNodes(nodes: map<int, Node>, workspace: string, ids: set<int>) returns (out: seq<Node>, ok: bool)
    requires forall id | id in nodes :: nodes[id].id == id
    ensures ok <==> forall id | id in ids && id in nodes :: nodes[id].workspace == workspace
    ensures ok ==> Distinct(out) && forall n | n in out :: n.id in ids && n.id in nodes && nodes[n.id] == n
    ensures ok ==> forall id | id in ids && id in nodes :: nodes[id] in out
  {
    out, ok := [], true;
    var left := ids;
    while left != {}
      invariant left <= ids
      invariant forall id | id in ids && id !in left && id in nodes :: nodes[id].workspace == workspace
      invariant Distinct(out)
      invariant forall n | n in out :: n.id in ids && n.id !in left && n.id in nodes && nodes[n.id] == n
      invariant forall id | id in ids && id !in left && id in nodes :: nodes[id] in out
      decreases left
    {
      ghost var some := Member(left);
      var id :| id in left;
      if id in nodes {
        if nodes[id].workspace != workspace {
          return out, false;
        }
        assert nodes[id] !in out;
        assert Enumerates(out, set n | n in out);
        EnumeratesSnoc(out, nodes[id], set n | n in out);
        out := out + [nodes[id]];
      }
      left := left - {id};
    }
  }

  /** The report order: depth, then kind, then fully qualified name. */
  predicate ReachedLess(a: Reached, b: Reached) {
    if a.depth != b.depth then a.depth < b.depth
    else if a.node.kind != b.node.kind then StrLess(a.node.kind, b.node.kind)
    else StrLess(a.node.fqn, b.node.fqn)
  }

  lemma ReachedOrder()
    ensures StrictWeakOrder(ReachedLess)
  {
    forall x, y | ReachedLess(x, y) ensures !ReachedLess(y, x) {
      StrLessTotal(x.node.kind, y.node.kind);
      StrLessTotal(x.node.fqn, y.node.fqn);
    }
    forall x, y, z | !ReachedLess(y, x) && !ReachedLess(z, y) ensures !ReachedLess(z, x) {
      if x.depth == y.depth == z.depth {
        StrLessTotal(x.node.kind, y.node.kind);
        StrLessTotal(y.node.kind, z.node.kind);
        StrLessTotal(x.node.kind, z.node.kind);
        StrLessTransitive(x.node.kind, y.node.kind, z.node.kind);
        if x.node.kind == y.node.kind == z.node.kind {
          StrLessTransitive(x.node.fqn, y.node.fqn, z.node.fqn);
        }
      }
    }
  }

  /** Rows in report order: nearer ones first, then by kind, then by name. */
  lemma NearestFirst(rows: seq<Reached>, i: nat, j: nat)
    requires SortedBy(rows, ReachedLess) && i < j < |rows|
    ensures var a, b := rows[i], rows[j];
            && a.depth <= b.depth
            && (a.depth == b.depth ==> a.node.kind == b.node.kind || StrLess(a.node.kind, b.node.kind))
            && (a.depth == b.depth && a.node.kind == b.node.kind ==>
                  a.node.fqn == b.node.fqn || StrLess(a.node.fqn, b.node.fqn))
  {
    StrLessTotal(rows[i].node.kind, rows[j].node.kind);
    StrLessTotal(rows[i].node.fqn, rows[j].node.fqn);
  }

  /** r tells the truth about one walk of the table. */
  ghost predicate Truthful(edges: set<Edge>, q: Query, r: Reached) {
    exists rank :: Witnessed(edges, q, r.node.id, PathState(r.depth, rank, r.via)) && r.evidence == RankToEvidence(rank)
  }

  /** r reports the shortest depth of its node and the strongest weakest hop among walks of that depth. */
  ghost predicate Optimal(edges: set<Edge>, q: Query, r: Reached) {
    forall p | IsWalk(edges, q, p, r.node.id) ::
      r.depth <= |p| && (r.depth == |p| ==> r.evidence.Rank() <= Weakest(p))
  }

  ghost predicate Reachable(edges: set<Edge>, q: Query, n: int) {
    exists p :: IsWalk(edges, q, p, n) && |p| <= MaxDepth(q)
  }

  function Seeded(q: Query): map<int, PathState> { map n | n in q.start :: PathState(0, 0, Unset) }

  /** The start nodes, each once, at depth zero. */
  method Seed(ghost edges: set<Edge>, q: Query, t: PathTable) returns (frontier: seq<int>)
    requires t.best == map[]
    modifies t
    ensures t.best == Seeded(q)
    ensures Sound(edges, q, t.best) && Covers(edges, q, t.best, 0)
    ensures forall n :: n in frontier <==> n in q.start
    ensures q.start != [] ==> frontier != []
    ensures Distinct(q.start) ==> frontier == q.start
  {
    frontier := [];
    for i := 0 to |q.start|
      invariant t.best == map n | n in q.start[..i] :: PathState(0, 0, Unset)
      invariant forall n :: n in frontier <==> n in q.start[..i]
      invariant i > 0 ==> frontier != []
      invariant Distinct(q.start[..i]) ==> frontier == q.start[..i]
    {
      assert q.start[..i + 1] == q.start[..i] + [q.start[i]];
      if q.start[i] in t.best {
        continue;
      }
      t.best := t.best[q.start[i] := PathState(0, 0, Unset)];
      frontier := frontier + [q.start[i]];
    }
    assert q.start[..|q.start|] == q.start;
    forall n | n in t.best ensures Witnessed(edges, q, n, t.best[n]) {
      assert IsWalk(edges, q, [], n);
    }
  }

  function RowOf(n: Node, st: PathState): Reached {
    Reached(n, st.depth, st.via, if st.depth == 0 then Resolved else RankToEvidence(st.rank))
  }

  /** x is the row of a node that is both in the table and in best. */
  ghost predicate IsRow(nodes: map<int, Node>, workspace: string, best: map<int, PathState>, x: Reached) {
    var id := x.node.id;
    id in nodes && id in best && x == RowOf(nodes[id], best[id]) && x.node.workspace == workspace
  }

  predicate SortedPermutation(sorted: seq<Reached>, out: seq<Reached>) {
    multiset(sorted) == multiset(out) && SortedBy(sorted, ReachedLess)
  }

  lemma SortedPermutationKeeps(sorted: seq<Reached>, out: seq<Reached>)
    requires SortedPermutation(sorted, out) && Distinct(out)
    ensures Distinct(sorted) && forall x :: x in sorted <==> x in out
  {
    PermutationKeeps(out, sorted);
  }

  /** The report rows, in the order the nodes were loaded. */
  method Rows(nodes: map<int, Node>, workspace: string, best: map<int, PathState>) returns (out: seq<Reached>, ok: bool)
    requires forall id | id in nodes :: nodes[id].id == id
    ensures !ok ==> exists n | n in best && n in nodes :: nodes[n].workspace != workspace
    ensures ok ==> Distinct(out) && forall x | x in out :: IsRow(nodes, workspace, best, x)
    ensures ok ==> forall n | n in nodes && n in best :: RowOf(nodes[n], best[n]) in out
  {
    var loaded;
    loaded, ok := LoadNodes(nodes, workspace, best.Keys);
    out := [];
    if !ok {
      return;
    }
    for i := 0 to |loaded|
      invariant |out| == i
      invariant forall k | 0 <= k < i :: out[k].node == loaded[k] && IsRow(nodes, workspace, best, out[k])
    {
      var n := loaded[i];
      assert n in loaded;
      var st := best[n.id];
      var ev := RankToEvidence(st.rank);
      if st.depth == 0 {
        ev := Resolved;
      }
      out := out + [Reached(n, st.depth, st.via, ev)];
    }
    forall n | n in nodes && n in best ensures RowOf(nodes[n], best[n]) in out {
      assert nodes[n] in loaded;
      var k :| 0 <= k < |loaded| && loaded[k] == nodes[n];
      assert out[k] == RowOf(nodes[n], best[n]);
    }
  }

  /** Turns the table into sorted report rows, cut to the limit when a cap fired. */
  method Report(nodes: map<int, Node>, workspace: string, q: Query, best: map<int, PathState>, truncated: bool)
    returns (r: Result)
    requires forall id | id in nodes :: nodes[id].id == id
    ensures r.Err? ==>
            r == Err(ForeignWorkspace) && exists n | n in best && n in nodes :: nodes[n].workspace != workspace
    ensures r.Ok? ==>
            && (|r.reached| <= |best| && (truncated ==> |r.reached| <= Limit(q)))
            && SortedBy(r.reached, ReachedLess)
            && (forall i, j | 0 <= i < j < |r.reached| :: r.reached[i].node.id != r.reached[j].node.id)
            && (forall x | x in r.reached :: IsRow(nodes, workspace, best, x))
    ensures r.Ok? && (!truncated || |r.reached| < Limit(q)) ==>
            forall n | n in nodes && n in best :: RowOf(nodes[n], best[n]) in r.reached
  {
    var out, ok := Rows(nodes, workspace, best);
    if !ok {
      return Err(ForeignWorkspace);
    }
    ReachedOrder();
    StableSortCorrect(out, ReachedLess);
    assert SortedPermutation(StableSort(out, ReachedLess), out);
    var sorted: seq<Reached> :| SortedPermutation(sorted, out);
    SortedPermutationKeeps(sorted, out);
    DistinctRows(nodes, workspace, best, sorted);
    if truncated && |sorted| > Limit(q) {
      sorted := sorted[..Limit(q)];
    }
    r := Ok(sorted);
  }

  /** Different rows are rows of different nodes, and there are no more of them than entries. */
  lemma DistinctRows(nodes: map<int, Node>, workspace: string, best: map<int, PathState>, rows: seq<Reached>)
    requires forall id | id in nodes :: nodes[id].id == id
    requires Distinct(rows) && forall x | x in rows :: IsRow(nodes, workspace, best, x)
    ensures forall i, j | 0 <= i < j < |rows| :: rows[i].node.id != rows[j].node.id
    ensures |rows| <= |best|
  {
    forall i, j | 0 <= i < j < |rows| ensures rows[i].node.id != rows[j].node.id {
      assert rows[i] in rows && rows[j] in rows;
    }
    var ids := seq(|rows|, i requires 0 <= i < |rows| => rows[i].node.id);
    forall n | n in ids ensures n in best.Keys {
      var i :| 0 <= i < |ids| && ids[i] == n;
      assert rows[i] in rows;
    }
    DistinctWithin(ids, best.Keys);
    assert |best| == |best.Keys|;
  }

  /** What the table says about walks, its report rows say. */
  lemma RowsTellTheTruth(edges: set<Edge>, nodes: map<int, Node>, workspace: string, q: Query,
                         best: map<int, PathState>, truncated: bool, r: Result)
    requires Sound(edges, q, best) && DepthsWithin(best, MaxDepth(q))
    requires !truncated ==> Covers(edges, q, best, MaxDepth(q))
    requires r.Ok? ==> forall x | x in r.reached :: IsRow(nodes, workspace, best, x)
    requires forall id | id in nodes :: nodes[id].id == id
    ensures forall n | n in best :: Reachable(edges, q, n)
    ensures r.Ok? ==> forall x | x in r.reached :: Truthful(edges, q, x)
    ensures r.Ok? && !truncated ==> forall x | x in r.reached :: Optimal(edges, q, x)
    ensures !truncated ==> forall n | Reachable(edges, q, n) :: n in best
  {
    if r.Ok? {
      forall x | x in r.reached ensures Truthful(edges, q, x) {
        var st := best[x.node.id];
        assert Witnessed(edges, q, x.node.id, PathState(x.depth, st.rank, x.via));
      }
      if !truncated {
        forall x | x in r.reached ensures Optimal(edges, q, x) {
          EntryOptimal(edges, q, best, x.node.id);
        }
      }
    }
  }

  lemma EntryOptimal(edges: set<Edge>, q: Query, best: map<int, PathState>, n: int)
    requires Sound(edges, q, best) && DepthsWithin(best, MaxDepth(q)) && n in best
    requires Covers(edges, q, best, MaxDepth(q))
    ensures best[n].rank <= 4 && (best[n].depth == 0 ==> best[n].rank == 0)
    ensures forall p | IsWalk(edges, q, p, n) ::
              best[n].depth <= |p| && (best[n].depth == |p| ==> best[n].rank <= Weakest(p))
  {
    var p :| IsWalk(edges, q, p, n) && |p| == best[n].depth && Weakest(p) == best[n].rank && Via(p) == best[n].via;
    WeakestIsARank(p);
  }

  ghost predicate InTable(nodes: map<int, Node>, workspace: string, x: Reached) {
    x.node.id in nodes && x.node == nodes[x.node.id] && x.node.workspace == workspace
  }

  lemma {:induction false} NoStartNoWalk(edges: set<Edge>, q: Query, p: seq<Edge>, n: int)
    requires q.start == []
    ensures !IsWalk(edges, q, p, n)
    decreases |p|
  {
    if p != [] {
      NoStartNoWalk(edges, q, p[..|p| - 1], From(q, p[|p| - 1]));
    }
  }

  /** The first query fills its row cap with edges among the start nodes, which fit one batch and the limit. */
  ghost predicate CutAtOnce(edges: set<Edge>, q: Query, answer: (seq<int>, int) -> seq<Edge>) {
    Distinct(q.start) && 0 < |q.start| <= EXPAND_BATCH && Hides(edges, q, answer, q.start, Limit(q), Seeded(q))
  }

  /** The walk itself, level by level from the start nodes. */
  method Walk(edges: set<Edge>, q: Query, answer: (seq<int>, int) -> seq<Edge>, t: PathTable) returns (truncated: bool)
    requires q.start != [] && t.best == map[]
    modifies t
    ensures Sound(edges, q, t.best) && DepthsWithin(t.best, MaxDepth(q))
    ensures forall n | n in q.start :: n in t.best
    ensures !truncated ==> Covers(edges, q, t.best, MaxDepth(q)) && |t.best| < Limit(q)
    ensures |Ball(edges, q)| < Limit(q) && |Hops(edges, q)| < 4 * (Limit(q) - |Ball(edges, q)|) ==> !truncated
    ensures CutAtOnce(edges, q, answer) ==> truncated && t.best.Keys == Seeded(q).Keys
  {
    truncated := false;
    var maxDepth, limit := MaxDepth(q), Limit(q);
    var frontier := Seed(edges, q, t);
    var depth := 1;
    while depth <= maxDepth && frontier != []
      invariant 1 <= depth <= maxDepth + 1
      invariant Sound(edges, q, t.best) && DepthsWithin(t.best, depth - 1)
      invariant AtLevel(t.best, frontier, depth - 1)
      invariant forall n | n in q.start :: n in t.best
      invariant CutAtOnce(edges, q, answer) ==>
                  if depth == 1 then frontier == q.start && t.best == Seeded(q)
                  else truncated && frontier == [] && t.best.Keys == Seeded(q).Keys
      invariant !truncated ==> Covers(edges, q, t.best, depth - 1)
      invariant !truncated ==> forall n | n in t.best && t.best[n].depth == depth - 1 :: n in frontier
      invariant frontier == [] ==> |t.best| < limit
      invariant truncated ==> |Hops(edges, q)| >= 4 * (limit - |t.best|)
      decreases maxDepth - depth
    {
      if |t.best| >= limit {
        truncated := true;
        break;
      }
      ghost var b0 := t.best;
      var next, hitCap := Expand(edges, q, answer, frontier, depth, limit, t);
      LevelGrows(b0, t.best, next);
      if hitCap {
        truncated := true;
      }
      if !truncated {
        CoversNext(edges, q, b0, t.best, depth);
      }
      frontier := next;
      depth := depth + 1;
    }
    if frontier != [] && |t.best| >= limit {
      truncated := true;
    }
    SoundInBall(edges, q, t.best);
    if !truncated && depth <= maxDepth {
      EmptyLevelCovers(edges, q, t.best, depth - 1, maxDepth);
    }
  }

  /** The traversal, whatever rows the hop queries answer with. */
  method Traverse(edges: set<Edge>, nodes: map<int, Node>, workspace: string, q: Query,
                  answer: (seq<int>, int) -> seq<Edge>)
    returns (r: Result, truncated: bool)
    requires forall id | id in nodes :: nodes[id].id == id
    ensures q.start == [] ==> r == Ok([])
    ensures r == Err(DepthOutOfRange) <==> q.start != [] && MaxDepth(q) > MAX_TRAVERSAL_DEPTH
    ensures r == Err(InvalidEvidence) <==>
            q.start != [] && MaxDepth(q) <= MAX_TRAVERSAL_DEPTH && exists ev | ev in q.minEvidence :: !ev.Valid()
    ensures r == Err(ForeignWorkspace) ==>
            exists n | n in nodes :: Reachable(edges, q, n) && nodes[n].workspace != workspace
    ensures r.Ok? ==>
            && |r.reached| <= Limit(q)
            && SortedBy(r.reached, ReachedLess)
            && (forall i, j | 0 <= i < j < |r.reached| :: r.reached[i].node.id != r.reached[j].node.id)
            && (forall x | x in r.reached :: InTable(nodes, workspace, x) && x.depth <= MaxDepth(q))
            && (forall x | x in r.reached :: Truthful(edges, q, x))
    ensures r.Ok? && |r.reached| < Limit(q) ==>
            forall n | n in nodes && n in q.start :: exists x | x in r.reached :: x.node.id == n
    ensures r.Ok? && |r.reached| >= Limit(q) ==> truncated
    ensures r.Ok? && !truncated ==>
            && (forall x | x in r.reached :: Optimal(edges, q, x))
            && (forall n | n in nodes && Reachable(edges, q, n) :: exists x | x in r.reached :: x.node.id == n)
    ensures r.Ok? ==> |r.reached| <= if q.maxNodes > 0 then q.maxNodes else 5000
    ensures r.Ok? ==> forall x | x in r.reached :: x.depth <= if q.maxDepth > 0 then q.maxDepth else 1
    ensures r.Ok? && !truncated ==>
            forall n, p | n in nodes && IsWalk(edges, q, p, n) && |p| <= (if q.maxDepth > 0 then q.maxDepth else 1) ::
              exists x | x in r.reached :: x.node.id == n
    ensures |Ball(edges, q)| < Limit(q) && |Hops(edges, q)| < 4 * (Limit(q) - |Ball(edges, q)|) ==> !truncated
    ensures r.Ok? && CutAtOnce(edges, q, answer) ==>
            truncated && |r.reached| < Limit(q) && forall x | x in r.reached :: x.node.id in q.start
  {
    truncated := false;
    if q.start == [] {
      forall p, n ensures !IsWalk(edges, q, p, n) {
        NoStartNoWalk(edges, q, p, n);
      }
      return Ok([]), false;
    }
    if MaxDepth(q) > MAX_TRAVERSAL_DEPTH {
      return Err(DepthOutOfRange), false;
    }
    if exists ev | ev in q.minEvidence :: !ev.Valid() {
      return Err(InvalidEvidence), false;
    }
    var t := new PathTable();
    truncated := Walk(edges, q, answer, t);
    r := Report(nodes, workspace, q, t.best, truncated);
    RowsTellTheTruth(edges, nodes, workspace, q, t.best, truncated, r);
  }
}
