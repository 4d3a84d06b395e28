/** Three-phase indexing: every analyzer's nodes are written before any analyzer's edges. */
module Index {
  import opened Collections
  import Graph
  import opened Wrappers

  /** A node is identified by kind and name within the repository being indexed. Unlisted is any text, the empty one
      included, outside the kinds the node table admits. */
  datatype NodeKind =
    | File | Directory | Package | Module | Service | API | Route | Handler | Type | Function | Method | Class
    | Interface | Field | Variable | Constant | Dependency | ConfigKey | InfraResource | Deployment | Test
    | BuildTarget | Schema | Table | Column | Commit | Doc | Unlisted(text: string)
  datatype NodeKey = NodeKey(kind: NodeKind, fqn: string)
  /** The columns an upsert overwrites; a file of 0 is NULL. */
  datatype Columns = Columns(name: string, file: nat, startLine: int, endLine: int, signature: string,
                             visibility: string, contentHash: string, attrs: string)
  datatype Node = Node(key: NodeKey, columns: Columns)
  datatype NodeRow = NodeRow(id: nat, columns: Columns)

  /** The unique key of the edge table, and the columns an upsert overwrites. */
  datatype EdgeKey = EdgeKey(src: nat, dst: nat, kind: Graph.EdgeKind, source: string)
  datatype EdgeRow = EdgeRow(evidence: Graph.Evidence, attrs: string)
  datatype Edge = Edge(key: EdgeKey, row: EdgeRow)

  /** An analyzer names endpoints, never ids. */
  datatype PendingEdge = PendingEdge(src: NodeKey, dst: NodeKey, kind: Graph.EdgeKind, evidence: Graph.Evidence,
                                     attrs: string)
  datatype Output = Output(name: string, nodes: seq<Node>, edges: seq<PendingEdge>)

  /** An edge as a reader sees it: endpoints by key, not by id. */
  datatype EdgeName = EdgeName(src: NodeKey, dst: NodeKey, kind: Graph.EdgeKind, source: string)

  type NodeTable = map<NodeKey, NodeRow>
  type EdgeTable = map<EdgeKey, EdgeRow>

  /** What a stored node needs: a kind of the table's list and a name. */
  predicate Named(n: Node) { !n.key.kind.Unlisted? && n.key.fqn != "" }

  /** What validation and the table demand of an edge besides its endpoints: a kind of the list, a known category and
      a source. */
  predicate Storable(kind: Graph.EdgeKind, row: EdgeRow, source: string) {
    kind.Listed() && row.evidence.Valid() && source != ""
  }

  function StoredColumns(c: Columns): Columns { c.(attrs := if c.attrs == "" then "{}" else c.attrs) }

  /** The row an unset evidence or attribute text turns into. */
  function RowOf(pe: PendingEdge): EdgeRow {
    EdgeRow(if pe.evidence == Graph.Other("") then Graph.Unknown else pe.evidence,
            if pe.attrs == "" then "{}" else pe.attrs)
  }

  /** ids are unique, and every id in use is below the next one. */
  ghost predicate Consistent(nodes: NodeTable, edges: EdgeTable, nextId: nat) {
    && (forall k | k in nodes :: 1 <= nodes[k].id < nextId)
    && (forall j, k | j in nodes && k in nodes && nodes[j].id == nodes[k].id :: j == k)
    && (forall e | e in edges :: e.src < nextId && e.dst < nextId)
  }

  /** The stored edge of this name, if any. */
  ghost function At(nodes: NodeTable, edges: EdgeTable, en: EdgeName): Option<EdgeRow> {
    if en.src in nodes && en.dst in nodes
       && EdgeKey(nodes[en.src].id, nodes[en.dst].id, en.kind, en.source) in edges
    then Some(edges[EdgeKey(nodes[en.src].id, nodes[en.dst].id, en.kind, en.source)])
    else None
  }

  // What indexing should leave behind, said without ids or tables.

  ghost function KeysOf(ns: seq<Node>): set<NodeKey> { set n | n in ns :: n.key }

  ghost function AllKeys(base: set<NodeKey>, outputs: seq<Output>): set<NodeKey> {
    base + set o, n | o in outputs && n in o.nodes :: n.key
  }

  /** The last pending edge of this name whose endpoints both exist. */
  ghost function Written(keys: set<NodeKey>, pending: seq<PendingEdge>, en: EdgeName): Option<EdgeRow> {
    if pending == [] || en.src !in keys || en.dst !in keys then None
    else
      var pe := pending[|pending| - 1];
      if pe.src == en.src && pe.dst == en.dst && pe.kind == en.kind then Some(RowOf(pe))
      else Written(keys, pending[..|pending| - 1], en)
  }

  ghost function Final(base: EdgeName -> Option<EdgeRow>, keys: set<NodeKey>, outputs: seq<Output>, en: EdgeName)
    : Option<EdgeRow>
  {
    if outputs == [] then base(en)
    else
      var o := outputs[|outputs| - 1];
      if o.name == en.source && Written(keys, o.edges, en).Some? then Written(keys, o.edges, en)
      else Final(base, keys, outputs[..|outputs| - 1], en)
  }

  ghost predicate EdgesAccepted(keys: set<NodeKey>, o: Output) {
    forall pe | pe in o.edges && pe.src in keys && pe.dst in keys :: Storable(pe.kind, RowOf(pe), o.name)
  }

  /** Indexing fails exactly on an unnamed node, or a surviving edge without a listed kind, a category or a source. */
  ghost predicate Accepted(base: set<NodeKey>, outputs: seq<Output>) {
    && (forall o, n | o in outputs && n in o.nodes :: Named(n))
    && (forall o | o in outputs :: EdgesAccepted(AllKeys(base, outputs), o))
  }

  /** Some output holds a node that may not be stored. */
  ghost predicate HasBadNode(outputs: seq<Output>) {
    exists o, n | o in outputs && n in o.nodes :: n.key.kind.Unlisted? || n.key.fqn == ""
  }

  /** Some output holds an edge between known nodes that may not be stored: its kind is unset or not on the list, its
      evidence is a text outside the five categories, or its analyzer has no name. Unset evidence is none of these. */
  ghost predicate HasBadEdge(keys: set<NodeKey>, outputs: seq<Output>) {
    exists o, pe | o in outputs && pe in o.edges && pe.src in keys && pe.dst in keys ::
      pe.kind.Unset? || pe.kind.Unlisted? || (pe.evidence.Other? && pe.evidence.text != "") || o.name == ""
  }

  lemma RefusedExactly(base: set<NodeKey>, outputs: seq<Output>)
    ensures !Accepted(base, outputs) <==> HasBadNode(outputs) || HasBadEdge(AllKeys(base, outputs), outputs)
  {
    if !HasBadNode(outputs) && !HasBadEdge(AllKeys(base, outputs), outputs) {
      forall o | o in outputs ensures EdgesAccepted(AllKeys(base, outputs), o) {
      }
    }
    if o, n :| o in outputs && n in o.nodes && (n.key.kind.Unlisted? || n.key.fqn == "") {
      assert !Named(n);
    }
    if HasBadEdge(AllKeys(base, outputs), outputs) {
      var o, pe :| o in outputs && pe in o.edges && pe.src in AllKeys(base, outputs) && pe.dst in AllKeys(base, outputs)
                   && (pe.kind.Unset? || pe.kind.Unlisted? || (pe.evidence.Other? && pe.evidence.text != "") || o.name == "");
      assert !EdgesAccepted(AllKeys(base, outputs), o);
    }
  }

  /** The row says of the edge what the analyzer said; evidence it left out is unknown, never certain. */
  predicate Says(row: EdgeRow, pe: PendingEdge) {
    && row.attrs == (if pe.attrs == "" then "{}" else pe.attrs)
    && (row.evidence == pe.evidence || (pe.evidence == Graph.Other("") && row.evidence == Graph.Unknown))
    && (row.evidence.Certain() ==> pe.evidence.Resolved? || pe.evidence.Declared?)
    && row.evidence != Graph.Other("")
  }

  /** Of an analyzer's mentions of one edge between known nodes the last one is written. */
  lemma {:induction false} LastMentionWins(keys: set<NodeKey>, a: seq<PendingEdge>, pe: PendingEdge, b: seq<PendingEdge>,
                                           source: string)
    requires pe.src in keys && pe.dst in keys
    requires forall i | 0 <= i < |b| :: b[i].src != pe.src || b[i].dst != pe.dst || b[i].kind != pe.kind
    ensures var row := Written(keys, a + [pe] + b, EdgeName(pe.src, pe.dst, pe.kind, source));
            row.Some? && Says(row.value, pe)
  {
    var all := a + [pe] + b;
    if b == [] {
      assert all[|all| - 1] == pe;
    } else {
      LastMentionWins(keys, a, pe, b[..|b| - 1], source);
      assert all[..|all| - 1] == a + [pe] + b[..|b| - 1];
    }
  }

  lemma {:induction false} WrittenWasSaid(keys: set<NodeKey>, pending: seq<PendingEdge>, en: EdgeName)
    returns (pe: PendingEdge)
    requires Written(keys, pending, en).Some?
    ensures pe in pending && pe.src == en.src && pe.dst == en.dst && pe.kind == en.kind
    ensures en.src in keys && en.dst in keys && Says(Written(keys, pending, en).value, pe)
  {
    pe := pending[|pending| - 1];
    if pe.src != en.src || pe.dst != en.dst || pe.kind != en.kind {
      pe := WrittenWasSaid(keys, pending[..|pending| - 1], en);
    }
  }

  /** What indexing leaves behind was there before, or an analyzer named as its source said it, evidence included. */
  lemma {:induction false} NothingIsMadeUp(base: EdgeName -> Option<EdgeRow>, keys: set<NodeKey>, outputs: seq<Output>,
                                           en: EdgeName)
    ensures var row := Final(base, keys, outputs, en);
            row == base(en)
            || (row.Some? && en.src in keys && en.dst in keys
                && exists o, pe | o in outputs && pe in o.edges ::
                     o.name == en.source && pe.src == en.src && pe.dst == en.dst && pe.kind == en.kind
                     && Says(row.value, pe))
  {
    if outputs != [] {
      var o := outputs[|outputs| - 1];
      if o.name == en.source && Written(keys, o.edges, en).Some? {
        var pe := WrittenWasSaid(keys, o.edges, en);
        assert o in outputs && pe in o.edges;
      } else {
        NothingIsMadeUp(base, keys, outputs[..|outputs| - 1], en);
      }
    }
  }

  ghost predicate DistinctNames(outputs: seq<Output>) {
    forall i, j | 0 <= i < j < |outputs| :: outputs[i].name != outputs[j].name
  }

  /** With distinct names, only the analyzer of that name decides an edge. */
  lemma {:induction false} FinalByName(base: EdgeName -> Option<EdgeRow>, keys: set<NodeKey>, outputs: seq<Output>,
                                       en: EdgeName)
    requires DistinctNames(outputs)
    ensures (forall o | o in outputs :: o.name != en.source) ==> Final(base, keys, outputs, en) == base(en)
    ensures forall o | o in outputs && o.name == en.source ::
              Final(base, keys, outputs, en)
              == if Written(keys, o.edges, en).Some? then Written(keys, o.edges, en) else base(en)
  {
    if outputs != [] {
      var front, last := outputs[..|outputs| - 1], outputs[|outputs| - 1];
      assert outputs == front + [last];
      FinalByName(base, keys, front, en);
    }
  }

  /** The order of analyzers with distinct names decides neither the nodes, nor the edges, nor failure. */
  lemma AnalyzerOrderIrrelevant(base: EdgeName -> Option<EdgeRow>, keys: set<NodeKey>, a: seq<Output>, b: seq<Output>)
    requires multiset(a) == multiset(b) && DistinctNames(a)
    ensures AllKeys(keys, a) == AllKeys(keys, b)
    ensures forall en :: Final(base, AllKeys(keys, a), a, en) == Final(base, AllKeys(keys, b), b, en)
    ensures Accepted(keys, a) <==> Accepted(keys, b)
  {
    PermutationKeeps(a, b);
    assert DistinctNames(b) by {
      forall i, j | 0 <= i < j < |b| ensures b[i].name != b[j].name {
        assert b[i] in a && b[j] in a;
        var k :| 0 <= k < |a| && a[k] == b[i];
        var l :| 0 <= l < |a| && a[l] == b[j];
        assert k != l;
      }
    }
    assert AllKeys(keys, a) == AllKeys(keys, b);
    forall en ensures Final(base, AllKeys(keys, a), a, en) == Final(base, AllKeys(keys, b), b, en) {
      FinalByName(base, AllKeys(keys, a), a, en);
      FinalByName(base, AllKeys(keys, b), b, en);
      if o :| o in a && o.name == en.source {
        assert o in b;
      }
    }
  }

  /** INSERT ... ON CONFLICT DO UPDATE: an existing key keeps its id. */
  function UpsertOne(nodes: NodeTable, nextId: nat, n: Node): (NodeTable, nat) {
    if n.key in nodes then (nodes[n.key := NodeRow(nodes[n.key].id, StoredColumns(n.columns))], nextId)
    else (nodes[n.key := NodeRow(nextId, StoredColumns(n.columns))], nextId + 1)
  }

  /** One transaction of node upserts. */
  function Upserted(nodes: NodeTable, nextId: nat, ns: seq<Node>): (NodeTable, nat) {
    if ns == [] then (nodes, nextId)
    else
      var (before, next) := Upserted(nodes, nextId, ns[..|ns| - 1]);
      UpsertOne(before, next, ns[|ns| - 1])
  }

  /** Keys only appear, with ids no one had; ids never change. */
  ghost predicate Extends(n0: NodeTable, n1: NodeTable, nextId: nat) {
    && n0.Keys <= n1.Keys
    && (forall k | k in n0 :: n1[k].id == n0[k].id)
    && (forall k | k in n1 && k !in n0 :: n1[k].id >= nextId)
  }

  lemma UpsertOneKeeps(nodes: NodeTable, edges: EdgeTable, nextId: nat, n: Node)
    requires Consistent(nodes, edges, nextId) && nextId >= 1
    ensures var (after, next) := UpsertOne(nodes, nextId, n);
            Consistent(after, edges, next) && next >= nextId && Extends(nodes, after, nextId)
  {
    var (after, next) := UpsertOne(nodes, nextId, n);
    forall j, k | j in after && k in after && after[j].id == after[k].id ensures j == k {
      assert j in nodes || j == n.key;
      assert k in nodes || k == n.key;
    }
  }

  lemma ExtendsTransitive(n0: NodeTable, n1: NodeTable, n2: NodeTable, i: nat, j: nat)
    requires Extends(n0, n1, i) && Extends(n1, n2, j) && i <= j
    ensures Extends(n0, n2, i)
  {
  }

  /** Upserting keeps the table consistent, every earlier id, and so every earlier edge. */
  lemma {:induction false} UpsertedKeeps(nodes: NodeTable, edges: EdgeTable, nextId: nat, ns: seq<Node>)
    requires Consistent(nodes, edges, nextId) && nextId >= 1
    ensures var (after, next) := Upserted(nodes, nextId, ns);
            Consistent(after, edges, next) && next >= nextId && Extends(nodes, after, nextId)
  {
    if ns != [] {
      var front, n := ns[..|ns| - 1], ns[|ns| - 1];
      UpsertedKeeps(nodes, edges, nextId, front);
      var (before, next) := Upserted(nodes, nextId, front);
      UpsertOneKeeps(before, edges, next, n);
      ExtendsTransitive(nodes, before, UpsertOne(before, next, n).0, nextId, next);
    }
  }

  lemma {:induction false} UpsertedKeys(nodes: NodeTable, nextId: nat, ns: seq<Node>)
    ensures Upserted(nodes, nextId, ns).0.Keys == nodes.Keys + KeysOf(ns)
  {
    if ns != [] {
      UpsertedKeys(nodes, nextId, ns[..|ns| - 1]);
      assert ns == ns[..|ns| - 1] + [ns[|ns| - 1]];
      assert KeysOf(ns) == KeysOf(ns[..|ns| - 1]) + {ns[|ns| - 1].key};
    }
  }

  /** The columns of the last node with this key. */
  ghost function LastColumns(ns: seq<Node>, k: NodeKey): Option<Columns> {
    if ns == [] then None
    else if ns[|ns| - 1].key == k then Some(StoredColumns(ns[|ns| - 1].columns))
    else LastColumns(ns[..|ns| - 1], k)
  }

  /** Of several nodes with one key the last one gives the row its columns; no other row changes. */
  lemma {:induction false} UpsertedColumns(nodes: NodeTable, nextId: nat, ns: seq<Node>, k: NodeKey)
    ensures LastColumns(ns, k).Some? <==> k in KeysOf(ns)
    ensures k in KeysOf(ns) ==>
              k in Upserted(nodes, nextId, ns).0 && Upserted(nodes, nextId, ns).0[k].columns == LastColumns(ns, k).value
    ensures k !in KeysOf(ns) && k in nodes ==> k in Upserted(nodes, nextId, ns).0 && Upserted(nodes, nextId, ns).0[k] == nodes[k]
  {
    if ns != [] {
      UpsertedColumns(nodes, nextId, ns[..|ns| - 1], k);
      assert ns == ns[..|ns| - 1] + [ns[|ns| - 1]];
      assert KeysOf(ns) == KeysOf(ns[..|ns| - 1]) + {ns[|ns| - 1].key};
    }
  }

  /** The last node of a key gives the row its name, file, lines, signature, visibility, hash and attributes. */
  lemma LastNodeWins(nodes: NodeTable, nextId: nat, a: seq<Node>, n: Node, b: seq<Node>)
    requires forall i | 0 <= i < |b| :: b[i].key != n.key
    ensures var table := Upserted(nodes, nextId, a + [n] + b).0;
            n.key in table
            && table[n.key].columns == n.columns.(attrs := table[n.key].columns.attrs)
            && table[n.key].columns.attrs == (if n.columns.attrs == "" then "{}" else n.columns.attrs)
  {
    UpsertedColumns(nodes, nextId, a + [n] + b, n.key);
    LastColumnsOf(a, n, b);
    assert n in a + [n] + b;
  }

  lemma {:induction false} LastColumnsOf(a: seq<Node>, n: Node, b: seq<Node>)
    requires forall i | 0 <= i < |b| :: b[i].key != n.key
    ensures LastColumns(a + [n] + b, n.key) == Some(StoredColumns(n.columns))
  {
    var all := a + [n] + b;
    if b == [] {
      assert all[|all| - 1] == n;
    } else {
      LastColumnsOf(a, n, b[..|b| - 1]);
      assert all[..|all| - 1] == a + [n] + b[..|b| - 1];
    }
  }

  lemma {:induction false} LastColumnsIn(ns: seq<Node>, k: NodeKey) returns (i: nat)
    requires LastColumns(ns, k).Some?
    ensures i < |ns| && ns[i].key == k && LastColumns(ns, k) == Some(StoredColumns(ns[i].columns))
  {
    i := |ns| - 1;
    if ns[i].key != k {
      i := LastColumnsIn(ns[..i], k);
    }
  }

  /** Nodes whose columns their key decides leave rows that it decides. */
  lemma ColumnsByKey(nodes: NodeTable, nextId: nat, ns: seq<Node>, columns: NodeKey -> Columns)
    requires forall i | 0 <= i < |ns| :: ns[i].columns == columns(ns[i].key)
    ensures forall k | k in KeysOf(ns) ::
              k in Upserted(nodes, nextId, ns).0
              && Upserted(nodes, nextId, ns).0[k].columns == StoredColumns(columns(k))
  {
    forall k | k in KeysOf(ns)
      ensures k in Upserted(nodes, nextId, ns).0
              && Upserted(nodes, nextId, ns).0[k].columns == StoredColumns(columns(k))
    {
      UpsertedColumns(nodes, nextId, ns, k);
      var i := LastColumnsIn(ns, k);
    }
  }

  lemma EdgesSurviveUpsert(nodes: NodeTable, edges: EdgeTable, nextId: nat, ns: seq<Node>, en: EdgeName)
    requires Consistent(nodes, edges, nextId) && nextId >= 1
    ensures At(Upserted(nodes, nextId, ns).0, edges, en) == At(nodes, edges, en)
  {
    UpsertedKeeps(nodes, edges, nextId, ns);
  }

  class Tables {
    var nodes: NodeTable
    var edges: EdgeTable
    var nextId: nat

    ghost predicate Valid()
      reads this
    {
      Consistent(nodes, edges, nextId) && nextId >= 1
    }

    constructor ()
      ensures Valid() && nodes == map[] && edges == map[]
    {
      nodes, edges, nextId := map[], map[], 1;
    }

    /** Commits all of ns and fills in their ids, or nothing. */
    method UpsertNodes(ns: seq<Node>) returns (ids: array<nat>, ok: bool)
      requires Valid()
      modifies this`nodes, this`nextId
      ensures Valid() && fresh(ids)
      ensures ok <==> forall n | n in ns :: Named(n)
      ensures (nodes, nextId) == if ok then Upserted(old(nodes), old(nextId), ns) else (old(nodes), old(nextId))
      ensures ids.Length == |ns|
      ensures ok ==> forall i | 0 <= i < |ns| :: ns[i].key in nodes && ids[i] == nodes[ns[i].key].id
    {
      ids := new nat[|ns|];
      var table, next := nodes, nextId;
      for i := 0 to |ns|
        invariant nodes == old(nodes) && nextId == old(nextId)
        invariant forall n | n in ns[..i] :: Named(n)
        invariant (table, next) == Upserted(nodes, nextId, ns[..i])
        invariant forall k | 0 <= k < i :: ns[k].key in table && ids[k] == table[ns[k].key].id
      {
        var n := ns[i];
        assert ns[..i + 1][..i] == ns[..i] && n in ns;
        if !Named(n) {
          ok := false;
          return;
        }
        if n.key in table {
          table := table[n.key := NodeRow(table[n.key].id, StoredColumns(n.columns))];
        } else {
          table := table[n.key := NodeRow(next, StoredColumns(n.columns))];
          next := next + 1;
        }
        ids[i] := table[n.key].id;
      }
      assert ns[..|ns|] == ns;
      UpsertedKeeps(nodes, edges, nextId, ns);
      UpsertedKeys(nodes, nextId, ns);
      nodes, nextId, ok := table, next, true;
    }

    method NodeByFQN(key: NodeKey) returns (id: nat, found: bool)
      requires Valid()
      ensures found <==> key in nodes
      ensures found ==> id == nodes[key].id && id != 0
    {
      found := key in nodes;
      id := if found then nodes[key].id else 0;
    }

    /** Validates edges before it writes any; an unlisted kind or a missing endpoint then violates the table and rolls
        back. */
    method UpsertEdges(es: seq<Edge>) returns (ok: bool)
      requires Valid()
      modifies this`edges
      ensures Valid()
      ensures ok <==> forall e | e in es :: WellFormed(e) && e.key.src in Ids(nodes) && e.key.dst in Ids(nodes)
      ensures edges == if ok then EdgesAfter(old(edges), es) else old(edges)
    {
      if exists e | e in es :: !WellFormed(e) {
        return false;
      }
      var ids := Ids(nodes);
      ok := forall e | e in es :: e.key.src in ids && e.key.dst in ids;
      if !ok {
        return;
      }
      Store(es);
      EdgesAfterConsistent(nodes, old(edges), nextId, es);
    }

    method Store(es: seq<Edge>)
      modifies this`edges
      ensures edges == EdgesAfter(old(edges), es)
    {
      for i := 0 to |es|
        invariant edges == EdgesAfter(old(edges), es[..i])
      {
        assert es[..i + 1][..i] == es[..i];
        edges := edges[es[i].key := es[i].row];
      }
      assert es[..|es|] == es;
    }
  }

  function Ids(nodes: NodeTable): set<nat> { set k | k in nodes :: nodes[k].id }

  predicate WellFormed(e: Edge) { e.key.src != 0 && e.key.dst != 0 && Storable(e.key.kind, e.row, e.key.source) }

  function EdgesAfter(edges: EdgeTable, es: seq<Edge>): EdgeTable {
    if es == [] then edges else EdgesAfter(edges, es[..|es| - 1])[es[|es| - 1].key := es[|es| - 1].row]
  }

  lemma {:induction false} EdgesAfterConsistent(nodes: NodeTable, edges: EdgeTable, nextId: nat, es: seq<Edge>)
    requires Consistent(nodes, edges, nextId) && forall e | e in es :: e.key.src in Ids(nodes) && e.key.dst in Ids(nodes)
    ensures Consistent(nodes, EdgesAfter(edges, es), nextId)
  {
    if es != [] {
      var front, e := es[..|es| - 1], es[|es| - 1];
      assert e in es;
      EdgesAfterConsistent(nodes, edges, nextId, front);
    }
  }

  /** The edges of one analyzer whose endpoints both exist, resolved to ids, in order. */
  ghost function Resolved(nodes: NodeTable, source: string, pending: seq<PendingEdge>): seq<Edge> {
    if pending == [] then []
    else
      var pe := pending[|pending| - 1];
      Resolved(nodes, source, pending[..|pending| - 1])
      + if pe.src in nodes && pe.dst in nodes
        then [Edge(EdgeKey(nodes[pe.src].id, nodes[pe.dst].id, pe.kind, source), RowOf(pe))]
        else []
  }

  /** The memo agrees with the table it saves lookups into: 0 stands for a missing node. */
  ghost predicate MemoAgrees(nodes: NodeTable, memo: map<NodeKey, nat>) {
    forall k | k in memo :: memo[k] == if k in nodes then nodes[k].id else 0
  }

  method Lookup(t: Tables, memo: map<NodeKey, nat>, k: NodeKey) returns (id: nat, found: bool, grown: map<NodeKey, nat>)
    requires t.Valid() && MemoAgrees(t.nodes, memo)
    ensures found <==> k in t.nodes
    ensures found ==> id == t.nodes[k].id
    ensures MemoAgrees(t.nodes, grown)
  {
    if k in memo {
      return memo[k], memo[k] != 0, memo;
    }
    id, found := t.NodeByFQN(k);
    grown := memo[k := if found then id else 0];
  }

  method WriteEdges(t: Tables, source: string, pending: seq<PendingEdge>) returns (count: nat, ok: bool)
    requires t.Valid()
    modifies t`edges
    ensures t.Valid()
    ensures ok <==> forall e | e in Resolved(t.nodes, source, pending) :: Storable(e.key.kind, e.row, e.key.source)
    ensures t.edges == if ok then EdgesAfter(old(t.edges), Resolved(t.nodes, source, pending)) else old(t.edges)
    ensures ok ==> count == |Resolved(t.nodes, source, pending)|
  {
    if pending == [] {
      return 0, true;
    }
    var memo: map<NodeKey, nat> := map[];
    var edges: seq<Edge> := [];
    for i := 0 to |pending|
      invariant t.edges == old(t.edges)
      invariant MemoAgrees(t.nodes, memo)
      invariant edges == Resolved(t.nodes, source, pending[..i])
    {
      var pe := pending[i];
      assert pending[..i + 1][..i] == pending[..i];
      var src, found;
      src, found, memo := Lookup(t, memo, pe.src);
      if !found {
        continue;
      }
      var dst;
      dst, found, memo := Lookup(t, memo, pe.dst);
      if !found {
        continue;
      }
      edges := edges + [Edge(EdgeKey(src, dst, pe.kind, source), RowOf(pe))];
    }
    assert pending[..|pending|] == pending;
    ResolvedExist(t.nodes, t.edges, t.nextId, source, pending);
    ok := t.UpsertEdges(edges);
    count := if ok then |edges| else 0;
  }

  /** Resolved edges have both endpoints. */
  lemma {:induction false} ResolvedExist(nodes: NodeTable, edges: EdgeTable, nextId: nat, source: string,
                                         pending: seq<PendingEdge>)
    requires Consistent(nodes, edges, nextId)
    ensures forall e | e in Resolved(nodes, source, pending) ::
              e.key.src != 0 && e.key.dst != 0 && e.key.src in Ids(nodes) && e.key.dst in Ids(nodes)
  {
    if pending != [] {
      ResolvedExist(nodes, edges, nextId, source, pending[..|pending| - 1]);
    }
  }

  /** Whether the analyzer names this edge, so that its mention may change it. */
  predicate Mentions(pe: PendingEdge, source: string, en: EdgeName) {
    pe.src == en.src && pe.dst == en.dst && pe.kind == en.kind && source == en.source
  }

  /** Storing one resolved edge sets exactly the edge it names. */
  lemma StoredAt(nodes: NodeTable, edges: EdgeTable, pe: PendingEdge, source: string, en: EdgeName)
    requires forall j, k | j in nodes && k in nodes && nodes[j].id == nodes[k].id :: j == k
    requires pe.src in nodes && pe.dst in nodes
    ensures At(nodes, edges[EdgeKey(nodes[pe.src].id, nodes[pe.dst].id, pe.kind, source) := RowOf(pe)], en)
         == if Mentions(pe, source, en) then Some(RowOf(pe)) else At(nodes, edges, en)
  {
    var key := EdgeKey(nodes[pe.src].id, nodes[pe.dst].id, pe.kind, source);
    if en.src in nodes && en.dst in nodes {
      var asked := EdgeKey(nodes[en.src].id, nodes[en.dst].id, en.kind, en.source);
      assert asked == key <==> Mentions(pe, source, en);
    }
  }

  lemma AfterResolvedSnoc(nodes: NodeTable, edges: EdgeTable, source: string, front: seq<PendingEdge>, pe: PendingEdge)
    ensures EdgesAfter(edges, Resolved(nodes, source, front + [pe]))
         == if pe.src in nodes && pe.dst in nodes
            then EdgesAfter(edges, Resolved(nodes, source, front))
                 [EdgeKey(nodes[pe.src].id, nodes[pe.dst].id, pe.kind, source) := RowOf(pe)]
            else EdgesAfter(edges, Resolved(nodes, source, front))
  {
    assert (front + [pe])[..|front|] == front;
    var r := Resolved(nodes, source, front);
    if pe.src in nodes && pe.dst in nodes {
      var e := Edge(EdgeKey(nodes[pe.src].id, nodes[pe.dst].id, pe.kind, source), RowOf(pe));
      assert Resolved(nodes, source, front + [pe]) == r + [e] && (r + [e])[..|r|] == r;
    } else {
      assert r + [] == r;
    }
  }

  lemma WrittenSnoc(keys: set<NodeKey>, front: seq<PendingEdge>, pe: PendingEdge, source: string, en: EdgeName)
    requires en.source == source
    ensures Written(keys, front + [pe], en)
         == if pe.src in keys && pe.dst in keys && Mentions(pe, source, en) then Some(RowOf(pe))
            else Written(keys, front, en)
  {
    assert (front + [pe])[..|front|] == front;
  }

  /** What one analyzer's edge transaction changes, edge by edge. */
  lemma {:induction false} WrittenEdges(nodes: NodeTable, edges: EdgeTable, nextId: nat, source: string,
                                        pending: seq<PendingEdge>, en: EdgeName)
    requires Consistent(nodes, edges, nextId)
    ensures At(nodes, EdgesAfter(edges, Resolved(nodes, source, pending)), en)
         == if en.source == source && Written(nodes.Keys, pending, en).Some? then Written(nodes.Keys, pending, en)
            else At(nodes, edges, en)
  {
    if pending != [] {
      var front, pe := pending[..|pending| - 1], pending[|pending| - 1];
      assert pending == front + [pe];
      WrittenEdges(nodes, edges, nextId, source, front, en);
      AfterResolvedSnoc(nodes, edges, source, front, pe);
      if pe.src in nodes && pe.dst in nodes {
        StoredAt(nodes, EdgesAfter(edges, Resolved(nodes, source, front)), pe, source, en);
      }
      if en.source == source {
        WrittenSnoc(nodes.Keys, front, pe, source, en);
      }
    }
  }

  /** Validation of the resolved edges rejects exactly the analyzers the specification rejects. */
  lemma {:induction false} ResolvedAccepted(nodes: NodeTable, o: Output)
    ensures (forall e | e in Resolved(nodes, o.name, o.edges) :: Storable(e.key.kind, e.row, e.key.source))
       <==> EdgesAccepted(nodes.Keys, o)
    decreases |o.edges|
  {
    if o.edges != [] {
      var front, pe := o.edges[..|o.edges| - 1], o.edges[|o.edges| - 1];
      assert o.edges == front + [pe];
      ResolvedAccepted(nodes, o.(edges := front));
      AcceptedSnoc(nodes.Keys, o, front, pe);
      var r := Resolved(nodes, o.name, front);
      if pe.src in nodes && pe.dst in nodes {
        var e := Edge(EdgeKey(nodes[pe.src].id, nodes[pe.dst].id, pe.kind, o.name), RowOf(pe));
        assert Resolved(nodes, o.name, o.edges) == r + [e];
        assert forall x :: x in r + [e] <==> x in r || x == e;
      } else {
        assert Resolved(nodes, o.name, o.edges) == r;
      }
    }
  }

  lemma AcceptedSnoc(keys: set<NodeKey>, o: Output, front: seq<PendingEdge>, pe: PendingEdge)
    requires o.edges == front + [pe]
    ensures EdgesAccepted(keys, o)
       <==> EdgesAccepted(keys, o.(edges := front))
            && (pe.src in keys && pe.dst in keys ==> Storable(pe.kind, RowOf(pe), o.name))
  {
    assert forall x :: x in o.edges <==> x in front || x == pe;
  }

  ghost function Stored(nodes: NodeTable, edges: EdgeTable): EdgeName -> Option<EdgeRow> {
    en => At(nodes, edges, en)
  }

  lemma AllKeysSnoc(base: set<NodeKey>, outputs: seq<Output>, o: Output)
    ensures AllKeys(base, outputs + [o]) == AllKeys(base, outputs) + KeysOf(o.nodes)
  {
    assert forall x :: x in outputs + [o] <==> x in outputs || x == o;
  }

  method WriteAllNodes(t: Tables, outputs: seq<Output>) returns (ok: bool)
    requires t.Valid()
    modifies t
    ensures t.Valid() && t.edges == old(t.edges)
    ensures ok <==> forall o, n | o in outputs && n in o.nodes :: Named(n)
    ensures ok ==> t.nodes.Keys == AllKeys(old(t.nodes.Keys), outputs)
    ensures forall en :: At(t.nodes, t.edges, en) == old(At(t.nodes, t.edges, en))
  {
    ghost var n0, e0 := t.nodes, t.edges;
    for i := 0 to |outputs|
      invariant t.Valid() && t.edges == e0
      invariant forall o, n | o in outputs[..i] && n in o.nodes :: Named(n)
      invariant t.nodes.Keys == AllKeys(n0.Keys, outputs[..i])
      invariant forall en :: At(t.nodes, e0, en) == At(n0, e0, en)
    {
      var o := outputs[i];
      assert outputs[..i + 1] == outputs[..i] + [o] && o in outputs;
      ghost var n1 := t.nodes;
      forall en ensures At(Upserted(n1, t.nextId, o.nodes).0, e0, en) == At(n1, e0, en) {
        EdgesSurviveUpsert(n1, e0, t.nextId, o.nodes, en);
      }
      UpsertedKeys(n1, t.nextId, o.nodes);
      AllKeysSnoc(n0.Keys, outputs[..i], o);
      var _, committed := t.UpsertNodes(o.nodes);
      if !committed {
        return false;
      }
    }
    assert outputs[..|outputs|] == outputs;
    ok := true;
  }

  method WriteAllEdges(t: Tables, outputs: seq<Output>) returns (ok: bool)
    requires t.Valid()
    modifies t`edges
    ensures t.Valid()
    ensures ok <==> forall o | o in outputs :: EdgesAccepted(t.nodes.Keys, o)
    ensures ok ==> forall en ::
              At(t.nodes, t.edges, en) == Final(old(Stored(t.nodes, t.edges)), t.nodes.Keys, outputs, en)
  {
    ghost var e0 := t.edges;
    for i := 0 to |outputs|
      invariant t.Valid()
      invariant forall o | o in outputs[..i] :: EdgesAccepted(t.nodes.Keys, o)
      invariant forall en ::
                  At(t.nodes, t.edges, en) == Final(Stored(t.nodes, e0), t.nodes.Keys, outputs[..i], en)
    {
      var o := outputs[i];
      assert outputs[..i + 1][..i] == outputs[..i];
      assert outputs[..i + 1] == outputs[..i] + [o] && o in outputs;
      forall en {
        WrittenEdges(t.nodes, t.edges, t.nextId, o.name, o.edges, en);
      }
      ResolvedAccepted(t.nodes, o);
      var _, written := WriteEdges(t, o.name, o.edges);
      if !written {
        return false;
      }
    }
    assert outputs[..|outputs|] == outputs;
    ok := true;
  }

  /** Writes every analyzer's nodes, then every analyzer's edges. */
  method IndexAnalyzers(t: Tables, outputs: seq<Output>) returns (ok: bool)
    requires t.Valid()
    modifies t
    ensures t.Valid()
    ensures ok <==> Accepted(old(t.nodes.Keys), outputs)
    ensures ok ==> t.nodes.Keys == AllKeys(old(t.nodes.Keys), outputs)
    ensures ok ==> forall en ::
              At(t.nodes, t.edges, en)
              == Final(old(Stored(t.nodes, t.edges)), AllKeys(old(t.nodes.Keys), outputs), outputs, en)
  {
    ghost var base := Stored(t.nodes, t.edges);
    ok := WriteAllNodes(t, outputs);
    if !ok {
      return;
    }
    ghost var mid := Stored(t.nodes, t.edges);
    forall en ensures Final(mid, t.nodes.Keys, outputs, en) == Final(base, t.nodes.Keys, outputs, en) {
      SameBase(mid, base, t.nodes.Keys, outputs, en);
    }
    ok := WriteAllEdges(t, outputs);
  }

  lemma {:induction false} SameBase(a: EdgeName -> Option<EdgeRow>, b: EdgeName -> Option<EdgeRow>,
                                    keys: set<NodeKey>, outputs: seq<Output>, en: EdgeName)
    requires a(en) == b(en)
    ensures Final(a, keys, outputs, en) == Final(b, keys, outputs, en)
  {
    if outputs != [] {
      SameBase(a, b, keys, outputs[..|outputs| - 1], en);
    }
  }
}
