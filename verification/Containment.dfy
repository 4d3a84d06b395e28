/** The containment tree of a repository: directories and files below its root. */
module Containment {
  import opened Collections
  import Encoding
  import Graph
  import opened Index
  import opened Ordering
  import opened Wrappers

  const ROOT := "."
  const SOURCE := "filesystem"

  /** The last slash among the first n characters of p, or -1. */
  function SlashBefore(p: string, n: nat): (i: int)
    requires n <= |p|
    ensures -1 <= i < n
    ensures i >= 0 ==> p[i] == '/'
    ensures forall k | i < k < n :: p[k] != '/'
  {
    if n == 0 then -1 else if p[n - 1] == '/' then n - 1 else SlashBefore(p, n - 1)
  }

  function LastSlash(p: string): int { SlashBefore(p, |p|) }

  function Base(p: string): string { p[LastSlash(p) + 1..] }

  /** filepath.Dir on a clean relative path. */
  function Dir(p: string): (d: string)
    ensures d == ROOT || |d| < |p|
  {
    if LastSlash(p) < 0 then ROOT else p[..LastSlash(p)]
  }

  predicate NoSlash(s: string) { '/' !in s }
  predicate Proper(component: string) { component != "" && component != "." && component != ".." }

  predicate StartsAt(p: string, i: nat)
    requires i <= |p|
  {
    i == 0 || p[i - 1] == '/'
  }

  predicate EndsAt(p: string, j: nat)
    requires j <= |p|
  {
    j == |p| || p[j] == '/'
  }

  /** A relative path without empty, dot or dot-dot components. */
  predicate Clean(p: string) {
    forall i, j | 0 <= i <= j <= |p| && StartsAt(p, i) && EndsAt(p, j) && NoSlash(p[i..j]) :: Proper(p[i..j])
  }

  /** A clean path is not the root, and neither is its directory unless the path has one component. */
  lemma CleanDir(p: string)
    requires Clean(p)
    ensures p != ROOT && p != []
    ensures Dir(p) != ROOT ==> Clean(Dir(p)) && |Dir(p)| < |p|
    ensures Dir(p) == ROOT <==> LastSlash(p) < 0
  {
    NotRoot(p);
    if LastSlash(p) >= 0 {
      CleanPrefix(p, LastSlash(p));
      NotRoot(p[..LastSlash(p)]);
    }
  }

  lemma NotRoot(p: string)
    requires Clean(p)
    ensures p != ROOT && p != []
  {
    assert StartsAt(p, 0) && EndsAt(p, |p|);
    assert p[0..|p|] == p;
    assert NoSlash([]) && NoSlash(ROOT);
  }

  lemma CleanPrefix(p: string, n: nat)
    requires Clean(p) && n < |p| && p[n] == '/'
    ensures Clean(p[..n])
  {
    var d := p[..n];
    forall i, j | 0 <= i <= j <= |d| && StartsAt(d, i) && EndsAt(d, j) && NoSlash(d[i..j]) ensures Proper(d[i..j]) {
      assert d[i..j] == p[i..j];
      assert StartsAt(p, i) && EndsAt(p, j);
    }
  }

  /** The directories strictly above a clean path, without the root. */
  ghost function Above(p: string): set<string>
    decreases |p|
  {
    var d := Dir(p);
    if d == ROOT || |d| >= |p| then {} else {d} + Above(d)
  }

  ghost function Dirs(paths: set<string>): set<string> { {ROOT} + set p, d | p in paths && d in Above(p) :: d }

  ghost function PathSet(files: seq<string>): set<string> { set p | p in files }

  function DirNode(d: string): NodeKey { NodeKey(Directory, d) }
  function FileNode(p: string): NodeKey { NodeKey(File, p) }

  ghost function DirNodes(dirs: set<string>): set<NodeKey> { set d | d in dirs :: DirNode(d) }
  ghost function FileNodes(paths: set<string>): set<NodeKey> { set p | p in paths :: FileNode(p) }
  ghost function Vertices(paths: set<string>): set<NodeKey> { DirNodes(Dirs(paths)) + FileNodes(paths) }

  function Parent(v: NodeKey): NodeKey { DirNode(Dir(v.fqn)) }

  /** The containment edges: each vertex but the root hangs off the directory of its name. */
  ghost predicate IsEdge(paths: set<string>, parent: NodeKey, child: NodeKey) {
    child in Vertices(paths) && child != DirNode(ROOT) && parent == Parent(child)
  }

  /** v is n steps below the root along containment edges. */
  ghost predicate Descends(paths: set<string>, v: NodeKey, n: nat)
    decreases n
  {
    if n == 0 then v == DirNode(ROOT)
    else exists u :: IsEdge(paths, u, v) && Descends(paths, u, n - 1)
  }

  ghost predicate BelowRoot(paths: set<string>, v: NodeKey) { exists n: nat :: Descends(paths, v, n) }

  /** The vertices are the root, every file, and every directory that some file lies below. */
  lemma VerticesExactly(paths: set<string>, v: NodeKey)
    requires forall p | p in paths :: Clean(p)
    ensures v in Vertices(paths)
       <==> (v.kind == File && v.fqn in paths)
            || (v.kind == Directory && (v.fqn == "." || exists p | p in paths :: v.fqn + "/" <= p && v.fqn + "/" != p))
  {
    InVertices(paths, v);
    forall p | p in paths ensures v.fqn in Above(p) <==> v.fqn + "/" <= p && v.fqn + "/" != p {
      AboveExactly(p, v.fqn);
      PathInParts(p);
      SlashPrefix(p, v.fqn);
    }
  }

  lemma SlashPrefix(p: string, d: string)
    ensures d + "/" <= p <==> |d| < |p| && p[..|d|] == d && p[|d|] == '/'
    ensures d + "/" == p ==> Base(p) == []
  {
    if |d| < |p| && p[..|d|] == d && p[|d|] == '/' {
      assert p[..|d| + 1] == d + "/";
    }
    if d + "/" <= p {
      assert p[..|d| + 1] == d + "/";
    }
    if d + "/" == p {
      assert LastSlash(p) == |p| - 1;
    }
  }

  lemma {:induction false} AboveIsClean(p: string, d: string)
    requires Clean(p) && d in Above(p)
    ensures Clean(d) && d != ROOT
    ensures Dir(d) == ROOT || Dir(d) in Above(p)
    decreases |p|
  {
    CleanDir(p);
    if d != Dir(p) {
      AboveIsClean(Dir(p), d);
    } else {
      CleanDir(d);
    }
  }

  /** A clean path is its directory, a slash and one component; without a slash it is that component, below the root. */
  lemma PathInParts(p: string)
    requires Clean(p)
    ensures Base(p) != [] && NoSlash(Base(p))
    ensures if '/' in p then Dir(p) != ROOT && p == Dir(p) + "/" + Base(p) else Dir(p) == ROOT && p == Base(p)
  {
    var i := LastSlash(p);
    CleanDir(p);
    assert StartsAt(p, i + 1) && EndsAt(p, |p|) && p[i + 1..|p|] == Base(p);
    if i >= 0 {
      assert p == p[..i] + "/" + p[i + 1..];
    }
  }

  /** The directories above a clean path are exactly what comes before one of its slashes. */
  lemma {:induction false} AboveExactly(p: string, d: string)
    requires Clean(p)
    ensures d in Above(p) <==> |d| < |p| && p[..|d|] == d && p[|d|] == '/'
    decreases |p|
  {
    var i := LastSlash(p);
    CleanDir(p);
    if i >= 0 {
      AboveExactly(Dir(p), d);
      if |d| < i {
        assert p[..i][..|d|] == p[..|d|];
      }
    }
  }

  /** Every containment edge leads from the root to a name without a slash, or from a directory to its own name, a
      slash and one more component. */
  lemma ChildrenExtendTheirParent(paths: set<string>, parent: NodeKey, child: NodeKey)
    requires AllClean(paths) && IsEdge(paths, parent, child)
    ensures parent.kind == Directory
    ensures if parent.fqn == "." then '/' !in child.fqn
            else exists name: string | name != [] && '/' !in name :: child.fqn == parent.fqn + "/" + name
  {
    ParentIsVertex(paths, child);
    PathInParts(child.fqn);
  }

  ghost predicate AllClean(paths: set<string>) { forall p | p in paths :: Clean(p) }

  lemma ParentIsVertex(paths: set<string>, v: NodeKey)
    requires AllClean(paths) && v in Vertices(paths) && v != DirNode(ROOT)
    ensures Parent(v) in Vertices(paths) && Clean(v.fqn)
  {
    if v in FileNodes(paths) {
      CleanDir(v.fqn);
      if Dir(v.fqn) != ROOT {
        assert Dir(v.fqn) in Above(v.fqn);
      }
    } else {
      var p :| p in paths && v.fqn in Above(p);
      AboveIsClean(p, v.fqn);
    }
    assert Dir(v.fqn) in Dirs(paths);
  }

  /** Every vertex hangs below the root, at one depth. */
  lemma {:induction false} Rooted(paths: set<string>, v: NodeKey) returns (n: nat)
    requires AllClean(paths) && v in Vertices(paths)
    ensures Descends(paths, v, n)
    decreases if v == DirNode(ROOT) then 0 else |v.fqn| + 1
  {
    if v == DirNode(ROOT) {
      n := 0;
    } else {
      ParentIsVertex(paths, v);
      CleanDir(v.fqn);
      n := Rooted(paths, Parent(v));
      assert IsEdge(paths, Parent(v), v);
      n := n + 1;
    }
  }

  /** The containment graph is a tree rooted at ".": unique parents, all of them vertices, every
      vertex below the root, and no edge into the root. */
  lemma ContainmentIsATree(paths: set<string>)
    requires AllClean(paths)
    ensures forall v | v in Vertices(paths) && v != DirNode(ROOT) ::
              && IsEdge(paths, Parent(v), v) && Parent(v) in Vertices(paths)
              && forall u | IsEdge(paths, u, v) :: u == Parent(v)
    ensures forall u :: !IsEdge(paths, u, DirNode(ROOT))
    ensures forall v | v in Vertices(paths) :: BelowRoot(paths, v)
  {
    forall v | v in Vertices(paths) && v != DirNode(ROOT) ensures Parent(v) in Vertices(paths) {
      ParentIsVertex(paths, v);
    }
    forall v | v in Vertices(paths) ensures BelowRoot(paths, v) {
      var n := Rooted(paths, v);
      assert Descends(paths, v, n);
    }
  }

  lemma SlashIsNotClean()
    ensures !Clean("/")
  {
    assert StartsAt("/", 0) && EndsAt("/", 0) && "/"[0..0] == "" && NoSlash("/"[0..0]);
  }

  /** The parent loop for one path; it ends because every clean parent is shorter. */
  method AddParents(p: string, before: set<string>) returns (dirSet: set<string>)
    requires Clean(p)
    ensures dirSet == before + Above(p)
  {
    dirSet := before;
    var d := Dir(p);
    CleanDir(p);
    SlashIsNotClean();
    while d != ROOT && d != "/"
      invariant d != ROOT ==> Clean(d)
      invariant before + Above(p) == dirSet + if d == ROOT then {} else {d} + Above(d)
      decreases if d == ROOT then 0 else |d| + 1
    {
      CleanDir(d);
      dirSet := dirSet + {d};
      d := Dir(d);
    }
  }

  lemma DirsSnoc(files: seq<string>, p: string)
    ensures Dirs(PathSet(files + [p])) == Dirs(PathSet(files)) + Above(p)
  {
    assert PathSet(files + [p]) == PathSet(files) + {p};
  }

  method CollectDirs(files: seq<string>) returns (dirSet: set<string>)
    requires forall p | p in files :: Clean(p)
    ensures dirSet == Dirs(PathSet(files))
  {
    dirSet := {ROOT};
    for i := 0 to |files|
      invariant dirSet == Dirs(PathSet(files[..i]))
    {
      assert files[i] in files && files[..i + 1] == files[..i] + [files[i]];
      DirsSnoc(files[..i], files[i]);
      dirSet := AddParents(files[i], dirSet);
    }
    assert files[..|files|] == files;
  }

  /** One containment edge per child, from its parent directory. */
  ghost function Hangings(children: seq<NodeKey>): seq<PendingEdge> {
    seq(|children|, i requires 0 <= i < |children| =>
      PendingEdge(Parent(children[i]), children[i], Graph.Contains, Graph.Resolved, ""))
  }

  lemma {:induction false} HangingsWritten(keys: set<NodeKey>, children: seq<NodeKey>, en: EdgeName)
    ensures Written(keys, Hangings(children), en)
         == if en.src in keys && en.dst in keys && en.dst in children && en.src == Parent(en.dst)
               && en.kind == Graph.Contains
            then Some(EdgeRow(Graph.Resolved, "{}")) else None
  {
    if children != [] {
      var front := children[..|children| - 1];
      assert children == front + [children[|children| - 1]];
      HangingsWritten(keys, front, en);
      assert Hangings(children)[..|children| - 1] == Hangings(front);
    }
  }

  lemma HangingsSnoc(children: seq<NodeKey>, c: NodeKey)
    ensures Hangings(children + [c])
         == Hangings(children) + [PendingEdge(Parent(c), c, Graph.Contains, Graph.Resolved, "")]
  {
  }

  /** The ids of the nodes just written, by key. */
  ghost predicate IdsOf(nodes: NodeTable, written: set<NodeKey>, byFQN: map<NodeKey, nat>) {
    byFQN.Keys == written && written <= nodes.Keys && forall k | k in byFQN :: byFQN[k] == nodes[k].id
  }

  /** The add closure: an edge is appended unless an endpoint is missing. */
  method Add(ghost nodes: NodeTable, byFQN: map<NodeKey, nat>, edges: seq<Edge>, ghost children: seq<NodeKey>,
             child: NodeKey)
    returns (grown: seq<Edge>)
    requires IdsOf(nodes, byFQN.Keys, byFQN)
    requires edges == Resolved(nodes, SOURCE, Hangings(children))
    ensures child in byFQN && Parent(child) in byFQN ==>
            grown == Resolved(nodes, SOURCE, Hangings(children + [child])) && |grown| == |edges| + 1
    ensures child !in byFQN || Parent(child) !in byFQN ==> grown == edges
  {
    if child !in byFQN || Parent(child) !in byFQN {
      return edges;
    }
    HangingsSnoc(children, child);
    assert Hangings(children + [child])[..|children|] == Hangings(children);
    grown := edges + [Edge(EdgeKey(byFQN[Parent(child)], byFQN[child], Graph.Contains, SOURCE),
                           EdgeRow(Graph.Resolved, "{}"))];
  }

  /** What the files table knows of a path. */
  datatype FileRow = FileRow(id: nat, contentHash: string)

  function DirColumns(d: string): Columns {
    Columns(if d == ROOT then ROOT else Base(d), 0, 0, 0, "", "", "", "")
  }

  function FileColumns(p: string, row: FileRow): Columns { Columns(Base(p), row.id, 0, 0, "", "", row.contentHash, "") }

  function DirNodesOf(dirs: seq<string>): seq<Node> {
    seq(|dirs|, i requires 0 <= i < |dirs| => Node(DirNode(dirs[i]), DirColumns(dirs[i])))
  }

  function FileNodesOf(files: seq<string>, rows: string -> FileRow): seq<Node> {
    seq(|files|, i requires 0 <= i < |files| => Node(FileNode(files[i]), FileColumns(files[i], rows(files[i]))))
  }

  /** The vertices, each once, in the order they are written. */
  ghost predicate Lists(nodes: seq<Node>, dirs: seq<string>, files: seq<string>) {
    && |nodes| == |dirs| + |files|
    && (forall i | 0 <= i < |dirs| :: nodes[i].key == DirNode(dirs[i]))
    && (forall i | 0 <= i < |files| :: nodes[|dirs| + i].key == FileNode(files[i]))
  }

  lemma InVertices(paths: set<string>, v: NodeKey)
    ensures v in Vertices(paths)
       <==> (v.kind == Directory && v.fqn in Dirs(paths)) || (v.kind == File && v.fqn in paths)
  {
  }

  ghost function KeyList(nodes: seq<Node>): seq<NodeKey> {
    seq(|nodes|, i requires 0 <= i < |nodes| => nodes[i].key)
  }

  lemma KeyListKeys(nodes: seq<Node>, v: NodeKey)
    ensures v in KeyList(nodes) <==> v in KeysOf(nodes)
  {
    var keys := KeyList(nodes);
    if v in keys {
      var i :| 0 <= i < |keys| && keys[i] == v;
      assert nodes[i] in nodes && nodes[i].key == v;
    }
    if v in KeysOf(nodes) {
      var n :| n in nodes && n.key == v;
      var i :| 0 <= i < |nodes| && nodes[i] == n;
      assert keys[i] == v;
    }
  }

  lemma KeyAt(nodes: seq<Node>, dirs: seq<string>, files: seq<string>)
    requires Lists(nodes, dirs, files)
    ensures |nodes| == |dirs| + |files|
    ensures forall i | 0 <= i < |dirs| :: KeyList(nodes)[i] == DirNode(dirs[i])
    ensures forall i | |dirs| <= i < |nodes| :: KeyList(nodes)[i] == FileNode(files[i - |dirs|])
  {
  }

  lemma KeyListMembers(nodes: seq<Node>, dirs: seq<string>, files: seq<string>, v: NodeKey)
    requires Lists(nodes, dirs, files)
    ensures v in KeyList(nodes) ==> (v.kind == Directory && v.fqn in dirs) || (v.kind == File && v.fqn in files)
  {
    KeyAt(nodes, dirs, files);
    var keys := KeyList(nodes);
    if v in keys {
      var i :| 0 <= i < |keys| && keys[i] == v;
      if i < |dirs| {
        assert v.fqn == dirs[i];
      } else {
        assert v.fqn == files[i - |dirs|];
      }
    }
  }

  lemma KeyListComplete(nodes: seq<Node>, dirs: seq<string>, files: seq<string>, v: NodeKey)
    requires Lists(nodes, dirs, files)
    requires (v.kind == Directory && v.fqn in dirs) || (v.kind == File && v.fqn in files)
    ensures v in KeyList(nodes)
  {
    KeyAt(nodes, dirs, files);
    var keys := KeyList(nodes);
    if v.kind == Directory {
      var i :| 0 <= i < |dirs| && dirs[i] == v.fqn;
      assert keys[i] == v;
    } else {
      var i :| 0 <= i < |files| && files[i] == v.fqn;
      assert keys[|dirs| + i] == v;
    }
  }

  lemma KeyListDistinct(nodes: seq<Node>, dirs: seq<string>, files: seq<string>)
    requires Lists(nodes, dirs, files) && Distinct(dirs) && Distinct(files)
    ensures Distinct(KeyList(nodes))
  {
    KeyAt(nodes, dirs, files);
  }

  lemma NodesAreVertices(nodes: seq<Node>, dirs: seq<string>, files: seq<string>)
    requires Lists(nodes, dirs, files) && Distinct(dirs) && Distinct(files)
    requires forall d :: d in dirs <==> d in Dirs(PathSet(files))
    ensures KeysOf(nodes) == Vertices(PathSet(files))
    ensures |nodes| == |dirs| + |files| == |Vertices(PathSet(files))|
  {
    forall v ensures v in KeyList(nodes) <==> v in Vertices(PathSet(files))
             ensures v in KeysOf(nodes) <==> v in Vertices(PathSet(files))
    {
      KeyListKeys(nodes, v);
      KeyListMembers(nodes, dirs, files, v);
      if (v.kind == Directory && v.fqn in dirs) || (v.kind == File && v.fqn in files) {
        KeyListComplete(nodes, dirs, files, v);
      }
      InVertices(PathSet(files), v);
    }
    KeyListDistinct(nodes, dirs, files);
    DistinctSize(KeyList(nodes), Vertices(PathSet(files)));
  }

  method FillIds(ghost table: NodeTable, nodes: seq<Node>, ids: array<nat>) returns (byFQN: map<NodeKey, nat>)
    requires ids.Length == |nodes|
    requires forall i | 0 <= i < |nodes| :: nodes[i].key in table && ids[i] == table[nodes[i].key].id
    ensures IdsOf(table, KeysOf(nodes), byFQN)
  {
    byFQN := map[];
    for i := 0 to |nodes|
      invariant IdsOf(table, KeysOf(nodes[..i]), byFQN)
    {
      assert nodes[..i + 1] == nodes[..i] + [nodes[i]];
      byFQN := byFQN[nodes[i].key := ids[i]];
    }
    assert nodes[..|nodes|] == nodes;
  }

  /** Everything but the root hangs off its directory. */
  ghost predicate AllChildren(paths: set<string>, children: seq<NodeKey>) {
    forall c :: c in children <==> c in Vertices(paths) && c != DirNode(ROOT)
  }

  ghost function DirChildren(dirs: seq<string>): seq<NodeKey> {
    if dirs == [] then []
    else
      var d := dirs[|dirs| - 1];
      DirChildren(dirs[..|dirs| - 1]) + if d == ROOT then [] else [DirNode(d)]
  }

  lemma {:induction false} DirChildrenMembers(dirs: seq<string>)
    requires Distinct(dirs)
    ensures forall c :: c in DirChildren(dirs) <==> c.kind == Directory && c.fqn in dirs && c.fqn != ROOT
    ensures |DirChildren(dirs)| == |dirs| - if ROOT in dirs then 1 else 0
  {
    if dirs != [] {
      var front, d := dirs[..|dirs| - 1], dirs[|dirs| - 1];
      assert dirs == front + [d] && d !in front;
      DirChildrenMembers(front);
    }
  }

  method AddDirs(ghost table: NodeTable, byFQN: map<NodeKey, nat>, dirs: seq<string>, ghost paths: set<string>)
    returns (edges: seq<Edge>, ghost children: seq<NodeKey>)
    requires IsSortedKeys(Dirs(paths), dirs) && AllClean(paths)
    requires byFQN.Keys == Vertices(paths) && IdsOf(table, byFQN.Keys, byFQN)
    ensures edges == Resolved(table, SOURCE, Hangings(children)) && |edges| == |dirs| - 1
    ensures forall c :: c in children <==> c.kind == Directory && c.fqn in Dirs(paths) && c.fqn != ROOT
  {
    edges, children := [], [];
    for i := 0 to |dirs|
      invariant children == DirChildren(dirs[..i])
      invariant edges == Resolved(table, SOURCE, Hangings(children)) && |edges| == |children|
    {
      assert dirs[..i + 1][..i] == dirs[..i] && dirs[i] in dirs;
      if dirs[i] == ROOT {
        continue;
      }
      InVertices(paths, DirNode(dirs[i]));
      ParentIsVertex(paths, DirNode(dirs[i]));
      edges := Add(table, byFQN, edges, children, DirNode(dirs[i]));
      children := children + [DirNode(dirs[i])];
    }
    assert dirs[..|dirs|] == dirs;
    DirChildrenMembers(dirs);
  }

  /** dirs followed by the file vertices. */
  ghost function WithFiles(dirs: seq<NodeKey>, files: seq<string>): seq<NodeKey> {
    if files == [] then dirs else WithFiles(dirs, files[..|files| - 1]) + [FileNode(files[|files| - 1])]
  }

  lemma {:induction false} WithFilesMembers(dirs: seq<NodeKey>, files: seq<string>)
    ensures forall c :: c in WithFiles(dirs, files) <==> c in dirs || (c.kind == File && c.fqn in files)
  {
    if files != [] {
      var front, f := files[..|files| - 1], files[|files| - 1];
      assert files == front + [f];
      WithFilesMembers(dirs, front);
    }
  }

  method AddFiles(ghost table: NodeTable, byFQN: map<NodeKey, nat>, files: seq<string>, ghost paths: set<string>,
                  before: seq<Edge>, ghost dirs: seq<NodeKey>)
    returns (edges: seq<Edge>)
    requires AllClean(paths) && forall p | p in files :: p in paths
    requires byFQN.Keys == Vertices(paths) && IdsOf(table, byFQN.Keys, byFQN)
    requires before == Resolved(table, SOURCE, Hangings(dirs))
    ensures edges == Resolved(table, SOURCE, Hangings(WithFiles(dirs, files))) && |edges| == |before| + |files|
  {
    edges := before;
    for i := 0 to |files|
      invariant edges == Resolved(table, SOURCE, Hangings(WithFiles(dirs, files[..i])))
      invariant |edges| == |before| + i
    {
      assert files[..i + 1][..i] == files[..i] && files[i] in files;
      InVertices(paths, FileNode(files[i]));
      ParentIsVertex(paths, FileNode(files[i]));
      edges := Add(table, byFQN, edges, WithFiles(dirs, files[..i]), FileNode(files[i]));
    }
    assert files[..|files|] == files;
  }

  /** Every containment edge of the repository, resolved to the ids just written. */
  method TreeEdges(ghost table: NodeTable, byFQN: map<NodeKey, nat>, dirs: seq<string>, files: seq<string>)
    returns (edges: seq<Edge>, ghost children: seq<NodeKey>)
    requires IsSortedKeys(Dirs(PathSet(files)), dirs) && AllClean(PathSet(files))
    requires byFQN.Keys == Vertices(PathSet(files)) && IdsOf(table, byFQN.Keys, byFQN)
    ensures edges == Resolved(table, SOURCE, Hangings(children)) && |edges| == |dirs| - 1 + |files|
    ensures AllChildren(PathSet(files), children)
  {
    ghost var paths := PathSet(files);
    assert forall p | p in files :: p in paths;
    ghost var dirChildren;
    edges, dirChildren := AddDirs(table, byFQN, dirs, paths);
    edges := AddFiles(table, byFQN, files, paths, edges, dirChildren);
    children := WithFiles(dirChildren, files);
    WithFilesMembers(dirChildren, files);
    forall c ensures c in children <==> c in Vertices(paths) && c != DirNode(ROOT) {
      InVertices(paths, c);
    }
  }

  /** The stored containment edges are the tree's, and no other edge changes. */
  lemma TreeIsStored(table: NodeTable, e0: EdgeTable, nextId: nat, paths: set<string>, children: seq<NodeKey>,
                     en: EdgeName)
    requires Consistent(table, e0, nextId) && AllClean(paths)
    requires Vertices(paths) <= table.Keys && AllChildren(paths, children)
    ensures At(table, EdgesAfter(e0, Resolved(table, SOURCE, Hangings(children))), en)
         == if en.kind == Graph.Contains && en.source == SOURCE && IsEdge(paths, en.src, en.dst)
            then Some(EdgeRow(Graph.Resolved, "{}")) else At(table, e0, en)
  {
    WrittenEdges(table, e0, nextId, SOURCE, Hangings(children), en);
    HangingsWritten(table.Keys, children, en);
    if IsEdge(paths, en.src, en.dst) {
      ParentIsVertex(paths, en.dst);
    }
  }

  /** The edge of this name after the containment graph has been written over a store. */
  ghost function WithTree(paths: set<string>, base: EdgeName -> Option<EdgeRow>, en: EdgeName): Option<EdgeRow> {
    if en.kind == Graph.Contains && en.source == SOURCE && IsEdge(paths, en.src, en.dst)
    then Some(EdgeRow(Graph.Resolved, "{}")) else base(en)
  }

  /** Reading the tables after the write: the tree's edges, and every other edge as before. */
  ghost predicate HoldsTree(table: NodeTable, edges: EdgeTable, paths: set<string>, base: EdgeName -> Option<EdgeRow>) {
    forall en :: At(table, edges, en) == WithTree(paths, base, en)
  }

  lemma TreeWritten(n0: NodeTable, e0: EdgeTable, next0: nat, nodes: seq<Node>, paths: set<string>,
                    children: seq<NodeKey>)
    requires Consistent(n0, e0, next0) && next0 >= 1 && AllClean(paths) && AllChildren(paths, children)
    requires KeysOf(nodes) == Vertices(paths)
    ensures var table := Upserted(n0, next0, nodes).0;
            HoldsTree(table, EdgesAfter(e0, Resolved(table, SOURCE, Hangings(children))), paths, Stored(n0, e0))
  {
    var table, next := Upserted(n0, next0, nodes).0, Upserted(n0, next0, nodes).1;
    UpsertedKeys(n0, next0, nodes);
    UpsertedKeeps(n0, e0, next0, nodes);
    forall en ensures At(table, EdgesAfter(e0, Resolved(table, SOURCE, Hangings(children))), en)
                   == WithTree(paths, Stored(n0, e0), en)
    {
      EdgesSurviveUpsert(n0, e0, next0, nodes, en);
      TreeIsStored(table, e0, next, paths, children, en);
    }
  }

  /** What the write leaves in the columns of a vertex. */
  function ColumnsAt(v: NodeKey, rows: string -> FileRow): Columns {
    if v.kind == File then FileColumns(v.fqn, rows(v.fqn)) else DirColumns(v.fqn)
  }

  /** Each vertex is stored under the last component of its path; a file keeps the id and the hash of its row, and a
      directory has neither. */
  lemma ColumnsSay(v: NodeKey, rows: string -> FileRow)
    requires v == DirNode(ROOT) || (Clean(v.fqn) && (v.kind == File || v.kind == Directory))
    ensures var c := StoredColumns(ColumnsAt(v, rows));
            && '/' !in c.name && c.attrs == "{}"
            && (v.fqn == c.name || exists d: string :: v.fqn == d + "/" + c.name)
            && (v.kind == File ==> c.file == rows(v.fqn).id && c.contentHash == rows(v.fqn).contentHash)
            && (v.kind == Directory ==> c.file == 0 && c.contentHash == "")
  {
    if v != DirNode(ROOT) {
      PathInParts(v.fqn);
      NotRoot(v.fqn);
    }
  }

  ghost predicate Described(nodes: seq<Node>, rows: string -> FileRow) {
    forall i | 0 <= i < |nodes| :: nodes[i].columns == ColumnsAt(nodes[i].key, rows)
  }

  ghost predicate HoldsColumns(nodes: NodeTable, vertices: set<NodeKey>, rows: string -> FileRow) {
    forall v | v in vertices :: v in nodes && nodes[v].columns == StoredColumns(ColumnsAt(v, rows))
  }

  lemma Planned(nodes: seq<Node>, dirs: seq<string>, files: seq<string>, rows: string -> FileRow)
    requires nodes == DirNodesOf(dirs) + FileNodesOf(files, rows)
    ensures Lists(nodes, dirs, files) && Described(nodes, rows)
  {
    forall i | 0 <= i < |nodes| ensures nodes[i].columns == ColumnsAt(nodes[i].key, rows) {
      assert i < |dirs| ==> nodes[i] == DirNodesOf(dirs)[i];
      assert i >= |dirs| ==> nodes[i] == FileNodesOf(files, rows)[i - |dirs|];
    }
  }

  /** The sorted directories, and every vertex as a node. */
  method Plan(files: seq<string>, rows: string -> FileRow) returns (dirs: seq<string>, nodes: seq<Node>)
    requires Distinct(files) && AllClean(PathSet(files))
    ensures IsSortedKeys(Dirs(PathSet(files)), dirs)
    ensures KeysOf(nodes) == Vertices(PathSet(files)) && |nodes| == |dirs| + |files| == |Vertices(PathSet(files))|
    ensures forall n | n in nodes :: Named(n)
    ensures Described(nodes, rows)
  {
    assert forall p | p in files :: p in PathSet(files);
    var dirSet := CollectDirs(files);
    dirs := SortedList(dirSet);
    nodes := DirNodesOf(dirs) + FileNodesOf(files, rows);
    Planned(nodes, dirs, files, rows);
    NodesAreVertices(nodes, dirs, files);
    AllNamed(nodes, PathSet(files));
  }

  /** Writes the nodes and keeps their ids by key. */
  method StoreVertices(t: Tables, nodes: seq<Node>, rows: string -> FileRow) returns (byFQN: map<NodeKey, nat>)
    requires t.Valid() && Described(nodes, rows) && forall n | n in nodes :: Named(n)
    modifies t`nodes, t`nextId
    ensures t.Valid() && (t.nodes, t.nextId) == Upserted(old(t.nodes), old(t.nextId), nodes)
    ensures t.nodes.Keys == old(t.nodes.Keys) + KeysOf(nodes) && HoldsColumns(t.nodes, KeysOf(nodes), rows)
    ensures byFQN.Keys == KeysOf(nodes) && IdsOf(t.nodes, byFQN.Keys, byFQN)
  {
    UpsertedKeys(t.nodes, t.nextId, nodes);
    ColumnsByKey(t.nodes, t.nextId, nodes, v => ColumnsAt(v, rows));
    var ids, committed := t.UpsertNodes(nodes);
    byFQN := FillIds(t.nodes, nodes, ids);
  }

  /** Writes the directory and file nodes and the containment edges; it never fails and drops nothing. */
  method WriteFilesystemGraph(t: Tables, files: seq<string>, rows: string -> FileRow)
    returns (nodeCount: nat, edgeCount: nat)
    requires t.Valid() && Distinct(files) && AllClean(PathSet(files))
    modifies t
    ensures t.Valid()
    ensures t.nodes.Keys == old(t.nodes.Keys) + Vertices(PathSet(files))
    ensures HoldsColumns(t.nodes, Vertices(PathSet(files)), rows)
    ensures nodeCount == |Vertices(PathSet(files))| && edgeCount == nodeCount - 1
    ensures HoldsTree(t.nodes, t.edges, PathSet(files), old(Stored(t.nodes, t.edges)))
  {
    var dirs, nodes := Plan(files, rows);
    edgeCount := WritePlan(t, files, rows, dirs, nodes);
    nodeCount := |nodes|;
  }

  method WritePlan(t: Tables, files: seq<string>, rows: string -> FileRow, dirs: seq<string>, nodes: seq<Node>)
    returns (edgeCount: nat)
    requires t.Valid() && AllClean(PathSet(files)) && IsSortedKeys(Dirs(PathSet(files)), dirs)
    requires KeysOf(nodes) == Vertices(PathSet(files)) && Described(nodes, rows) && forall n | n in nodes :: Named(n)
    modifies t
    ensures t.Valid()
    ensures t.nodes.Keys == old(t.nodes.Keys) + Vertices(PathSet(files))
    ensures HoldsColumns(t.nodes, Vertices(PathSet(files)), rows)
    ensures HoldsTree(t.nodes, t.edges, PathSet(files), old(Stored(t.nodes, t.edges)))
    ensures edgeCount == |dirs| - 1 + |files|
  {
    ghost var n0, e0, next0 := t.nodes, t.edges, t.nextId;
    var byFQN := StoreVertices(t, nodes, rows);
    ghost var children;
    edgeCount, children := StoreTree(t, byFQN, dirs, files);
    TreeWritten(n0, e0, next0, nodes, PathSet(files), children);
  }

  method StoreTree(t: Tables, byFQN: map<NodeKey, nat>, dirs: seq<string>, files: seq<string>)
    returns (count: nat, ghost children: seq<NodeKey>)
    requires t.Valid() && IsSortedKeys(Dirs(PathSet(files)), dirs) && AllClean(PathSet(files))
    requires byFQN.Keys == Vertices(PathSet(files)) && IdsOf(t.nodes, byFQN.Keys, byFQN)
    modifies t`edges
    ensures t.Valid() && t.edges == EdgesAfter(old(t.edges), Resolved(t.nodes, SOURCE, Hangings(children)))
    ensures AllChildren(PathSet(files), children) && count == |dirs| - 1 + |files|
  {
    var edges;
    edges, children := TreeEdges(t.nodes, byFQN, dirs, files);
    HangingsAccepted(t.nodes, t.edges, t.nextId, children);
    var ok := t.UpsertEdges(edges);
    count := |edges|;
  }

  lemma HangingsAccepted(nodes: NodeTable, edges: EdgeTable, nextId: nat, children: seq<NodeKey>)
    requires Consistent(nodes, edges, nextId)
    ensures forall e | e in Resolved(nodes, SOURCE, Hangings(children)) ::
              WellFormed(e) && e.key.src in Ids(nodes) && e.key.dst in Ids(nodes)
  {
    ResolvedAccepted(nodes, Output(SOURCE, [], Hangings(children)));
    ResolvedExist(nodes, edges, nextId, SOURCE, Hangings(children));
  }

  lemma AllNamed(nodes: seq<Node>, paths: set<string>)
    requires AllClean(paths) && KeysOf(nodes) == Vertices(paths)
    ensures forall n | n in nodes :: Named(n)
  {
    forall n | n in nodes ensures Named(n) {
      assert n.key in KeysOf(nodes);
      InVertices(paths, n.key);
      if n.key != DirNode(ROOT) {
        ParentIsVertex(paths, n.key);
        NotRoot(n.key.fqn);
      }
    }
  }
}
