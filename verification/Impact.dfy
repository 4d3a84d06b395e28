/** The impact report built from a reverse traversal, and its public form. */
module Impact {
  import opened Collections
  import opened Graph
  import opened Ordering
  import opened Wrappers
  import Traverse

  datatype ChangeKind = Signature | Behaviour | Remove | Rename | AddField | Schema | Config | Route | OtherChange
  datatype Verdict = Breaking | Undetermined | Compiles | Compatible

  datatype Consumer = Consumer(node: Node, depth: nat, via: EdgeKind, evidence: Evidence, verdict: Verdict)
  datatype Report = Report(changed: seq<Node>, kind: ChangeKind, consumers: seq<Consumer>,
                           counts: map<Verdict, nat>, truncated: bool)
  datatype Outcome = Ok(report: Report) | NodeNotFound(id: int) | NodeForeign(id: int) | TraverseFailed(error: Traverse.Error)

  /** The deterministic compatibility table: change kind, kind of the reaching edge, strength of the evidence. */
  function VerdictFor(change: ChangeKind, via: EdgeKind, ev: Evidence): Verdict {
    if !ev.Certain() then Undetermined
    else
      match change
      case Remove => Breaking
      case Rename =>
        if via in {Calls, UsesType, References, Implements, Imports, Extends, Embeds, ReadsConfig} then Breaking
        else Compiles
      case Signature =>
        if via in {Calls, Returns, Accepts, Implements, Tests} then Breaking else Compiles
      case AddField =>
        if via == Implements then Breaking else if via == UsesType then Compiles else Compatible
      case Behaviour => if via == Tests then Breaking else Compiles
      case Schema => if via in {ReadsSchema, WritesSchema, Tests} then Breaking else Compiles
      case Config => if via in {ReadsConfig, Deploys, Provisions} then Breaking else Compiles
      case Route => if via in {RoutesTo, Handles, References, Tests} then Breaking else Compiles
      case OtherChange => Undetermined
  }

  /** Every hop of the walk is resolved or declared. */
  ghost predicate AllCertain(p: seq<Edge>) {
    forall i | 0 <= i < |p| :: p[i].evidence.Resolved? || p[i].evidence.Declared?
  }

  lemma {:induction false} CertainWalks(p: seq<Edge>)
    ensures Weakest(p) <= 1 <==> AllCertain(p)
  {
    if p != [] {
      var front := p[..|p| - 1];
      CertainWalks(front);
      assert p == front + [p[|p| - 1]];
    }
  }

  /** Some walk of this length from the start nodes reaches n over certain hops alone. */
  ghost predicate CertainlyReached(edges: set<Edge>, q: Query, n: int, length: nat) {
    exists p :: IsWalk(edges, q, p, n) && |p| == length && AllCertain(p)
  }

  /** A claim of compatibility, or of breakage, is made exactly when some shortest walk to the consumer is certain
      hop by hop: one heuristic hop on each of them leaves the verdict undetermined. */
  lemma VerdictRestsOnACertainWalk(edges: set<Edge>, q: Query, change: ChangeKind, r: Traverse.Reached)
    requires Traverse.Truthful(edges, q, r) && Traverse.Optimal(edges, q, r)
    ensures VerdictFor(change, r.via, r.evidence) != Undetermined
       <==> change != OtherChange && CertainlyReached(edges, q, r.node.id, r.depth)
  {
    var rank :| Traverse.Witnessed(edges, q, r.node.id, Traverse.PathState(r.depth, rank, r.via))
                && r.evidence == RankToEvidence(rank);
    var p :| IsWalk(edges, q, p, r.node.id) && |p| == r.depth && Weakest(p) == rank;
    CertainWalks(p);
    WeakestIsARank(p);
    if CertainlyReached(edges, q, r.node.id, r.depth) {
      var c :| IsWalk(edges, q, c, r.node.id) && |c| == r.depth && AllCertain(c);
      CertainWalks(c);
      assert r.evidence.Rank() <= Weakest(c) <= 1;
    }
  }

  function ToConsumer(kind: ChangeKind, r: Traverse.Reached): Consumer {
    Consumer(r.node, r.depth, r.via, r.evidence, VerdictFor(kind, r.via, r.evidence))
  }

  function VerdictOrder(v: Verdict): nat {
    match v
    case Breaking => 0
    case Undetermined => 1
    case Compiles => 2
    case Compatible => 3
  }

  /** Breaking first, then by depth, then by path, then by name. */
  predicate ConsumerLess(a: Consumer, b: Consumer) {
    if VerdictOrder(a.verdict) != VerdictOrder(b.verdict) then VerdictOrder(a.verdict) < VerdictOrder(b.verdict)
    else if a.depth != b.depth then a.depth < b.depth
    else if a.node.path != b.node.path then StrLess(a.node.path, b.node.path)
    else StrLess(a.node.fqn, b.node.fqn)
  }

  lemma ConsumerOrder()
    ensures StrictWeakOrder(ConsumerLess)
  {
    forall x, y | ConsumerLess(x, y) ensures !ConsumerLess(y, x) {
      StrLessTotal(x.node.path, y.node.path);
      StrLessTotal(x.node.fqn, y.node.fqn);
    }
    forall x, y, z | !ConsumerLess(y, x) && !ConsumerLess(z, y) ensures !ConsumerLess(z, x) {
      if x.verdict == y.verdict == z.verdict && x.depth == y.depth == z.depth {
        StrLessTotal(x.node.path, y.node.path);
        StrLessTotal(y.node.path, z.node.path);
        StrLessTotal(x.node.path, z.node.path);
        StrLessTransitive(x.node.path, y.node.path, z.node.path);
        if x.node.path == y.node.path == z.node.path {
          StrLessTransitive(x.node.fqn, y.node.fqn, z.node.fqn);
        }
      }
    }
  }

  ghost function CountOf(cs: seq<Consumer>, v: Verdict): nat {
    if cs == [] then 0 else CountOf(cs[..|cs| - 1], v) + if cs[|cs| - 1].verdict == v then 1 else 0
  }

  function At(counts: map<Verdict, nat>, v: Verdict): nat { if v in counts then counts[v] else 0 }

  /** The counts line agrees with the list it summarises. */
  ghost predicate Tallied(r: Report) { forall v :: At(r.counts, v) == CountOf(r.consumers, v) }

  ghost function Places(cs: seq<Consumer>, v: Verdict): set<int> { set i | 0 <= i < |cs| && cs[i].verdict == v }

  lemma PlacesSnoc(cs: seq<Consumer>, c: Consumer, v: Verdict)
    ensures Places(cs + [c], v) == Places(cs, v) + if c.verdict == v then {|cs|} else {}
    ensures |Places(cs + [c], v)| == |Places(cs, v)| + if c.verdict == v then 1 else 0
  {
    var all, here := cs + [c], if c.verdict == v then {|cs|} else {};
    forall i ensures i in Places(all, v) <==> i in Places(cs, v) + here {
    }
    DisjointSize(Places(cs, v), here);
  }

  /** A count is how many places of the list hold that verdict. */
  lemma {:induction false} CountsPlaces(cs: seq<Consumer>, v: Verdict)
    ensures CountOf(cs, v) == |Places(cs, v)|
  {
    if cs == [] {
      assert Places(cs, v) == {};
    } else {
      var front, last := cs[..|cs| - 1], cs[|cs| - 1];
      CountsPlaces(front, v);
      PlacesSnoc(front, last, v);
      assert cs == front + [last];
    }
  }

  lemma {:induction false} CountsSum(cs: seq<Consumer>)
    ensures CountOf(cs, Breaking) + CountOf(cs, Undetermined) + CountOf(cs, Compiles) + CountOf(cs, Compatible) == |cs|
  {
    if cs != [] {
      CountsSum(cs[..|cs| - 1]);
    }
  }

  /** The four counts of a tallied report add up to its consumers. */
  lemma TalliedSums(r: Report)
    requires Tallied(r)
    ensures At(r.counts, Breaking) + At(r.counts, Undetermined) + At(r.counts, Compiles) + At(r.counts, Compatible)
         == |r.consumers|
  {
    CountsSum(r.consumers);
  }

  lemma CountSnoc(cs: seq<Consumer>, c: Consumer, v: Verdict)
    ensures CountOf(cs + [c], v) == CountOf(cs, v) + if c.verdict == v then 1 else 0
  {
    assert (cs + [c])[..|cs|] == cs;
  }

  lemma {:induction false} CountConcat(a: seq<Consumer>, b: seq<Consumer>, v: Verdict)
    ensures CountOf(a + b, v) == CountOf(a, v) + CountOf(b, v)
  {
    if b == [] {
      assert a + b == a;
    } else {
      var front, c := b[..|b| - 1], b[|b| - 1];
      assert |front| < |b|;
      CountConcat(a, front, v);
      CountSnoc(a + front, c, v);
      CountSnoc(front, c, v);
      assert a + b == a + front + [c];
      assert b == front + [c];
    }
  }

  lemma CountRemove(cs: seq<Consumer>, k: nat, v: Verdict)
    requires k < |cs|
    ensures CountOf(cs, v) == CountOf(cs[..k] + cs[k + 1..], v) + if cs[k].verdict == v then 1 else 0
  {
    var front, back := cs[..k], cs[k + 1..];
    assert cs == front + [cs[k]] + back;
    CountConcat(front + [cs[k]], back, v);
    CountSnoc(front, cs[k], v);
    CountConcat(front, back, v);
  }

  lemma {:induction false} CountPermuted(a: seq<Consumer>, b: seq<Consumer>, v: Verdict)
    requires multiset(a) == multiset(b)
    ensures CountOf(a, v) == CountOf(b, v)
  {
    assert |multiset(a)| == |a| && |multiset(b)| == |b|;
    if a != [] {
      var front, x := a[..|a| - 1], a[|a| - 1];
      assert multiset(a) == multiset(front) + multiset{x} by {
        assert a == front + [x];
      }
      var k := RemoveOne(b, x);
      CountPermuted(front, b[..k] + b[k + 1..], v);
      CountRemove(b, k, v);
    }
  }

  /** The reached nodes that are not themselves changed, in traversal order. */
  ghost function Affected(changed: set<int>, kind: ChangeKind, reached: seq<Traverse.Reached>): seq<Consumer> {
    if reached == [] then []
    else
      var r := reached[|reached| - 1];
      Affected(changed, kind, reached[..|reached| - 1]) + if r.node.id in changed then [] else [ToConsumer(kind, r)]
  }

  method BuildImpact(changed: seq<Node>, kind: ChangeKind, reached: seq<Traverse.Reached>, truncated: bool)
    returns (imp: Report)
    ensures imp.changed == changed && imp.kind == kind && imp.truncated == truncated
    ensures multiset(imp.consumers) == multiset(Affected((set n | n in changed :: n.id), kind, reached))
    ensures SortedBy(imp.consumers, ConsumerLess)
    ensures forall z :: Ties(imp.consumers, z, ConsumerLess)
                     == Ties(Affected((set n | n in changed :: n.id), kind, reached), z, ConsumerLess)
    ensures Tallied(imp)
  {
    var changedIDs := set n | n in changed :: n.id;
    var consumers: seq<Consumer> := [];
    var counts: map<Verdict, nat> := map[];
    for i := 0 to |reached|
      invariant consumers == Affected(changedIDs, kind, reached[..i])
      invariant forall v :: At(counts, v) == CountOf(consumers, v)
    {
      var r := reached[i];
      assert reached[..i + 1][..i] == reached[..i];
      if r.node.id in changedIDs {
        continue;
      }
      var c := ToConsumer(kind, r);
      assert (consumers + [c])[..|consumers|] == consumers;
      consumers := consumers + [c];
      counts := counts[c.verdict := At(counts, c.verdict) + 1];
    }
    assert reached[..|reached|] == reached;
    ConsumerOrder();
    StableSortCorrect(consumers, ConsumerLess);
    var sorted := StableSort(consumers, ConsumerLess);
    forall v ensures At(counts, v) == CountOf(sorted, v) {
      CountPermuted(consumers, sorted, v);
    }
    imp := Report(changed, kind, sorted, counts, truncated);
  }

  lemma {:induction false} AffectedMembers(changed: set<int>, kind: ChangeKind, reached: seq<Traverse.Reached>)
    ensures forall c :: c in Affected(changed, kind, reached) <==>
                        exists r | r in reached :: r.node.id !in changed && c == ToConsumer(kind, r)
    ensures (forall i, j | 0 <= i < j < |reached| :: reached[i].node.id != reached[j].node.id) ==>
              forall i, j | 0 <= i < j < |Affected(changed, kind, reached)| ::
                Affected(changed, kind, reached)[i].node.id != Affected(changed, kind, reached)[j].node.id
  {
    if reached != [] {
      var front, r := reached[..|reached| - 1], reached[|reached| - 1];
      assert reached == front + [r];
      AffectedMembers(changed, kind, front);
      var a := Affected(changed, kind, front);
      if forall i, j | 0 <= i < j < |reached| :: reached[i].node.id != reached[j].node.id {
        forall i | 0 <= i < |a| ensures a[i].node.id != r.node.id {
          assert a[i] in a;
        }
      }
    }
  }

  function ImpactQuery(changed: seq<int>): Query {
    Query(changed, Reverse, [], 3, Traverse.DEFAULT_MAX_NODES, [])
  }

  /** What the consumer row says about how it was reached is true of a walk of the table. */
  ghost predicate HonestConsumer(edges: set<Edge>, changed: seq<int>, kind: ChangeKind, c: Consumer) {
    && c.node.id !in changed
    && c.verdict == VerdictFor(kind, c.via, c.evidence)
    && Traverse.Truthful(edges, ImpactQuery(changed), Traverse.Reached(c.node, c.depth, c.via, c.evidence))
  }

  /** The traversal cannot be capped: few enough nodes and hops, counted before the call. */
  ghost predicate Uncapped(edges: set<Edge>, q: Query) {
    var ball := |Traverse.Ball(edges, q)|;
    ball < Traverse.Limit(q) && |Traverse.Hops(edges, q)| < 4 * (Traverse.Limit(q) - ball)
  }

  /** Every reachable unchanged node is a consumer, with a verdict that is a claim exactly on certain evidence. */
  ghost predicate Complete(edges: set<Edge>, nodes: map<int, Node>, changed: seq<int>, rep: Report) {
    && (rep.kind == Remove ==> forall c | c in rep.consumers ::
          c.verdict == Breaking <==> CertainlyReached(edges, ImpactQuery(changed), c.node.id, c.depth))
    && (forall n | n in nodes && n !in changed && Traverse.Reachable(edges, ImpactQuery(changed), n) ::
          exists c | c in rep.consumers :: c.node.id == n)
    && (forall c | c in rep.consumers ::
          c.verdict != Undetermined
          <==> rep.kind != OtherChange && CertainlyReached(edges, ImpactQuery(changed), c.node.id, c.depth))
  }

  /** The changed nodes as the report lists them. */
  ghost predicate ListsChanged(nodes: map<int, Node>, changed: seq<int>, listed: seq<Node>) {
    |listed| == |changed| && forall k | 0 <= k < |changed| :: changed[k] in nodes && listed[k] == nodes[changed[k]]
  }

  ghost predicate KnownHere(nodes: map<int, Node>, workspace: string, id: int) {
    id in nodes && nodes[id].workspace == workspace
  }

  /** Loads the changed nodes, or says which one is missing or of another workspace. */
  method LoadChanged(nodes: map<int, Node>, workspace: string, changed: seq<int>)
    returns (listed: seq<Node>, bad: Option<Outcome>)
    ensures bad.None? <==> forall k | 0 <= k < |changed| :: KnownHere(nodes, workspace, changed[k])
    ensures bad.None? ==> ListsChanged(nodes, changed, listed)
    ensures bad.Some? ==>
            || (bad.value.NodeNotFound? && bad.value.id in changed && bad.value.id !in nodes)
            || (bad.value.NodeForeign? && bad.value.id in changed && bad.value.id in nodes
                && nodes[bad.value.id].workspace != workspace)
  {
    listed, bad := [], None;
    for i := 0 to |changed|
      invariant |listed| == i
      invariant forall k | 0 <= k < i :: KnownHere(nodes, workspace, changed[k]) && listed[k] == nodes[changed[k]]
    {
      if changed[i] !in nodes {
        return [], Some(NodeNotFound(changed[i]));
      }
      if nodes[changed[i]].workspace != workspace {
        return [], Some(NodeForeign(changed[i]));
      }
      listed := listed + [nodes[changed[i]]];
    }
  }

  // The verdicts, read edge kind by edge kind.

  /** The changes that break what depends over an edge of this kind. */
  ghost function BreakingChanges(via: EdgeKind): set<ChangeKind> {
    match via
    case Calls => {Remove, Rename, Signature}
    case Tests => {Remove, Signature, Behaviour, Schema, Route}
    case Implements => {Remove, Rename, Signature, AddField}
    case References => {Remove, Rename, Route}
    case ReadsConfig => {Remove, Rename, Config}
    case UsesType | Imports | Extends | Embeds => {Remove, Rename}
    case Returns | Accepts => {Remove, Signature}
    case ReadsSchema | WritesSchema => {Remove, Schema}
    case Deploys | Provisions => {Remove, Config}
    case RoutesTo | Handles => {Remove, Route}
    case _ => {Remove}
  }

  /** What each consumer of a report is told. Without certain evidence, or without a known kind of change, nothing is
      claimed; otherwise it breaks exactly on the changes listed for the edge it is reached by. Only an added field
      leaves a consumer compatible, unless it implements or uses the type. */
  lemma ConsumersAreTold(edges: set<Edge>, nodes: map<int, Node>, changed: seq<int>, kind: ChangeKind, rep: Report,
                         c: Consumer)
    requires Sound(edges, nodes, changed, kind, rep) && c in rep.consumers
    ensures var certain := c.evidence.Resolved? || c.evidence.Declared?;
            && (c.verdict == Undetermined <==> !certain || kind == OtherChange)
            && (c.verdict == Breaking <==> certain && kind in BreakingChanges(c.via))
            && (c.verdict == Compatible <==> certain && kind == AddField && c.via != Implements && c.via != UsesType)
  {
    assert HonestConsumer(edges, changed, kind, c);
  }

  /** For one consumer and one piece of evidence no classified change is worse than a removal. */
  lemma RemovalIsWorst(kind: ChangeKind, r: Traverse.Reached)
    ensures kind != OtherChange ==>
            VerdictOrder(ToConsumer(Remove, r).verdict) <= VerdictOrder(ToConsumer(kind, r).verdict)
    ensures ToConsumer(Remove, r).verdict == if r.evidence.Resolved? || r.evidence.Declared? then Breaking else Undetermined
  {
  }

  /** The worst verdicts come first; among equals the nearer ones, then by path, then by name. */
  lemma WorstFirst(cs: seq<Consumer>, i: nat, j: nat)
    requires SortedBy(cs, ConsumerLess) && i < j < |cs|
    ensures var a, b := cs[i], cs[j];
            && (b.verdict == Breaking ==> a.verdict == Breaking)
            && (b.verdict == Undetermined ==> a.verdict == Breaking || a.verdict == Undetermined)
            && (a.verdict == Compatible ==> b.verdict == Compatible)
            && (a.verdict == b.verdict ==> a.depth <= b.depth)
            && (a.verdict == b.verdict && a.depth == b.depth ==>
                  a.node.path == b.node.path || StrLess(a.node.path, b.node.path))
            && (a.verdict == b.verdict && a.depth == b.depth && a.node.path == b.node.path ==>
                  a.node.fqn == b.node.fqn || StrLess(a.node.fqn, b.node.fqn))
  {
    StrLessTotal(cs[i].node.path, cs[j].node.path);
    StrLessTotal(cs[i].node.fqn, cs[j].node.fqn);
  }

  /** p leads from a changed node to n along edges whose source depends on their destination. */
  ghost predicate DependsThrough(edges: set<Edge>, changed: seq<int>, p: seq<Edge>, n: int) {
    && (forall i | 0 <= i < |p| :: p[i] in edges)
    && (if p == [] then n in changed else p[0].dst in changed && p[|p| - 1].src == n)
    && forall i | 0 < i < |p| :: p[i].dst == p[i - 1].src
  }

  /** The nodes of a report are those that depend on a changed one in at most three steps, over edges of every kind
      and evidence. */
  lemma ReachedThroughDependents(edges: set<Edge>, changed: seq<int>, n: int)
    ensures Traverse.Reachable(edges, ImpactQuery(changed), n)
       <==> exists p :: |p| <= 3 && DependsThrough(edges, changed, p, n)
  {
    var q := ImpactQuery(changed);
    forall p ensures IsWalk(edges, q, p, n) <==> DependsThrough(edges, changed, p, n) {
      WalkIsAChain(edges, q, p, n);
    }
  }

  /** What every report that was made says: it is honest, about each node once, counted, sorted, and marked as cut
      exactly when changed nodes and consumers together reach the limit. */
  ghost predicate Sound(edges: set<Edge>, nodes: map<int, Node>, changed: seq<int>, kind: ChangeKind, rep: Report) {
    && rep.kind == kind && ListsChanged(nodes, changed, rep.changed)
    && Tallied(rep) && SortedBy(rep.consumers, ConsumerLess) && |rep.consumers| <= Traverse.DEFAULT_MAX_NODES
    && (forall i, j | 0 <= i < j < |rep.consumers| :: rep.consumers[i].node.id != rep.consumers[j].node.id)
    && (forall c | c in rep.consumers :: HonestConsumer(edges, changed, kind, c))
    && (rep.truncated <==> |(set id | id in changed)| + |rep.consumers| >= Traverse.DEFAULT_MAX_NODES)
  }

  /** The report for changed nodes that are all known here. */
  method ReportOn(edges: set<Edge>, nodes: map<int, Node>, workspace: string, changed: seq<int>, listed: seq<Node>,
                  kind: ChangeKind, answer: (seq<int>, int) -> seq<Edge>)
    returns (r: Outcome, capped: bool)
    requires forall id | id in nodes :: nodes[id].id == id
    requires changed != [] && ListsChanged(nodes, changed, listed)
    ensures r.Ok? || r == TraverseFailed(Traverse.ForeignWorkspace)
    ensures !r.Ok? ==>
            exists n | n in nodes :: Traverse.Reachable(edges, ImpactQuery(changed), n) && nodes[n].workspace != workspace
    ensures r.Ok? ==> Sound(edges, nodes, changed, kind, r.report) && (r.report.truncated ==> capped)
    ensures r.Ok? && !capped ==> Complete(edges, nodes, changed, r.report)
    ensures Uncapped(edges, ImpactQuery(changed)) ==> !capped
    ensures r.Ok? && changed != [] && Traverse.CutAtOnce(edges, ImpactQuery(changed), answer) ==>
            capped && !r.report.truncated && r.report.consumers == []
  {
    var limit := Traverse.DEFAULT_MAX_NODES;
    var t: Traverse.Result;
    t, capped := Traverse.Traverse(edges, nodes, workspace, ImpactQuery(changed), answer);
    if t.Err? {
      assert Traverse.MaxDepth(ImpactQuery(changed)) == 3 && ImpactQuery(changed).minEvidence == [];
      assert t != Traverse.Err(Traverse.DepthOutOfRange) && t != Traverse.Err(Traverse.InvalidEvidence);
      assert t.error == Traverse.ForeignWorkspace;
      return TraverseFailed(t.error), capped;
    }
    var imp := BuildImpact(listed, kind, t.reached, |t.reached| >= limit);
    ChangedIds(nodes, changed, listed);
    ReportIsSound(edges, nodes, changed, kind, t.reached, imp);
    NobodyNew(edges, changed, kind, answer, t.reached, imp.consumers);
    if !capped {
      CompleteReport(edges, nodes, changed, t.reached, imp);
    }
    r := Ok(imp);
  }

  lemma NobodyNew(edges: set<Edge>, changed: seq<int>, kind: ChangeKind, answer: (seq<int>, int) -> seq<Edge>,
                  reached: seq<Traverse.Reached>, cs: seq<Consumer>)
    requires ConsumersOf(changed, kind, reached, cs)
    requires Traverse.CutAtOnce(edges, ImpactQuery(changed), answer) ==> forall x | x in reached :: x.node.id in changed
    ensures Traverse.CutAtOnce(edges, ImpactQuery(changed), answer) ==> cs == []
  {
    if Traverse.CutAtOnce(edges, ImpactQuery(changed), answer) {
      NoMembers(cs);
    }
  }

  lemma ReportIsSound(edges: set<Edge>, nodes: map<int, Node>, changed: seq<int>, kind: ChangeKind,
                      reached: seq<Traverse.Reached>, rep: Report)
    requires rep.kind == kind && ListsChanged(nodes, changed, rep.changed) && Tallied(rep)
    requires SortedBy(rep.consumers, ConsumerLess) && |reached| <= Traverse.DEFAULT_MAX_NODES
    requires rep.truncated <==> |reached| >= Traverse.DEFAULT_MAX_NODES
    requires multiset(rep.consumers) == multiset(Affected((set id | id in changed), kind, reached))
    requires forall i, j | 0 <= i < j < |reached| :: reached[i].node.id != reached[j].node.id
    requires forall x | x in reached :: Traverse.Truthful(edges, ImpactQuery(changed), x)
    requires |reached| < Traverse.DEFAULT_MAX_NODES ==>
               forall n | n in changed :: exists x | x in reached :: x.node.id == n
    ensures Sound(edges, nodes, changed, kind, rep) && ConsumersOf(changed, kind, reached, rep.consumers)
  {
    ReportedConsumers(changed, kind, reached, rep.consumers);
    HonestReport(edges, changed, kind, reached, rep.consumers);
    MarkCounts(changed, kind, reached, rep.consumers, Traverse.DEFAULT_MAX_NODES);
  }

  /** The result, and whether a cap of the traversal fired. */
  method ImpactOf(edges: set<Edge>, nodes: map<int, Node>, workspace: string, changed: seq<int>, kind: ChangeKind,
                  answer: (seq<int>, int) -> seq<Edge>)
    returns (r: Outcome, capped: bool)
    requires forall id | id in nodes :: nodes[id].id == id
    ensures changed == [] ==> r == Ok(Report([], kind, [], map[], false))
    ensures r.NodeNotFound? ==> r.id in changed && r.id !in nodes
    ensures r.NodeForeign? ==> r.id in changed && r.id in nodes && nodes[r.id].workspace != workspace
    ensures (exists k | 0 <= k < |changed| :: !KnownHere(nodes, workspace, changed[k])) ==>
            r.NodeNotFound? || r.NodeForeign?
    ensures r.TraverseFailed? ==>
            r.error == Traverse.ForeignWorkspace
            && exists n | n in nodes :: Traverse.Reachable(edges, ImpactQuery(changed), n) && nodes[n].workspace != workspace
    ensures r.Ok? ==> Sound(edges, nodes, changed, kind, r.report) && (r.report.truncated ==> capped)
    ensures r.Ok? && !capped ==> Complete(edges, nodes, changed, r.report)
    ensures Uncapped(edges, ImpactQuery(changed)) ==> !capped
    ensures r.Ok? && changed != [] && Traverse.CutAtOnce(edges, ImpactQuery(changed), answer) ==>
            capped && !r.report.truncated && r.report.consumers == []
  {
    if changed == [] {
      NothingReached(edges, changed);
      return Ok(Report([], kind, [], map[], false)), false;
    }
    var listed, bad := LoadChanged(nodes, workspace, changed);
    if bad.Some? {
      return bad.value, false;
    }
    r, capped := ReportOn(edges, nodes, workspace, changed, listed, kind, answer);
  }

  lemma NothingReached(edges: set<Edge>, changed: seq<int>)
    requires changed == []
    ensures forall n :: !Traverse.Reachable(edges, ImpactQuery(changed), n)
    ensures (set id | id in changed) == {}
  {
    forall n ensures !Traverse.Reachable(edges, ImpactQuery(changed), n) {
      forall p ensures !IsWalk(edges, ImpactQuery(changed), p, n) {
        Traverse.NoStartNoWalk(edges, ImpactQuery(changed), p, n);
      }
    }
  }

  /** The consumers are the rows the traversal reported, minus the changed nodes. */
  ghost predicate ConsumersOf(changed: seq<int>, kind: ChangeKind, reached: seq<Traverse.Reached>, cs: seq<Consumer>) {
    forall c :: c in cs <==> exists r | r in reached :: r.node.id !in changed && c == ToConsumer(kind, r)
  }

  lemma HonestReport(edges: set<Edge>, changed: seq<int>, kind: ChangeKind, reached: seq<Traverse.Reached>,
                     cs: seq<Consumer>)
    requires ConsumersOf(changed, kind, reached, cs)
    requires forall x | x in reached :: Traverse.Truthful(edges, ImpactQuery(changed), x)
    ensures forall c | c in cs :: HonestConsumer(edges, changed, kind, c)
  {
    forall c | c in cs ensures HonestConsumer(edges, changed, kind, c) {
      var x :| x in reached && x.node.id !in changed && c == ToConsumer(kind, x);
      assert x == Traverse.Reached(c.node, c.depth, c.via, c.evidence);
    }
  }

  lemma CompleteReport(edges: set<Edge>, nodes: map<int, Node>, changed: seq<int>, reached: seq<Traverse.Reached>,
                       rep: Report)
    requires ConsumersOf(changed, rep.kind, reached, rep.consumers)
    requires forall x | x in reached ::
               Traverse.Truthful(edges, ImpactQuery(changed), x) && Traverse.Optimal(edges, ImpactQuery(changed), x)
    requires forall n | n in nodes && Traverse.Reachable(edges, ImpactQuery(changed), n) ::
               exists x | x in reached :: x.node.id == n
    ensures Complete(edges, nodes, changed, rep)
  {
    forall n | n in nodes && n !in changed && Traverse.Reachable(edges, ImpactQuery(changed), n)
      ensures exists c | c in rep.consumers :: c.node.id == n
    {
      var x :| x in reached && x.node.id == n;
      assert ToConsumer(rep.kind, x) in rep.consumers;
    }
    forall c | c in rep.consumers
      ensures c.verdict != Undetermined
         <==> rep.kind != OtherChange && CertainlyReached(edges, ImpactQuery(changed), c.node.id, c.depth)
    {
      var x :| x in reached && x.node.id !in changed && c == ToConsumer(rep.kind, x);
      VerdictRestsOnACertainWalk(edges, ImpactQuery(changed), rep.kind, x);
      RemovalIsWorst(rep.kind, x);
    }
  }

  /** The mark compares rows with the limit; every row is a consumer or a changed node, so it can be read off the
      report. */
  lemma MarkCounts(changed: seq<int>, kind: ChangeKind, reached: seq<Traverse.Reached>, cs: seq<Consumer>, limit: nat)
    requires ConsumersOf(changed, kind, reached, cs) && |reached| <= limit
    requires forall i, j | 0 <= i < j < |reached| :: reached[i].node.id != reached[j].node.id
    requires forall i, j | 0 <= i < j < |cs| :: cs[i].node.id != cs[j].node.id
    requires |reached| < limit ==> forall n | n in changed :: exists x | x in reached :: x.node.id == n
    ensures |reached| >= limit <==> |(set id | id in changed)| + |cs| >= limit
  {
    var start := set id | id in changed;
    var rows := set x | x in reached :: x.node.id;
    var others := set c | c in cs :: c.node.id;
    RowIds(reached, rows);
    ConsumerIds(cs, others);
    RowsSplit(changed, kind, reached, cs, start, rows, others);
    DisjointSize(start, others);
    SubsetSize(rows, start + others);
    if |reached| < limit {
      forall n | n in start ensures n in rows {
        var x :| x in reached && x.node.id == n;
      }
      assert rows == start + others;
    }
  }

  lemma RowsSplit(changed: seq<int>, kind: ChangeKind, reached: seq<Traverse.Reached>, cs: seq<Consumer>,
                  start: set<int>, rows: set<int>, others: set<int>)
    requires ConsumersOf(changed, kind, reached, cs)
    requires start == (set id | id in changed) && rows == (set x | x in reached :: x.node.id)
    requires others == set c | c in cs :: c.node.id
    ensures rows <= start + others && others <= rows && start !! others
  {
    forall n | n in rows ensures n in start + others {
      var x :| x in reached && x.node.id == n;
      if n !in changed {
        assert ToConsumer(kind, x) in cs;
      }
    }
    forall n | n in others ensures n in rows && n !in start {
      var c :| c in cs && c.node.id == n;
      var x :| x in reached && x.node.id !in changed && c == ToConsumer(kind, x);
    }
  }

  // A cut that the mark misses, in an ordinary table: a hundred and fifty functions that all call each other were
  // changed, and one other function calls the first of them.

  const MUTUAL := 150
  const CALLER := MUTUAL + 1

  /** The k-th call among the changed functions: each calls every other one once. */
  function MutualCall(k: nat): Edge {
    var a, j := k / (MUTUAL - 1) + 1, k % (MUTUAL - 1) + 1;
    Edge(k, a, if j < a then j else j + 1, Calls, Resolved)
  }

  function OutsideCall(): Edge { Edge(MUTUAL * (MUTUAL - 1), CALLER, 1, Calls, Resolved) }

  ghost function CallTable(): set<Edge> {
    (set k: nat | k < MUTUAL * (MUTUAL - 1) :: MutualCall(k)) + {OutsideCall()}
  }

  function AllChanged(): seq<int> { seq(MUTUAL, i => i + 1) }

  function Functions(workspace: string): map<int, Node> {
    map id | 1 <= id <= CALLER :: Node(id, workspace, "function", "f", "f.go")
  }

  /** The first query answers with calls among the changed functions, until its row cap is full. */
  function MutualFirst(chunk: seq<int>, cap: int): seq<Edge> {
    if cap <= 0 then [] else seq(cap, k requires 0 <= k < cap => MutualCall(k))
  }

  lemma MutualCallIs(k: nat)
    requires k < MUTUAL * (MUTUAL - 1)
    ensures var e := MutualCall(k);
            1 <= e.src <= MUTUAL && 1 <= e.dst <= MUTUAL && e.src != e.dst
            && k == (e.src - 1) * (MUTUAL - 1) + (if e.dst < e.src then e.dst else e.dst - 1) - 1
  {
  }

  /** No two rows share source, target and kind: nothing in the table is a parallel edge. */
  lemma NoParallelEdges(d: Edge, e: Edge)
    requires d in CallTable() && e in CallTable() && d.src == e.src && d.dst == e.dst && d.kind == e.kind
    ensures d == e
  {
    if d != OutsideCall() {
      var k: nat :| k < MUTUAL * (MUTUAL - 1) && d == MutualCall(k);
      MutualCallIs(k);
      if e != OutsideCall() {
        var l: nat :| l < MUTUAL * (MUTUAL - 1) && e == MutualCall(l);
        MutualCallIs(l);
      }
    } else if e != OutsideCall() {
      var l: nat :| l < MUTUAL * (MUTUAL - 1) && e == MutualCall(l);
      MutualCallIs(l);
    }
  }

  lemma InAllChanged(n: int)
    ensures n in AllChanged() <==> 1 <= n <= MUTUAL
  {
    if 1 <= n <= MUTUAL {
      assert AllChanged()[n - 1] == n;
    }
  }

  lemma AllSeeded()
    ensures forall n :: n in Traverse.Seeded(ImpactQuery(AllChanged())) <==> 1 <= n <= MUTUAL
    ensures |Traverse.Seeded(ImpactQuery(AllChanged()))| == MUTUAL
  {
    var seeded := Traverse.Seeded(ImpactQuery(AllChanged()));
    forall n ensures n in seeded <==> 1 <= n <= MUTUAL {
      InAllChanged(n);
    }
    forall n ensures n in AllChanged() <==> n in seeded.Keys {
      InAllChanged(n);
    }
    DistinctSize(AllChanged(), seeded.Keys);
    assert |seeded| == |seeded.Keys|;
  }

  lemma MutualRows(cap: nat)
    requires cap <= MUTUAL * (MUTUAL - 1)
    ensures Traverse.RowSet(CallTable(), ImpactQuery(AllChanged()), AllChanged(), cap, MutualFirst(AllChanged(), cap))
    ensures forall k | 0 <= k < cap :: 1 <= MutualCall(k).src <= MUTUAL
  {
    var q, rows := ImpactQuery(AllChanged()), MutualFirst(AllChanged(), cap);
    forall k | 0 <= k < cap
      ensures rows[k] in CallTable() && Passes(q, rows[k]) && From(q, rows[k]) in AllChanged()
      ensures 1 <= MutualCall(k).src <= MUTUAL
    {
      MutualCallIs(k);
      InAllChanged(MutualCall(k).dst);
    }
  }

  lemma MutualCutAtOnce()
    ensures Traverse.CutAtOnce(CallTable(), ImpactQuery(AllChanged()), MutualFirst)
  {
    AllSeeded();
    var cap := 4 * (Traverse.DEFAULT_MAX_NODES - MUTUAL);
    MutualRows(cap);
    var q := ImpactQuery(AllChanged());
    assert Traverse.OnlyMeets(q, Traverse.Seeded(q), MutualFirst(AllChanged(), cap));
  }

  lemma CallerIsReachable()
    ensures Traverse.Reachable(CallTable(), ImpactQuery(AllChanged()), CALLER)
    ensures CALLER !in AllChanged()
  {
    var q := ImpactQuery(AllChanged());
    InAllChanged(1);
    InAllChanged(CALLER);
    assert IsWalk(CallTable(), q, [], 1);
    ExtendWalk(CallTable(), q, [], OutsideCall());
    assert [] + [OutsideCall()] == [OutsideCall()] && |[OutsideCall()]| <= Traverse.MaxDepth(q);
  }

  /** The report of that change comes out empty and unmarked, although one caller is a hop away. */
  method UnmarkedCut(workspace: string) returns (rep: Report)
    ensures rep.consumers == [] && !rep.truncated
    ensures Traverse.Reachable(CallTable(), ImpactQuery(AllChanged()), CALLER) && CALLER !in AllChanged()
  {
    MutualCutAtOnce();
    CallerIsReachable();
    ghost var edges := CallTable();
    var table := set k: nat | k < MUTUAL * (MUTUAL - 1) :: MutualCall(k);
    var nodes := Functions(workspace);
    var r, capped := ImpactOf(table + {OutsideCall()}, nodes, workspace, AllChanged(), Signature, MutualFirst);
    AllKnown(workspace);
    rep := r.report;
  }

  lemma AllKnown(workspace: string)
    ensures forall k | 0 <= k < |AllChanged()| :: KnownHere(Functions(workspace), workspace, AllChanged()[k])
    ensures forall n | n in AllChanged() :: KnownHere(Functions(workspace), workspace, n)
    ensures forall n | n in Functions(workspace) :: Functions(workspace)[n].workspace == workspace
  {
    forall n | n in AllChanged() ensures KnownHere(Functions(workspace), workspace, n) {
      InAllChanged(n);
    }
  }

  lemma RowIds(reached: seq<Traverse.Reached>, ids: set<int>)
    requires forall i, j | 0 <= i < j < |reached| :: reached[i].node.id != reached[j].node.id
    requires ids == set x | x in reached :: x.node.id
    ensures |ids| == |reached|
  {
    var list := seq(|reached|, i requires 0 <= i < |reached| => reached[i].node.id);
    forall n ensures n in list <==> n in ids {
      if n in list {
        var i :| 0 <= i < |list| && list[i] == n;
        assert reached[i] in reached;
      }
      if n in ids {
        var x :| x in reached && x.node.id == n;
        var i :| 0 <= i < |reached| && reached[i] == x;
        assert list[i] == n;
      }
    }
    DistinctSize(list, ids);
  }

  lemma ConsumerIds(cs: seq<Consumer>, ids: set<int>)
    requires forall i, j | 0 <= i < j < |cs| :: cs[i].node.id != cs[j].node.id
    requires ids == set c | c in cs :: c.node.id
    ensures |ids| == |cs|
  {
    var list := seq(|cs|, i requires 0 <= i < |cs| => cs[i].node.id);
    forall n ensures n in list <==> n in ids {
      if n in list {
        var i :| 0 <= i < |list| && list[i] == n;
        assert cs[i] in cs;
      }
      if n in ids {
        var c :| c in cs && c.node.id == n;
        var i :| 0 <= i < |cs| && cs[i] == c;
        assert list[i] == n;
      }
    }
    DistinctSize(list, ids);
  }

  lemma ChangedIds(nodes: map<int, Node>, changed: seq<int>, changedNodes: seq<Node>)
    requires forall id | id in nodes :: nodes[id].id == id
    requires |changedNodes| == |changed|
    requires forall k | 0 <= k < |changed| :: changed[k] in nodes && changedNodes[k] == nodes[changed[k]]
    ensures (set n | n in changedNodes :: n.id) == set id | id in changed
  {
    forall id | id in changed ensures id in set n | n in changedNodes :: n.id {
      var k :| 0 <= k < |changed| && changed[k] == id;
      assert changedNodes[k] in changedNodes;
    }
    forall n | n in changedNodes ensures n.id in changed {
      var k :| 0 <= k < |changed| && changedNodes[k] == n;
      assert changed[k] in changed;
    }
  }

  /** The report holds one consumer for each reached node that is not changed, and nothing else. */
  lemma ReportedConsumers(changed: seq<int>, kind: ChangeKind, reached: seq<Traverse.Reached>, cs: seq<Consumer>)
    requires multiset(cs) == multiset(Affected((set id | id in changed), kind, reached))
    requires forall i, j | 0 <= i < j < |reached| :: reached[i].node.id != reached[j].node.id
    ensures ConsumersOf(changed, kind, reached, cs)
    ensures forall i, j | 0 <= i < j < |cs| :: cs[i].node.id != cs[j].node.id
    ensures |cs| <= |reached|
  {
    var a := Affected((set id | id in changed), kind, reached);
    AffectedMembers((set id | id in changed), kind, reached);
    PermutationKeeps(a, cs);
    forall i, j | 0 <= i < j < |cs| ensures cs[i].node.id != cs[j].node.id {
      assert cs[i] in a && cs[j] in a;
      var k :| 0 <= k < |a| && a[k] == cs[i];
      var l :| 0 <= l < |a| && a[l] == cs[j];
      assert k != l;
    }
    AffectedSize((set id | id in changed), kind, reached);
  }

  lemma {:induction false} AffectedSize(changed: set<int>, kind: ChangeKind, reached: seq<Traverse.Reached>)
    ensures |Affected(changed, kind, reached)| <= |reached|
  {
    if reached != [] {
      AffectedSize(changed, kind, reached[..|reached| - 1]);
    }
  }

  /** The consumers whose path is not protected, in order. */
  ghost function Visible(cs: seq<Consumer>, sensitive: string -> bool): seq<Consumer> {
    if cs == [] then []
    else
      var c := cs[|cs| - 1];
      Visible(cs[..|cs| - 1], sensitive) + if sensitive(c.node.path) then [] else [c]
  }

  lemma {:induction false} VisibleMembers(cs: seq<Consumer>, sensitive: string -> bool)
    ensures forall c :: c in Visible(cs, sensitive) <==> c in cs && !sensitive(c.node.path)
    ensures |Visible(cs, sensitive)| <= |cs|
    ensures |Visible(cs, sensitive)| < |cs| <==> exists c | c in cs :: sensitive(c.node.path)
  {
    if cs != [] {
      var front, x := cs[..|cs| - 1], cs[|cs| - 1];
      VisibleMembers(front, sensitive);
      assert forall c :: c in cs <==> c in front || c == x by {
        assert cs == front + [x];
      }
    }
  }

  lemma {:induction false} VisibleKeepsOrder(cs: seq<Consumer>, sensitive: string -> bool)
    requires SortedBy(cs, ConsumerLess)
    ensures SortedBy(Visible(cs, sensitive), ConsumerLess)
  {
    if cs != [] {
      var front, x := cs[..|cs| - 1], cs[|cs| - 1];
      VisibleKeepsOrder(front, sensitive);
      VisibleMembers(front, sensitive);
      forall i | 0 <= i < |Visible(front, sensitive)| ensures !ConsumerLess(x, Visible(front, sensitive)[i]) {
        assert Visible(front, sensitive)[i] in front;
      }
    }
  }

  ghost function VisibleNodes(ns: seq<Node>, sensitive: string -> bool): seq<Node> {
    if ns == [] then []
    else
      var n := ns[|ns| - 1];
      VisibleNodes(ns[..|ns| - 1], sensitive) + if sensitive(n.path) then [] else [n]
  }

  lemma {:induction false} VisibleNodesMembers(ns: seq<Node>, sensitive: string -> bool)
    ensures forall n :: n in VisibleNodes(ns, sensitive) <==> n in ns && !sensitive(n.path)
  {
    if ns != [] {
      var front, x := ns[..|ns| - 1], ns[|ns| - 1];
      VisibleNodesMembers(front, sensitive);
      assert forall n :: n in ns <==> n in front || n == x by {
        assert ns == front + [x];
      }
    }
  }

  method PublicNodes(ns: seq<Node>, sensitive: string -> bool) returns (out: seq<Node>)
    ensures out == VisibleNodes(ns, sensitive)
  {
    out := [];
    for i := 0 to |ns|
      invariant out == VisibleNodes(ns[..i], sensitive)
    {
      assert ns[..i + 1][..i] == ns[..i];
      if !sensitive(ns[i].path) {
        out := out + [ns[i]];
      }
    }
    assert ns[..|ns|] == ns;
  }

  /** Drops protected consumers, counting the others again. */
  method KeepVisible(cs: seq<Consumer>, sensitive: string -> bool)
    returns (kept: seq<Consumer>, counts: map<Verdict, nat>, hidden: bool)
    ensures kept == Visible(cs, sensitive) && (hidden <==> |kept| < |cs|)
    ensures forall v :: At(counts, v) == CountOf(kept, v)
  {
    kept, counts, hidden := [], map[], false;
    for i := 0 to |cs|
      invariant kept == Visible(cs[..i], sensitive) && |kept| <= i && (hidden <==> |kept| < i)
      invariant forall v :: At(counts, v) == CountOf(kept, v)
    {
      var c := cs[i];
      assert cs[..i + 1][..i] == cs[..i];
      if sensitive(c.node.path) {
        hidden := true;
        continue;
      }
      assert (kept + [c])[..|kept|] == kept;
      kept := kept + [c];
      counts := counts[c.verdict := At(counts, c.verdict) + 1];
    }
    assert cs[..|cs|] == cs;
  }

  /** The public report hides protected paths, recounts, and admits that it is a lower bound. */
  method PublicImpact(rep: Report, sensitive: string -> bool) returns (out: Report)
    ensures out.kind == rep.kind
    ensures out.consumers == Visible(rep.consumers, sensitive)
    ensures forall c :: c in out.consumers <==> c in rep.consumers && !sensitive(c.node.path)
    ensures out.changed == VisibleNodes(rep.changed, sensitive)
    ensures forall n :: n in out.changed <==> n in rep.changed && !sensitive(n.path)
    ensures SortedBy(rep.consumers, ConsumerLess) ==> SortedBy(out.consumers, ConsumerLess)
    ensures Tallied(out)
    ensures out.truncated <==> rep.truncated || exists c | c in rep.consumers :: sensitive(c.node.path)
  {
    var changed := PublicNodes(rep.changed, sensitive);
    var consumers, counts, hidden := KeepVisible(rep.consumers, sensitive);
    VisibleMembers(rep.consumers, sensitive);
    VisibleNodesMembers(rep.changed, sensitive);
    if SortedBy(rep.consumers, ConsumerLess) {
      VisibleKeepsOrder(rep.consumers, sensitive);
    }
    out := Report(changed, rep.kind, consumers, counts, rep.truncated || hidden);
  }
}
