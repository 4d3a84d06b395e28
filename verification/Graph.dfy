/** The typed code graph: rows of the node and edge tables, and what a walk over them is. */
module Graph {
  /** The provenance category of an edge. Other stands for any text outside the five categories. */
  datatype Evidence = Resolved | Declared | Inferred | Observed | Unknown | Other(text: string) {
    predicate Valid() { !Other? }
    predicate Certain() { Resolved? || Declared? }
    /** Strength as the traversal query ranks it; lower is stronger. */
    function Rank(): nat {
      match this
      case Resolved => 0
      case Declared => 1
      case Inferred => 2
      case Observed => 3
      case _ => 4
    }
  }

  function RankToEvidence(rank: nat): Evidence {
    if rank == 0 then Resolved
    else if rank == 1 then Declared
    else if rank == 2 then Inferred
    else if rank == 3 then Observed
    else Unknown
  }

  /** The kinds the edge table admits; Unset is Go's zero value, the kind of the hop nobody took, and Unlisted any
      other text. */
  datatype EdgeKind =
    | Unset | Unlisted(text: string) | Contains | Imports | DependsOn | Calls | Implements | UsesType | References
    | RoutesTo | Handles | ReadsConfig | WritesSchema | ReadsSchema | Tests | Builds
    | Deploys | Provisions | Touches | Extends | Embeds | Returns | Accepts
  {
    predicate Listed() { !Unset? && !Unlisted? }
  }

  datatype Node = Node(id: int, workspace: string, kind: string, fqn: string, path: string)
  datatype Edge = Edge(id: int, src: int, dst: int, kind: EdgeKind, evidence: Evidence)

  datatype Direction = Forward | Reverse
  datatype Query = Query(start: seq<int>, dir: Direction, kinds: seq<EdgeKind>, maxDepth: int,
                         maxNodes: int, minEvidence: seq<Evidence>)

  /** The end of an edge that a traversal in this direction stands on. */
  function From(q: Query, e: Edge): int { if q.dir == Reverse then e.dst else e.src }

  /** The end it steps to. */
  function To(q: Query, e: Edge): int { if q.dir == Reverse then e.src else e.dst }

  /** The WHERE filters of the hop query: an empty list filters nothing. */
  predicate Passes(q: Query, e: Edge) {
    && (q.kinds == [] || e.kind in q.kinds)
    && (q.minEvidence == [] || e.evidence in q.minEvidence)
  }

  /** p is a list of edges of the table, each passing the filters, leading from a start node to n. */
  ghost predicate IsWalk(edges: set<Edge>, q: Query, p: seq<Edge>, n: int) {
    if p == [] then n in q.start
    else
      var e := p[|p| - 1];
      && e in edges && Passes(q, e) && To(q, e) == n
      && IsWalk(edges, q, p[..|p| - 1], From(q, e))
  }

  /** A walk, edge by edge. Forward, it leaves a start node along sources and enters n by a destination; in reverse it
      enters a start node by a destination and ends in n as a source. Consecutive edges meet, every one is in the
      table, and its kind and evidence are among those asked for. */
  lemma {:induction false} WalkIsAChain(edges: set<Edge>, q: Query, p: seq<Edge>, n: int)
    ensures IsWalk(edges, q, p, n) <==>
            && (p == [] ==> n in q.start)
            && (p != [] && q.dir.Forward? ==>
                  && p[0].src in q.start && p[|p| - 1].dst == n
                  && forall i | 0 < i < |p| :: p[i - 1].dst == p[i].src)
            && (p != [] && q.dir.Reverse? ==>
                  && p[0].dst in q.start && p[|p| - 1].src == n
                  && forall i | 0 < i < |p| :: p[i - 1].src == p[i].dst)
            && forall i | 0 <= i < |p| ::
                 && p[i] in edges && (q.kinds == [] || p[i].kind in q.kinds)
                 && (q.minEvidence == [] || p[i].evidence in q.minEvidence)
  {
    if p != [] {
      var front, e := p[..|p| - 1], p[|p| - 1];
      WalkIsAChain(edges, q, front, From(q, e));
      assert forall i | 0 <= i < |front| :: front[i] == p[i];
      if IsWalk(edges, q, p, n) {
        forall i | 0 <= i < |p|
          ensures && p[i] in edges && (q.kinds == [] || p[i].kind in q.kinds)
                  && (q.minEvidence == [] || p[i].evidence in q.minEvidence)
        {
          assert i < |front| ==> p[i] == front[i];
        }
      } else if |p| > 1 {
        assert p[|p| - 2] == front[|front| - 1];
      }
    }
  }

  function Max(a: nat, b: nat): nat { if a < b then b else a }

  /** A walk is only as strong as its weakest hop. */
  ghost function Weakest(p: seq<Edge>): nat {
    if p == [] then 0 else Max(Weakest(p[..|p| - 1]), p[|p| - 1].evidence.Rank())
  }

  /** The evidence a walk is reported with: that of its weakest hop. */
  lemma {:induction false} EvidenceOfAWalk(p: seq<Edge>)
    ensures var ev := RankToEvidence(Weakest(p));
            && (ev.Resolved? <==> forall i | 0 <= i < |p| :: p[i].evidence.Resolved?)
            && (ev.Resolved? || ev.Declared? <==>
                  forall i | 0 <= i < |p| :: p[i].evidence.Resolved? || p[i].evidence.Declared?)
            && (ev.Observed? || ev.Unknown? <==>
                  exists i | 0 <= i < |p| :: p[i].evidence.Observed? || p[i].evidence.Unknown? || p[i].evidence.Other?)
            && (ev.Unknown? <==> exists i | 0 <= i < |p| :: p[i].evidence.Unknown? || p[i].evidence.Other?)
            && !ev.Other?
  {
    if p != [] {
      var front := p[..|p| - 1];
      EvidenceOfAWalk(front);
      WeakestIsARank(p);
      WeakestIsARank(front);
      assert forall i | 0 <= i < |front| :: front[i] == p[i];
    }
  }

  lemma ExtendWalk(edges: set<Edge>, q: Query, p: seq<Edge>, e: Edge)
    requires IsWalk(edges, q, p, From(q, e)) && e in edges && Passes(q, e)
    ensures IsWalk(edges, q, p + [e], To(q, e))
    ensures Weakest(p + [e]) == Max(Weakest(p), e.evidence.Rank())
  {
    assert (p + [e])[..|p|] == p;
  }

  lemma {:induction false} WeakestIsARank(p: seq<Edge>)
    ensures Weakest(p) <= 4
  {
    if p != [] {
      WeakestIsARank(p[..|p| - 1]);
    }
  }
}
