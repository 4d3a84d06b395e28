/** Human gates: decisions that wait for a person, journalled before they block. */
module Broker {
  import opened Collections
  import opened Ordering
  import opened Text
  import opened Wrappers
  import J = Journal

  const MAX_DIFF_IN_GATE := 40000
  const DIFF_POINTER := "\n… diff truncated; inspect the task worktree for the whole change\n"

  datatype Kind = Plan | Impact | OutOfScope | Budget | Apply

  datatype Decision = Pending | Approved | Rejected | Expired

  datatype Evidence = Evidence(breakingCount: int, outOfScope: seq<string>, diff: string, rest: string)

  datatype Policy = Policy(requireForBreaking: bool, requireForOutOfScope: bool, requireForApply: bool,
                           requireForPlan: bool, maxBreakingAuto: int, timeout: int)

  datatype Reason = GatesPlans | Breaks(consumers: int) | OverLimit(consumers: int, limit: int)
                  | LeavesScope(files: nat) | GatesApply | ExtendsBudget

  datatype Gate = Gate(id: string, task: string, kind: Kind, question: string, evidence: string, candidate: string,
                       decision: Decision, decidedBy: string, note: string,
                       createdAt: int, decidedAt: Option<int>, expiresAt: Option<int>)
  {
    predicate Open() { decision == Pending }
    predicate Answered() { decision == Approved || decision == Rejected }
    predicate Past(now: int) { expiresAt.Some? && now > expiresAt.value }

    /** What the gate is about. */
    predicate IsAbout(t: string, k: Kind, c: string) { task == t && kind == k && candidate == c }
  }

  type Gates = map<string, Gate>

  /** The policy, the wording of a reason, and the JSON form of the evidence, which may not exist. */
  datatype Config = Config(policy: Policy, wording: Reason -> string, encode: Evidence -> Option<string>)

  function Needs(p: Policy, kind: Kind, ev: Evidence): Option<Reason> {
    match kind
    case Plan => if p.requireForPlan then Some(GatesPlans) else None
    case Impact =>
      if p.requireForBreaking && ev.breakingCount > 0 then Some(Breaks(ev.breakingCount))
      else if !p.requireForBreaking && ev.breakingCount > p.maxBreakingAuto
      then Some(OverLimit(ev.breakingCount, p.maxBreakingAuto))
      else None
    case OutOfScope =>
      if p.requireForOutOfScope && |ev.outOfScope| > 0 then Some(LeavesScope(|ev.outOfScope|)) else None
    case Apply => if p.requireForApply then Some(GatesApply) else None
    case Budget => Some(ExtendsBudget)
  }

  /** A policy asks a person about plans, applying and files out of scope exactly when its switch for them is on, about
      any breaking consumer with its switch on and beyond the automatic limit with it off, and always about a budget. */
  lemma GatedExactly(p: Policy, kind: Kind, ev: Evidence)
    ensures Needs(p, kind, ev).Some? <==>
            || (kind == Plan && p.requireForPlan)
            || (kind == Apply && p.requireForApply)
            || (kind == OutOfScope && p.requireForOutOfScope && ev.outOfScope != [])
            || (kind == Impact && p.requireForBreaking && ev.breakingCount > 0)
            || (kind == Impact && !p.requireForBreaking && ev.breakingCount > p.maxBreakingAuto)
            || kind == Budget
  {
  }

  const DEFAULT_POLICY := Policy(true, true, true, false, 0, 0)
  const PERMISSIVE := Policy(false, false, false, false, 0, 0)

  /** The policy meant to approve everything still asks about every breaking change and every budget. By default only
      plans, and what shows no breakage and no file out of scope, go through unasked. */
  lemma NamedPolicies(kind: Kind, ev: Evidence)
    ensures Needs(PERMISSIVE, kind, ev).Some? <==> kind == Budget || (kind == Impact && ev.breakingCount > 0)
    ensures Needs(DEFAULT_POLICY, kind, ev).Some? <==>
            kind != Plan && (kind == Impact ==> ev.breakingCount > 0) && (kind == OutOfScope ==> ev.outOfScope != [])
  {
    GatedExactly(PERMISSIVE, kind, ev);
    GatedExactly(DEFAULT_POLICY, kind, ev);
  }

  predicate Stricter(p: Policy, q: Policy) {
    && (q.requireForOutOfScope ==> p.requireForOutOfScope) && (q.requireForApply ==> p.requireForApply)
    && (q.requireForPlan ==> p.requireForPlan) && (q.requireForBreaking ==> p.requireForBreaking)
    && p.maxBreakingAuto == q.maxBreakingAuto
  }

  /** Switching gates on never lets through what was gated before, exactly when the automatic limit is not negative. */
  lemma StricterGatesMore(p: Policy, q: Policy)
    requires Stricter(p, q) && p.requireForBreaking && !q.requireForBreaking
    ensures (forall kind, ev: Evidence | ev.breakingCount >= 0 && Needs(q, kind, ev).Some? :: Needs(p, kind, ev).Some?)
       <==> q.maxBreakingAuto >= 0
  {
    if q.maxBreakingAuto < 0 {
      var none := Evidence(0, [], "", "");
      assert Needs(q, Impact, none).Some? && Needs(p, Impact, none).None?;
    }
  }

  // Names of gates.

  function KindName(k: Kind): (name: string)
    ensures '-' !in name
  {
    match k
    case Plan => "plan"
    case Impact => "impact"
    case OutOfScope => "out_of_scope"
    case Budget => "budget"
    case Apply => "apply"
  }

  lemma KindNamesDiffer(a: Kind, b: Kind)
    requires KindName(a) == KindName(b)
    ensures a == b
  {
    assert KindName(a)[0] == KindName(b)[0];
    assert |KindName(a)| == |KindName(b)|;
  }

  function Short(candidate: string): string { if |candidate| > 12 then candidate[..12] else candidate }

  function GateId(task: string, kind: Kind, tail: string): string {
    "gate-" + task + "-" + KindName(kind) + "-" + tail
  }

  lemma DashAt(a: string, b: string)
    requires '-' !in b
    ensures (a + "-" + b)[|a|] == '-' && forall i | |a| < i < |a + "-" + b| :: (a + "-" + b)[i] != '-'
  {
    forall i | |a| < i < |a + "-" + b| ensures (a + "-" + b)[i] != '-' {
      assert (a + "-" + b)[i] == b[i - |a| - 1];
    }
  }

  /** What comes before and after the last dash is determined by the whole. */
  lemma LastDash(a: string, b: string, c: string, d: string)
    requires '-' !in b && '-' !in d && a + "-" + b == c + "-" + d
    ensures a == c && b == d
  {
    var s := a + "-" + b;
    DashAt(a, b);
    DashAt(c, d);
    assert |a| == |c|;
    assert a == s[..|a|] && c == s[..|c|];
    assert b == s[|a| + 1..] && d == s[|c| + 1..];
  }

  /** When neither candidate has a dash in its first twelve characters, two gates share an id exactly when they
      are about the same task and kind and the same twelve characters. */
  lemma SameIdExactly(t: string, k: Kind, c: string, t': string, k': Kind, c': string)
    requires '-' !in Short(c) && '-' !in Short(c')
    ensures GateId(t, k, Short(c)) == GateId(t', k', Short(c')) <==> t == t' && k == k' && Short(c) == Short(c')
  {
    if GateId(t, k, Short(c)) == GateId(t', k', Short(c')) {
      var a, a' := "gate-" + t + "-" + KindName(k), "gate-" + t' + "-" + KindName(k');
      LastDash(a, Short(c), a', Short(c'));
      LastDash("gate-" + t, KindName(k), "gate-" + t', KindName(k'));
      KindNamesDiffer(k, k');
      assert t == ("gate-" + t)[5..] && t' == ("gate-" + t')[5..];
    }
  }

  // The tables.

  function Whole(t: int): int { t / MILLISECOND * MILLISECOND }

  function WholeIfAny(t: Option<int>): Option<int> { if t.Some? then Some(Whole(t.value)) else None }

  /** A gate as its row gives it back. */
  function Stored(g: Gate): Gate {
    g.(evidence := if g.evidence == "" then "{}" else g.evidence, createdAt := Whole(g.createdAt),
       decidedAt := WholeIfAny(g.decidedAt), expiresAt := WholeIfAny(g.expiresAt))
  }

  /** INSERT ... ON CONFLICT (id): only the decision, who took it, why and when may change. */
  function Upsert(gates: Gates, g: Gate): Gates {
    var row := Stored(g);
    if g.id in gates
    then gates[g.id := gates[g.id].(decision := row.decision, decidedBy := row.decidedBy, note := row.note,
                                    decidedAt := row.decidedAt)]
    else gates[g.id := row]
  }

  datatype State = State(gates: Gates, ops: seq<J.Operation>)

  /** Rows sit under their ids, and a gate with a candidate is named after what it is about. */
  ghost predicate WellKeyed(gates: Gates) {
    forall id | id in gates ::
      gates[id].id == id
      && (gates[id].candidate != "" ==> id == GateId(gates[id].task, gates[id].kind, Short(gates[id].candidate)))
  }

  /** The one answer that may be reused: decided, not past its deadline, for exactly this content. */
  function DecidedFor(gates: Gates, task: string, kind: Kind, candidate: string, now: int): Option<Gate> {
    var id := GateId(task, kind, Short(candidate));
    if candidate != "" && id in gates && gates[id].IsAbout(task, kind, candidate) && gates[id].Answered()
       && !gates[id].Past(now)
    then Some(gates[id])
    else None
  }

  /** One call of Ask. Its two clock readings, and the time and random bytes an id without a candidate ends in. */
  datatype Asking = Asking(task: string, kind: Kind, question: string, evidence: Evidence, candidate: string,
                           checkedAt: int, createdAt: int, nonce: string)
  {
    function Id(): string { GateId(task, kind, if candidate != "" then Short(candidate) else nonce) }
    predicate Concerns(g: Gate) { g.IsAbout(task, kind, candidate) }
  }

  /** Where a call ends early: at a read or write that fails, or at a crash just before that write. */
  datatype AskStop = Uncut | ReadFails | BeginFails | CrashAfterBegin | SaveFails(cause: string, recorded: bool)

  datatype Reply = Answer(gate: Gate) | Failed

  function AutoGate(a: Asking): Gate {
    Gate("", a.task, a.kind, "", "", "", Approved, "", "no gate required by policy", 0, None, None)
  }

  function CutDiff(ev: Evidence): Evidence {
    if |ev.diff| > MAX_DIFF_IN_GATE then ev.(diff := ev.diff[..MAX_DIFF_IN_GATE] + DIFF_POINTER) else ev
  }

  /** A gate shows the diff whole, or its first forty thousand characters and where to find the rest. */
  lemma DiffIsBounded(ev: Evidence)
    ensures |ev.diff| <= 40000 ==> CutDiff(ev) == ev
    ensures |ev.diff| > 40000 ==>
            && CutDiff(ev).diff[..40000] == ev.diff[..40000] && |CutDiff(ev).diff| <= 40000 + |DIFF_POINTER|
            && CutDiff(ev) == ev.(diff := CutDiff(ev).diff)
  {
  }

  function Opened(cfg: Config, a: Asking, why: Reason, body: string): Gate {
    Gate(a.Id(), a.task, a.kind, TrimSpace(a.question + " (" + cfg.wording(why) + ")"), body, a.candidate,
         Pending, "", "", a.createdAt, None,
         if cfg.policy.timeout > 0 then Some(a.createdAt + cfg.policy.timeout) else None)
  }

  function Journalled(ops: seq<J.Operation>, a: Asking): seq<J.Operation> {
    ops + [J.NewRow(ops, a.task, J.Approval, J.GateIntent(a.Id()), "")]
  }

  function AskStep(cfg: Config, s: State, a: Asking, stop: AskStop): (State, Reply) {
    var why := Needs(cfg.policy, a.kind, a.evidence);
    if why.None? then (s, Answer(AutoGate(a)))
    else if stop.ReadFails? && a.candidate != "" then (s, Failed)
    else
      var decided := DecidedFor(s.gates, a.task, a.kind, a.candidate, a.checkedAt);
      var body := cfg.encode(CutDiff(a.evidence));
      if decided.Some? then (s, Answer(decided.value))
      else if body.None? || stop.BeginFails? then (s, Failed)
      else
        var ops, g := Journalled(s.ops, a), Opened(cfg, a, why.value, body.value);
        match stop
        case CrashAfterBegin => (State(s.gates, ops), Failed)
        case SaveFails(cause, recorded) =>
          (State(s.gates, if recorded then J.WithOutcome(ops, |ops|, "failed: " + cause, "", "") else ops), Failed)
        case _ => (State(Upsert(s.gates, g), ops), Answer(g))
  }

  /** One call of Decide; outcome is the JSON text of the three it records. */
  datatype Ruling = Ruling(id: string, decision: Decision, who: string, note: string, outcome: string, now: int)

  datatype DecideStop = Through | NotRead | NotSaved | NotClosed

  datatype Verdict = Decided(gate: Gate) | NoGate | AlreadyDecided(gate: Gate) | Broken

  /** An open approval that names the gate. */
  predicate Names(op: J.Operation, id: string) {
    op.kind == J.Approval && op.Uncertain() && op.intent == J.GateIntent(id)
  }

  function FirstNaming(ops: seq<J.Operation>, id: string): Option<J.Operation> {
    if ops == [] then None else if Names(ops[0], id) then Some(ops[0]) else FirstNaming(ops[1..], id)
  }

  /** UPDATE operations SET outcome = ?, finished_at = ? WHERE id = ?. */
  function WithAnswer(ops: seq<J.Operation>, opId: nat, outcome: string): seq<J.Operation> {
    if 1 <= opId <= |ops| then ops[opId - 1 := ops[opId - 1].(outcome := Some(outcome))] else ops
  }

  /** Closes, among one task's rows, the first open approval that names the gate. */
  function CloseFirst(ops: seq<J.Operation>, task: string, id: string, outcome: string): seq<J.Operation> {
    var op := FirstNaming(J.TaskOps(ops, task), id);
    if op.Some? then WithAnswer(ops, op.value.id, outcome) else ops
  }

  function Settled(g: Gate, r: Ruling): Gate {
    g.(decision := r.decision, decidedBy := r.who, note := r.note, decidedAt := Some(r.now))
  }

  function DecideStep(s: State, r: Ruling, stop: DecideStop): (State, Verdict) {
    if stop.NotRead? then (s, Broken)
    else if r.id !in s.gates then (s, NoGate)
    else if !s.gates[r.id].Open() then (s, AlreadyDecided(s.gates[r.id]))
    else
      var g := Settled(s.gates[r.id], r);
      match stop
      case NotSaved => (s, Broken)
      case NotClosed => (State(Upsert(s.gates, g), s.ops), Broken)
      case _ => (State(Upsert(s.gates, g), CloseFirst(s.ops, g.task, r.id, r.outcome)), Decided(g))
  }

  /** Which rows a query selects. */
  datatype Where = Every | Waiting | ById(id: string) | About(task: string, kind: Kind, candidate: string)

  predicate Selects(w: Where, g: Gate) {
    match w
    case Every => true
    case Waiting => g.decision == Pending
    case ById(id) => g.id == id
    case About(task, kind, candidate) => g.IsAbout(task, kind, candidate)
  }

  predicate Earlier(a: Gate, b: Gate) { a.createdAt < b.createdAt }

  /** The selected rows, each once, oldest first. */
  ghost predicate Listing(gates: Gates, w: Where, out: seq<Gate>) {
    && Distinct(out) && SortedBy(out, Earlier)
    && forall g :: g in out <==> g.id in gates && gates[g.id] == g && Selects(w, g)
  }

  /** What deciding one gate meets: its own clock reading, the outcome text and a fault. */
  datatype Met = Met(now: int, outcome: string, fault: DecideStop)

  /** The gates a listing decides as expired, one call of Decide each. */
  function ExpireAll(s: State, list: seq<Gate>, now: int, each: string -> Met): State {
    if list == [] then s
    else
      var before, g := ExpireAll(s, list[..|list| - 1], now, each), list[|list| - 1];
      if g.Past(now) then DecideStep(before, Expiry(g.id, each(g.id)), each(g.id).fault).0 else before
  }

  function Expiry(id: string, met: Met): Ruling {
    Ruling(id, Expired, "system", "nobody answered within the policy timeout", met.outcome, met.now)
  }

  class Broker {
    const cfg: Config
    const ledger: J.Ledger
    var gates: Gates

    ghost predicate Valid()
      reads this, ledger
    {
      ledger.Valid() && WellKeyed(gates)
    }

    ghost function Tables(): State
      reads this, ledger
    {
      State(gates, ledger.ops)
    }

    constructor (cfg: Config, ledger: J.Ledger)
      requires ledger.Valid()
      ensures Valid() && this.cfg == cfg && this.ledger == ledger && gates == map[]
    {
      this.cfg, this.ledger, gates := cfg, ledger, map[];
    }

    method Save(g: Gate)
      modifies this`gates
      ensures gates == Upsert(old(gates), g)
    {
      var row := Stored(g);
      if g.id in gates {
        row := gates[g.id].(decision := row.decision, decidedBy := row.decidedBy, note := row.note,
                            decidedAt := row.decidedAt);
      }
      gates := gates[g.id := row];
    }

    method List(w: Where) returns (out: seq<Gate>)
      requires WellKeyed(gates)
      ensures Listing(gates, w, out)
      ensures forall i, j | 0 <= i < j < |out| :: out[i].createdAt <= out[j].createdAt
    {
      var ids := SortedList(gates.Keys);
      var rows: seq<Gate> := [];
      for i := 0 to |ids|
        invariant Distinct(rows)
        invariant forall g :: g in rows <==> g.id in ids[..i] && g.id in gates && gates[g.id] == g && Selects(w, g)
      {
        var g := gates[ids[i]];
        assert ids[..i + 1] == ids[..i] + [ids[i]];
        assert ids[i] !in ids[..i];
        if Selects(w, g) {
          AppendDistinct(rows, g);
          rows := rows + [g];
        }
      }
      assert ids[..|ids|] == ids;
      StableSortCorrect(rows, Earlier);
      out := StableSort(rows, Earlier);
      PermutationKeeps(rows, out);
    }

    method Get(id: string) returns (g: Option<Gate>)
      requires WellKeyed(gates)
      ensures g == if id in gates then Some(gates[id]) else None
    {
      var found := List(ById(id));
      if id in gates {
        assert gates[id] in found;
      }
      if |found| == 0 {
        return None;
      }
      assert found[0] in found;
      return Some(found[0]);
    }

    /** The scan, newest row first, meets the one row the id names, if any. */
    method FindDecided(task: string, kind: Kind, candidate: string, now: int) returns (g: Option<Gate>)
      requires WellKeyed(gates)
      ensures g == DecidedFor(gates, task, kind, candidate, now)
    {
      if candidate == "" {
        return None;
      }
      var rows := List(About(task, kind, candidate));
      ghost var id := GateId(task, kind, Short(candidate));
      assert forall i | 0 <= i < |rows| :: rows[i] in rows && rows[i].id == id && rows[i] == gates[id];
      if id in gates && gates[id].IsAbout(task, kind, candidate) {
        assert gates[id] in rows;
      }
      for i := |rows| downto 0
        invariant forall j | i <= j < |rows| :: !rows[j].Answered() || rows[j].Past(now)
      {
        if rows[i].Answered() && !rows[i].Past(now) {
          return Some(rows[i]);
        }
      }
      return None;
    }

    method Ask(a: Asking, stop: AskStop) returns (reply: Reply)
      requires Valid()
      modifies this`gates, ledger`ops
      ensures Valid()
      ensures (Tables(), reply) == AskStep(cfg, old(Tables()), a, stop)
    {
      var why := Needs(cfg.policy, a.kind, a.evidence);
      if why.None? {
        return Answer(AutoGate(a));
      }
      if stop.ReadFails? && a.candidate != "" {
        return Failed;
      }
      var decided := FindDecided(a.task, a.kind, a.candidate, a.checkedAt);
      if decided.Some? {
        return Answer(decided.value);
      }
      var body := cfg.encode(CutDiff(a.evidence));
      if body.None? {
        return Failed;
      }
      var g := Opened(cfg, a, why.value, body.value);
      var h := ledger.Begin(a.task, J.Approval, J.GateIntent(g.id), "", stop.BeginFails?);
      if h == null || stop.CrashAfterBegin? {
        return Failed;
      }
      if stop.SaveFails? {
        var ok := h.Fail(stop.cause, !stop.recorded);
        return Failed;
      }
      UpsertKeyed(gates, g);
      Save(g);
      return Answer(g);
    }

    method Complete(opId: nat, outcome: string)
      requires ledger.Valid()
      modifies ledger`ops
      ensures ledger.Valid() && ledger.ops == WithAnswer(old(ledger.ops), opId, outcome)
    {
      if 1 <= opId <= |ledger.ops| {
        ghost var before := ledger.ops;
        ledger.ops := ledger.ops[opId - 1 := ledger.ops[opId - 1].(outcome := Some(outcome))];
        J.UpdateKeeps(before, ledger.ops);
      }
    }

    /** Closes the first of those approvals, and stops there. */
    method CloseApproval(task: string, id: string, outcome: string)
      requires ledger.Valid()
      modifies ledger`ops
      ensures ledger.Valid() && ledger.ops == CloseFirst(old(ledger.ops), task, id, outcome)
    {
      var ops := ledger.Operations(task);
      for i := 0 to |ops|
        invariant ledger.Valid() && ledger.ops == old(ledger.ops)
        invariant FirstNaming(ops, id) == FirstNaming(ops[i..], id)
      {
        assert ops[i..][1..] == ops[i + 1..];
        if Names(ops[i], id) {
          Complete(ops[i].id, outcome);
          return;
        }
      }
    }

    method Decide(r: Ruling, stop: DecideStop) returns (verdict: Verdict)
      requires Valid()
      modifies this`gates, ledger`ops
      ensures Valid()
      ensures (Tables(), verdict) == DecideStep(old(Tables()), r, stop)
    {
      if stop.NotRead? {
        return Broken;
      }
      var found := Get(r.id);
      if found.None? {
        return NoGate;
      }
      var g := found.value;
      if !g.Open() {
        return AlreadyDecided(g);
      }
      g := Settled(g, r);
      if stop.NotSaved? {
        return Broken;
      }
      UpsertKeyed(gates, g);
      Save(g);
      if stop.NotClosed? {
        return Broken;
      }
      CloseApproval(g.task, r.id, r.outcome);
      return Decided(g);
    }

    /** One gate of the listing: past its deadline it is decided as expired, and shown so if that went through. */
    method Show(g: Gate, now: int, met: Met) returns (shown: Gate)
      requires Valid() && g.id in gates && gates[g.id] == g && g.Open()
      modifies this`gates, ledger`ops
      ensures Valid()
      ensures Tables() == if g.Past(now) then DecideStep(old(Tables()), Expiry(g.id, met), met.fault).0 else old(Tables())
      ensures shown == ShownAs(g, now, met)
      ensures forall id | id in old(gates) && id != g.id :: id in gates && gates[id] == old(gates)[id]
    {
      shown := g;
      if g.Past(now) {
        var verdict := Decide(Expiry(g.id, met), met.fault);
        if verdict.Decided? {
          shown := verdict.gate;
        }
      }
    }

    /** Lists what is waiting; a gate past its deadline expires when someone looks. */
    method Pending(now: int, each: string -> Met) returns (out: seq<Gate>, ghost seen: seq<Gate>)
      requires Valid()
      modifies this`gates, ledger`ops
      ensures Valid() && Listing(old(gates), Waiting, seen)
      ensures Tables() == ExpireAll(old(Tables()), seen, now, each)
      ensures SortedBy(out, Earlier) && multiset(out) == multiset(Shown(seen, now, each))
      ensures forall i, j | 0 <= i < j < |out| :: out[i].createdAt <= out[j].createdAt
    {
      var list := List(Waiting);
      seen := list;
      DistinctIds(gates, list);
      out := [];
      for i := 0 to |list|
        invariant Valid() && list == seen
        invariant Tables() == ExpireAll(old(Tables()), list[..i], now, each)
        invariant out == Shown(list[..i], now, each)
        invariant forall j | i <= j < |list| :: list[j].id in gates && gates[list[j].id] == list[j]
      {
        assert list[..i + 1][..i] == list[..i];
        var shown := Show(list[i], now, each(list[i].id));
        out := out + [shown];
      }
      assert list[..|list|] == list;
      StableSortCorrect(out, Earlier);
      out := StableSort(out, Earlier);
    }
  }

  /** The rows of a listing have different ids. */
  lemma DistinctIds(gates: Gates, list: seq<Gate>)
    requires Listing(gates, Waiting, list)
    ensures forall i, j | 0 <= i < j < |list| :: list[i].id != list[j].id
    ensures forall i | 0 <= i < |list| :: list[i].id in gates && gates[list[i].id] == list[i] && list[i].Open()
  {
    assert forall i | 0 <= i < |list| :: list[i] in list;
  }

  function ShownAs(g: Gate, now: int, met: Met): Gate {
    if g.Past(now) && met.fault.Through? then Settled(g, Expiry(g.id, met)) else g
  }

  /** What the listing shows for each row: as expired when the decision went through, else as it was. */
  function Shown(list: seq<Gate>, now: int, each: string -> Met): seq<Gate>
  {
    if list == [] then []
    else
      var g := list[|list| - 1];
      Shown(list[..|list| - 1], now, each) + [ShownAs(g, now, each(g.id))]
  }

  lemma UpsertKeyed(gates: Gates, g: Gate)
    requires WellKeyed(gates)
    requires g.candidate != "" ==> g.id == GateId(g.task, g.kind, Short(g.candidate))
    ensures WellKeyed(Upsert(gates, g))
  {
  }
}
