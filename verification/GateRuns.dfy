/** Runs of Ask, Decide and the rest of the journal, cut anywhere: what an approval means and how long it stands. */
module GateRuns {
  import opened Broker
  import opened Text
  import opened Wrappers
  import J = Journal

  /** Every ask brings its own policy: it may change between processes. Journal calls of other kinds come between. */
  datatype Event =
    | Asks(cfg: Config, a: Asking, stop: AskStop)
    | Decides(r: Ruling, cut: DecideStop)
    | Begins(task: string, kind: J.Kind, intent: J.Intent, before: string)
    | Finishes(id: nat, outcome: string, after: string, evidence: string)
    | Interrupts(id: nat, cause: string)

  /** Whether the row is one the rest of the system holds a handle on: not an approval. */
  predicate Foreign(s: State, id: nat) { 1 <= id <= |s.ops| && s.ops[id - 1].kind != J.Approval }

  function Step(s: State, e: Event): State {
    match e
    case Asks(cfg, a, stop) => AskStep(cfg, s, a, stop).0
    case Decides(r, cut) => DecideStep(s, r, cut).0
    case Begins(task, kind, intent, before) =>
      if kind == J.Approval then s else s.(ops := s.ops + [J.NewRow(s.ops, task, kind, intent, before)])
    case Finishes(id, outcome, after, evidence) =>
      if Foreign(s, id) then s.(ops := J.WithOutcome(s.ops, id, outcome, after, evidence)) else s
    case Interrupts(id, cause) => if Foreign(s, id) then s.(ops := J.WithError(s.ops, id, cause)) else s
  }

  function Run(es: seq<Event>): State {
    if es == [] then State(map[], []) else Step(Run(es[..|es| - 1]), es[|es| - 1])
  }

  ghost predicate Sound(s: State) { WellKeyed(s.gates) && J.Numbered(s.ops) }

  lemma FailKeepsNumbers(ops: seq<J.Operation>, cause: string)
    requires J.Numbered(ops)
    ensures J.Numbered(J.WithOutcome(ops, |ops|, "failed: " + cause, "", ""))
  {
    J.UpdateNumbers(ops, J.WithOutcome(ops, |ops|, "failed: " + cause, "", ""));
  }

  lemma AskNumbers(cfg: Config, s: State, a: Asking, stop: AskStop)
    requires J.Numbered(s.ops)
    ensures J.Numbered(AskStep(cfg, s, a, stop).0.ops)
  {
    J.BeginNumbers(s.ops, a.task, J.Approval, J.GateIntent(a.Id()), "");
    if stop.SaveFails? {
      FailKeepsNumbers(Journalled(s.ops, a), stop.cause);
    }
  }

  /** What is not an ask, and does not begin an operation, updates rows where they are. */
  lemma StepUpdatesRows(s: State, e: Event)
    requires !e.Asks? && !e.Begins?
    ensures J.RowwiseSame(s.ops, Step(s, e).ops)
  {
  }

  lemma StepNumbers(s: State, e: Event)
    requires J.Numbered(s.ops)
    ensures J.Numbered(Step(s, e).ops)
  {
    match e
    case Asks(cfg, a, stop) => AskNumbers(cfg, s, a, stop);
    case Begins(task, kind, intent, before) => J.BeginNumbers(s.ops, task, kind, intent, before);
    case _ =>
      StepUpdatesRows(s, e);
      J.UpdateNumbers(s.ops, Step(s, e).ops);
  }

  lemma StepKeyed(s: State, e: Event)
    requires WellKeyed(s.gates)
    ensures WellKeyed(Step(s, e).gates)
  {
  }

  lemma {:induction false} RunSound(es: seq<Event>)
    ensures Sound(Run(es))
  {
    if es != [] {
      RunSound(es[..|es| - 1]);
      StepKeyed(Run(es[..|es| - 1]), es[|es| - 1]);
      StepNumbers(Run(es[..|es| - 1]), es[|es| - 1]);
    }
  }

  // What an update may not touch, and so when an answer can be reused.

  ghost predicate SameQuestion(a: Gate, b: Gate) {
    a.id == b.id && a.task == b.task && a.kind == b.kind && a.question == b.question && a.evidence == b.evidence
    && a.candidate == b.candidate && a.createdAt == b.createdAt && a.expiresAt == b.expiresAt
  }

  /** A step writes at most one row. */
  lemma StepUpserts(s: State, e: Event) returns (g: Gate)
    ensures Step(s, e).gates == s.gates || Step(s, e).gates == Upsert(s.gates, g)
  {
    g := Gate("", "", Plan, "", "", "", Pending, "", "", 0, None, None);
    match e
    case Asks(cfg, a, stop) =>
      var why, body := Needs(cfg.policy, a.kind, a.evidence), cfg.encode(CutDiff(a.evidence));
      if why.Some? && body.Some? {
        g := Opened(cfg, a, why.value, body.value);
      }
    case Decides(r, cut) =>
      if r.id in s.gates {
        g := Settled(s.gates[r.id], r);
      }
    case _ =>
  }

  lemma UpsertKeepsQuestions(gates: Gates, g: Gate)
    ensures forall id | id in gates :: id in Upsert(gates, g) && SameQuestion(gates[id], Upsert(gates, g)[id])
  {
  }

  lemma StepKeepsQuestions(s: State, e: Event)
    ensures forall id | id in s.gates :: id in Step(s, e).gates && SameQuestion(s.gates[id], Step(s, e).gates[id])
  {
    var g := StepUpserts(s, e);
    UpsertKeepsQuestions(s.gates, g);
  }

  /** No call removes a gate, or changes what it asks, what it rests on, or its deadline. */
  lemma {:induction false} QuestionsNeverChange(es: seq<Event>, k: nat, id: string)
    requires k <= |es| && id in Run(es[..k]).gates
    ensures id in Run(es).gates && SameQuestion(Run(es[..k]).gates[id], Run(es).gates[id])
    decreases |es|
  {
    if k == |es| {
      assert es[..k] == es;
    } else {
      var front := es[..|es| - 1];
      assert front[..k] == es[..k];
      QuestionsNeverChange(front, k, id);
      RunSound(front);
      StepKeepsQuestions(Run(front), es[|es| - 1]);
    }
  }

  /** Once a gate has passed its deadline, its content is never answered again: whatever was or will be decided,
      an ask the policy gates only ever leaves it waiting. */
  lemma PastItsDeadlineNeverAnswered(es: seq<Event>, k: nat, id: string, cfg: Config, a: Asking, stop: AskStop)
    requires k <= |es| && id in Run(es[..k]).gates && a.candidate != "" && a.Concerns(Run(es[..k]).gates[id])
    requires Run(es[..k]).gates[id].Past(a.checkedAt) && Needs(cfg.policy, a.kind, a.evidence).Some?
    ensures var reply := AskStep(cfg, Run(es), a, stop).1; reply.Failed? || reply.gate.decision == Pending
  {
    QuestionsNeverChange(es, k, id);
    RunSound(es);
    assert id == GateId(a.task, a.kind, Short(a.candidate)) by {
      RunSound(es[..k]);
    }
  }

  /** A run in which that happens: a gate with a timeout is asked, and approved; an ask that comes in time gets the
      approval, and one after the deadline puts the gate back to waiting. */
  lemma ApprovalLapses(cfg: Config, a: Asking, r: Ruling, later: Asking)
    requires Needs(cfg.policy, a.kind, a.evidence).Some? && cfg.encode(CutDiff(a.evidence)).Some?
    requires cfg.policy.timeout > 0 && a.candidate != "" && r.id == a.Id() && r.decision == Approved
    requires later == a.(checkedAt := later.checkedAt, createdAt := later.createdAt)
    ensures var s, deadline := Run([Asks(cfg, a, Uncut), Decides(r, Through)]), Whole(a.createdAt + cfg.policy.timeout);
            && a.Id() in s.gates && s.gates[a.Id()].decision == Approved && s.gates[a.Id()].expiresAt == Some(deadline)
            && AskStep(cfg, s, later, Uncut).1.Answer?
            && AskStep(cfg, s, later, Uncut).1.gate.decision == if later.checkedAt > deadline then Pending else Approved
  {
    var asked, ruled := Asks(cfg, a, Uncut), Decides(r, Through);
    assert [asked, ruled][..1] == [asked] && [asked][..0] == [];
    assert Run([asked]) == Step(Run([]), asked);
    assert Run([asked, ruled]) == Step(Run([asked]), ruled);
    var g := Run([asked]).gates[a.Id()];
    assert g.Open() && g.expiresAt == Some(Whole(a.createdAt + cfg.policy.timeout)) && a.Concerns(g);
  }

  // An approval comes from a person.

  /** The k-th event is the ruling the row carries: on this row, while it was open and about the same content. */
  ghost predicate RuledBy(es: seq<Event>, k: nat, row: Gate) {
    k < |es| && es[k].Decides? && (es[k].cut.Through? || es[k].cut.NotClosed?)
    && es[k].r.id == row.id && es[k].r.decision == row.decision && es[k].r.who == row.decidedBy && es[k].r.note == row.note
    && row.decidedAt == Some(Whole(es[k].r.now))
    && row.id in Run(es[..k]).gates && Run(es[..k]).gates[row.id].decision == Pending
    && SameQuestion(Run(es[..k]).gates[row.id], row)
  }

  /** A step that leaves a row decided either left the row alone or is the ruling that decided it. */
  lemma StepDecides(s: State, e: Event, id: string)
    requires WellKeyed(s.gates) && id in Step(s, e).gates && !Step(s, e).gates[id].Open()
    ensures var row := Step(s, e).gates[id];
            (id in s.gates && s.gates[id] == row)
            || (e.Decides? && (e.cut.Through? || e.cut.NotClosed?) && e.r.id == id && e.r.decision == row.decision
                && e.r.who == row.decidedBy && e.r.note == row.note && row.decidedAt == Some(Whole(e.r.now))
                && id in s.gates && s.gates[id].Open() && SameQuestion(s.gates[id], row))
  {
  }

  lemma {:induction false} EveryDecisionWasRuled(es: seq<Event>, id: string) returns (k: nat)
    requires id in Run(es).gates && !Run(es).gates[id].Open()
    ensures RuledBy(es, k, Run(es).gates[id])
  {
    var front, e := es[..|es| - 1], es[|es| - 1];
    RunSound(front);
    StepKeyed(Run(front), e);
    StepDecides(Run(front), e, id);
    if id in Run(front).gates && Run(front).gates[id] == Run(es).gates[id] {
      k := EveryDecisionWasRuled(front, id);
      assert front[k] == es[k] && front[..k] == es[..k];
    } else {
      k := |es| - 1;
    }
  }

  /** Where the policy asks a person, an ask is approved, or rejected, only by an earlier Decide of exactly that
      answer on a waiting row with exactly its task, kind and full candidate. Without a candidate it never is. */
  lemma ApprovalNeedsARuling(es: seq<Event>, cfg: Config, a: Asking, stop: AskStop) returns (k: nat)
    requires || (a.kind == Plan && cfg.policy.requireForPlan)
             || (a.kind == Apply && cfg.policy.requireForApply)
             || (a.kind == OutOfScope && cfg.policy.requireForOutOfScope && a.evidence.outOfScope != [])
             || (a.kind == Impact && cfg.policy.requireForBreaking && a.evidence.breakingCount > 0)
             || (a.kind == Impact && !cfg.policy.requireForBreaking
                 && a.evidence.breakingCount > cfg.policy.maxBreakingAuto)
             || a.kind == Budget
    requires AskStep(cfg, Run(es), a, stop).1.Answer? && AskStep(cfg, Run(es), a, stop).1.gate.decision != Pending
    ensures RuledBy(es, k, AskStep(cfg, Run(es), a, stop).1.gate)
    ensures var row := Run(es[..k]).gates[es[k].r.id];
            a.candidate != "" && row.task == a.task && row.kind == a.kind && row.candidate == a.candidate
  {
    RunSound(es);
    GatedExactly(cfg.policy, a.kind, a.evidence);
    var g := AskStep(cfg, Run(es), a, stop).1.gate;
    k := EveryDecisionWasRuled(es, g.id);
  }

  /** Everything else is approved at once, whatever the tables hold and wherever the call is cut, and leaves no trace. */
  lemma OthersPassUnasked(s: State, cfg: Config, a: Asking, stop: AskStop)
    requires a.kind != Budget
    requires a.kind == Plan ==> !cfg.policy.requireForPlan
    requires a.kind == Apply ==> !cfg.policy.requireForApply
    requires a.kind == OutOfScope ==> !cfg.policy.requireForOutOfScope || a.evidence.outOfScope == []
    requires a.kind == Impact ==>
               a.evidence.breakingCount <= if cfg.policy.requireForBreaking then 0 else cfg.policy.maxBreakingAuto
    ensures var (after, reply) := AskStep(cfg, s, a, stop);
            after == s && reply.Answer? && reply.gate.decision == Approved
            && reply.gate.task == a.task && reply.gate.kind == a.kind
  {
    GatedExactly(cfg.policy, a.kind, a.evidence);
  }

  /** The first ask under an id opens a waiting gate for exactly that content, with a deadline exactly when the policy
      has a timeout, and journals it; no other gate changes. */
  lemma FirstAskWaits(s: State, cfg: Config, a: Asking)
    requires Needs(cfg.policy, a.kind, a.evidence).Some? && cfg.encode(CutDiff(a.evidence)).Some? && a.Id() !in s.gates
    ensures var after := AskStep(cfg, s, a, Uncut).0;
            && after.gates.Keys == s.gates.Keys + {a.Id()} && (forall id | id in s.gates :: after.gates[id] == s.gates[id])
            && after.ops[..|s.ops|] == s.ops && |after.ops| == |s.ops| + 1 && Names(after.ops[|s.ops|], a.Id())
    ensures var row := AskStep(cfg, s, a, Uncut).0.gates[a.Id()];
            && row.decision == Pending && row.task == a.task && row.kind == a.kind && row.candidate == a.candidate
            && row.createdAt % MILLISECOND == 0 && row.createdAt <= a.createdAt < row.createdAt + MILLISECOND
            && (row.evidence == "{}" || Some(row.evidence) == cfg.encode(CutDiff(a.evidence)))
            && (row.expiresAt.Some? <==> cfg.policy.timeout > 0)
            && (row.expiresAt.Some? ==>
                  var kept := row.expiresAt.value;
                  kept % MILLISECOND == 0 && kept <= a.createdAt + cfg.policy.timeout < kept + MILLISECOND)
  {
    DecidedNeedsARow(s.gates, a);
  }

  /** Its question is the one asked, with the reason for asking, but for spaces in front. */
  lemma QuestionIsShown(s: State, cfg: Config, a: Asking) returns (front: string)
    requires Needs(cfg.policy, a.kind, a.evidence).Some? && cfg.encode(CutDiff(a.evidence)).Some? && a.Id() !in s.gates
    ensures AllSpace(front)
    ensures a.question + " (" + cfg.wording(Needs(cfg.policy, a.kind, a.evidence).value) + ")"
         == front + AskStep(cfg, s, a, Uncut).0.gates[a.Id()].question
  {
    DecidedNeedsARow(s.gates, a);
    var why := cfg.wording(Needs(cfg.policy, a.kind, a.evidence).value);
    front := EndsInParenthesis(a.question + " (" + why);
  }

  lemma EndsInParenthesis(text: string) returns (front: string)
    ensures AllSpace(front) && text + ")" == front + TrimSpace(text + ")")
  {
    var back;
    front, back := TrimmedParts(text + ")");
    assert (text + ")")[|text + ")"| - 1] == ')';
    EndsAsItsBack(front + TrimSpace(text + ")"), back);
  }

  lemma EndsAsItsBack(front: string, back: string)
    ensures back != [] ==> (front + back)[|front + back| - 1] == back[|back| - 1]
  {
  }

  lemma DecidedNeedsARow(gates: Gates, a: Asking)
    requires a.Id() !in gates
    ensures DecidedFor(gates, a.task, a.kind, a.candidate, a.checkedAt).None?
  {
  }

  // How long an answer stands.

  /** An ask that the policy gates and that names this id about other content, or past the deadline of the row. */
  ghost predicate Disturbs(row: Gate, e: Event) {
    e.Asks? && Needs(e.cfg.policy, e.a.kind, e.a.evidence).Some? && e.a.Id() == row.id
    && (e.a.candidate == "" || e.a.task != row.task || e.a.kind != row.kind || e.a.candidate != row.candidate
        || row.Past(e.a.checkedAt))
  }

  lemma UndisturbedStays(s: State, e: Event, id: string)
    requires Sound(s) && id in s.gates && s.gates[id].candidate != "" && s.gates[id].Answered()
    requires !Disturbs(s.gates[id], e)
    ensures id in Step(s, e).gates && Step(s, e).gates[id] == s.gates[id]
  {
  }

  /** A whole ask whose evidence can be written undoes an answered row exactly when it disturbs it. */
  lemma AnswerSurvivesExactly(s: State, cfg: Config, a: Asking, id: string)
    requires Sound(s) && id in s.gates && s.gates[id].candidate != "" && s.gates[id].Answered()
    requires cfg.encode(CutDiff(a.evidence)).Some?
    ensures Step(s, Asks(cfg, a, Uncut)).gates[id].Answered() <==> !Disturbs(s.gates[id], Asks(cfg, a, Uncut))
  {
  }

  /** An answer stands for as long as no ask disturbs it: every later ask about that content, before the deadline
      if there is one, gets that same answer and opens, writes and journals nothing. */
  lemma {:induction false} AnswerStands(es: seq<Event>, k: nat, id: string)
    requires k <= |es| && id in Run(es[..k]).gates
    requires Run(es[..k]).gates[id].candidate != "" && Run(es[..k]).gates[id].Answered()
    requires forall j | k <= j < |es| :: !Disturbs(Run(es[..k]).gates[id], es[j])
    ensures id in Run(es).gates && Run(es).gates[id] == Run(es[..k]).gates[id]
    decreases |es|
  {
    if k == |es| {
      assert es[..k] == es;
    } else {
      var front := es[..|es| - 1];
      assert front[..k] == es[..k];
      AnswerStands(front, k, id);
      RunSound(front);
      UndisturbedStays(Run(front), es[|es| - 1], id);
    }
  }

  lemma StandingAnswerIsReused(s: State, cfg: Config, a: Asking, stop: AskStop, id: string)
    requires Sound(s) && id in s.gates && (s.gates[id].decision == Approved || s.gates[id].decision == Rejected)
    requires a.candidate != "" && s.gates[id].task == a.task && s.gates[id].kind == a.kind && s.gates[id].candidate == a.candidate
    requires Needs(cfg.policy, a.kind, a.evidence).Some? && !s.gates[id].Past(a.checkedAt) && !stop.ReadFails?
    ensures AskStep(cfg, s, a, stop) == (s, Answer(s.gates[id]))
  {
  }

  /** With no timeout in any policy and no other content under the gate's id, the answer given to a gate is the
      answer of every later ask about it. */
  lemma SameAnswerForGood(es: seq<Event>, k: nat, id: string, cfg: Config, a: Asking, stop: AskStop)
    requires forall j | 0 <= j < |es| :: es[j].Asks? ==> es[j].cfg.policy.timeout <= 0
    requires k <= |es| && id in Run(es[..k]).gates
    requires Run(es[..k]).gates[id].decision == Approved || Run(es[..k]).gates[id].decision == Rejected
    requires forall j | k <= j < |es| :: es[j].Asks? && es[j].a.Id() == id ==>
               es[j].a.candidate != "" && es[j].a.Concerns(Run(es[..k]).gates[id])
    requires a.candidate != "" && a.Concerns(Run(es[..k]).gates[id]) && !stop.ReadFails?
    requires Needs(cfg.policy, a.kind, a.evidence).Some?
    ensures AskStep(cfg, Run(es), a, stop) == (Run(es), Answer(Run(es[..k]).gates[id]))
  {
    NoTimeoutNoDeadline(es[..k], id);
    RunSound(es[..k]);
    RunSound(es);
    AnswerStands(es, k, id);
    StandingAnswerIsReused(Run(es), cfg, a, stop, id);
  }

  lemma {:induction false} NoTimeoutNoDeadline(es: seq<Event>, id: string)
    requires forall j | 0 <= j < |es| :: es[j].Asks? ==> es[j].cfg.policy.timeout <= 0
    requires id in Run(es).gates
    ensures Run(es).gates[id].expiresAt.None?
  {
    var front, e := es[..|es| - 1], es[|es| - 1];
    RunSound(front);
    if id in Run(front).gates {
      NoTimeoutNoDeadline(front, id);
      StepKeepsQuestions(Run(front), e);
    } else {
      assert e.Asks?;
    }
  }

  // A waiting gate is on record.

  /** Every gate that waits is named by an approval the journal shows as open. */
  ghost predicate OnRecord(ops: seq<J.Operation>, id: string) { exists i | 0 <= i < |ops| :: Names(ops[i], id) }

  ghost predicate Backed(s: State) {
    forall id | id in s.gates && s.gates[id].decision == Pending :: OnRecord(s.ops, id)
  }

  /** Rows may be added and changed, as long as the open approvals stay what they are. */
  lemma RecordGrows(ops: seq<J.Operation>, ops': seq<J.Operation>, id: string)
    requires OnRecord(ops, id) && |ops| <= |ops'|
    requires forall i | 0 <= i < |ops| && Names(ops[i], id) :: ops'[i] == ops[i]
    ensures OnRecord(ops', id)
  {
    var i :| 0 <= i < |ops| && Names(ops[i], id);
    assert Names(ops'[i], id);
  }

  lemma AskBacked(s: State, cfg: Config, a: Asking, stop: AskStop)
    requires Sound(s) && Backed(s)
    ensures Backed(AskStep(cfg, s, a, stop).0)
  {
    var s' := AskStep(cfg, s, a, stop).0;
    if s' != s {
      assert |s'.ops| == |s.ops| + 1 && s'.ops[..|s.ops|] == s.ops;
      forall id | id in s'.gates && s'.gates[id].Open() ensures OnRecord(s'.ops, id) {
        if id in s.gates && s.gates[id].Open() {
          RecordGrows(s.ops, s'.ops, id);
        } else {
          assert id == a.Id() && Names(s'.ops[|s.ops|], id);
        }
      }
    }
  }

  lemma {:induction false} FirstNamingIn(ops: seq<J.Operation>, id: string)
    requires FirstNaming(ops, id).Some?
    ensures Names(FirstNaming(ops, id).value, id) && FirstNaming(ops, id).value in ops
  {
    if !Names(ops[0], id) {
      FirstNamingIn(ops[1..], id);
    }
  }

  lemma {:induction false} TaskOpsAreRows(ops: seq<J.Operation>, task: string, op: J.Operation)
    requires J.Numbered(ops) && op in J.TaskOps(ops, task)
    ensures 1 <= op.id <= |ops| && ops[op.id - 1] == op && op.task == task
  {
    if ops != [] {
      J.NumberedFront(ops);
      if op in J.TaskOps(ops[..|ops| - 1], task) {
        TaskOpsAreRows(ops[..|ops| - 1], task, op);
      }
    }
  }

  /** Closing an approval of one gate closes one row, and only of that gate. */
  lemma CloseTouchesItsGate(ops: seq<J.Operation>, task: string, id: string, outcome: string)
    requires J.Numbered(ops)
    ensures |CloseFirst(ops, task, id, outcome)| == |ops|
    ensures forall i | 0 <= i < |ops| && !Names(ops[i], id) :: CloseFirst(ops, task, id, outcome)[i] == ops[i]
  {
    var op := FirstNaming(J.TaskOps(ops, task), id);
    if op.Some? {
      FirstNamingIn(J.TaskOps(ops, task), id);
      TaskOpsAreRows(ops, task, op.value);
    }
  }

  /** It closes, among the task's open approvals, the first one that names the gate, with the outcome given, and
      leaves every other row alone; without one it does nothing. */
  lemma ClosesTheFirst(ops: seq<J.Operation>, task: string, id: string, outcome: string, i: nat)
    requires J.Numbered(ops) && i < |ops| && ops[i].task == task && Names(ops[i], id)
    requires forall j | 0 <= j < i :: ops[j].task == task ==> !Names(ops[j], id)
    ensures CloseFirst(ops, task, id, outcome) == ops[i := ops[i].(outcome := Some(outcome))]
  {
    FirstIs(ops, task, id, i);
  }

  lemma {:induction false} FirstNamingConcat(a: seq<J.Operation>, b: seq<J.Operation>, id: string)
    ensures FirstNaming(a + b, id) == if FirstNaming(a, id).Some? then FirstNaming(a, id) else FirstNaming(b, id)
  {
    if a == [] {
      assert a + b == b;
    } else {
      assert (a + b)[1..] == a[1..] + b;
      FirstNamingConcat(a[1..], b, id);
    }
  }

  lemma {:induction false} NoneNamed(ops: seq<J.Operation>, task: string, id: string)
    requires forall j | 0 <= j < |ops| :: ops[j].task == task ==> !Names(ops[j], id)
    ensures FirstNaming(J.TaskOps(ops, task), id).None?
  {
    if ops != [] {
      var front, op := ops[..|ops| - 1], ops[|ops| - 1];
      NoneNamed(front, task, id);
      FirstNamingConcat(J.TaskOps(front, task), if op.task == task then [op] else [], id);
    }
  }

  lemma {:induction false} FirstIs(ops: seq<J.Operation>, task: string, id: string, i: nat)
    requires i < |ops| && ops[i].task == task && Names(ops[i], id)
    requires forall j | 0 <= j < i :: ops[j].task == task ==> !Names(ops[j], id)
    ensures FirstNaming(J.TaskOps(ops, task), id) == Some(ops[i])
    decreases |ops|
  {
    var front, op := ops[..|ops| - 1], ops[|ops| - 1];
    FirstNamingConcat(J.TaskOps(front, task), if op.task == task then [op] else [], id);
    if i < |front| {
      FirstIs(front, task, id, i);
    } else {
      NoneNamed(front, task, id);
    }
  }

  lemma DecideBacked(s: State, r: Ruling, cut: DecideStop)
    requires Sound(s) && Backed(s) && r.decision != Pending
    ensures Backed(DecideStep(s, r, cut).0)
  {
    var s' := DecideStep(s, r, cut).0;
    if r.id in s.gates && s.gates[r.id].Open() {
      CloseTouchesItsGate(s.ops, s.gates[r.id].task, r.id, r.outcome);
      forall id | id in s'.gates && s'.gates[id].Open() ensures OnRecord(s'.ops, id) {
        RecordGrows(s.ops, s'.ops, id);
      }
    }
  }

  /** Journal calls on other operations close no approval. */
  lemma OtherBacked(s: State, e: Event)
    requires Backed(s) && !e.Asks? && !e.Decides?
    ensures Backed(Step(s, e))
  {
    var s' := Step(s, e);
    forall id | id in s'.gates && s'.gates[id].Open() ensures OnRecord(s'.ops, id) {
      RecordGrows(s.ops, s'.ops, id);
    }
  }

  /** In every run in which no ruling is "pending", however asks and rulings are cut, a gate that waits has an
      open approval in the journal. */
  lemma {:induction false} WaitingGatesAreOnRecord(es: seq<Event>)
    requires forall j | 0 <= j < |es| :: es[j].Decides? ==> es[j].r.decision != Pending
    ensures Backed(Run(es))
  {
    if es != [] {
      var front, e := es[..|es| - 1], es[|es| - 1];
      WaitingGatesAreOnRecord(front);
      RunSound(front);
      match e
      case Asks(cfg, a, stop) => AskBacked(Run(front), cfg, a, stop);
      case Decides(r, cut) => DecideBacked(Run(front), r, cut);
      case _ => OtherBacked(Run(front), e);
    }
  }

  /** An ask that opens a gate, and then a ruling on it: unless the ruling is "pending" the gate is no longer waiting;
      if it is, the gate waits on with its one approval closed. */
  lemma FirstRuling(cfg: Config, a: Asking, r: Ruling)
    requires Needs(cfg.policy, a.kind, a.evidence).Some? && cfg.encode(CutDiff(a.evidence)).Some? && r.id == a.Id()
    ensures Backed(Run([Asks(cfg, a, Uncut)]))
    ensures Backed(Run([Asks(cfg, a, Uncut), Decides(r, Through)])) <==> r.decision != Pending
  {
    var asked, ruled := Asks(cfg, a, Uncut), Decides(r, Through);
    assert [asked, ruled][..1] == [asked] && [asked][..0] == [];
    var s := Run([asked]);
    assert s == Step(Run([]), asked) && Run([asked, ruled]) == Step(s, ruled);
    WaitingGatesAreOnRecord([asked]);
    if r.decision == Pending {
      ClosedTooSoon(s, a, r);
    } else {
      WaitingGatesAreOnRecord([asked, ruled]);
    }
  }

  lemma ClosedTooSoon(s: State, a: Asking, r: Ruling)
    requires s.ops == Journalled([], a) && r.id == a.Id() && r.decision == Pending
    requires r.id in s.gates && s.gates[r.id].Open() && s.gates[r.id].id == r.id && s.gates[r.id].task == a.task
    ensures !Backed(DecideStep(s, r, Through).0)
  {
    var op := s.ops[0];
    assert s.ops == [] + [op];
    J.TaskOpsSnoc([], op, a.task);
    assert J.TaskOps(s.ops, a.task) == [op];
    assert FirstNaming([op], r.id) == Some(op);
    var s' := DecideStep(s, r, Through).0;
    assert s'.ops == [op.(outcome := Some(r.outcome))];
    assert r.id in s'.gates && s'.gates[r.id].Open() && !OnRecord(s'.ops, r.id);
  }

  ghost predicate Reached(s: State) { exists es :: s == Run(es) }

  /** A ruling on a gate that some ask can open keeps every waiting gate on record, from every state a run reaches
      with them on record, exactly when it is not "pending". */
  lemma RulingKeepsTheRecordExactly(cfg: Config, a: Asking, r: Ruling)
    requires Needs(cfg.policy, a.kind, a.evidence).Some? && cfg.encode(CutDiff(a.evidence)).Some? && r.id == a.Id()
    ensures (forall s | Reached(s) && Backed(s) :: Backed(DecideStep(s, r, Through).0)) <==> r.decision != Pending
  {
    FirstRuling(cfg, a, r);
    if r.decision == Pending {
      var asked, ruled := Asks(cfg, a, Uncut), Decides(r, Through);
      var s := Run([asked]);
      assert [asked, ruled][..1] == [asked];
      assert Run([asked, ruled]) == Step(s, ruled);
      assert Reached(s) && Backed(s) && !Backed(DecideStep(s, r, Through).0);
    } else {
      forall s | Reached(s) && Backed(s) ensures Backed(DecideStep(s, r, Through).0) {
        var es :| s == Run(es);
        RunSound(es);
        DecideBacked(s, r, Through);
      }
    }
  }

  // Expiry.

  lemma RulingTouchesItsRow(s: State, r: Ruling, cut: DecideStop)
    requires WellKeyed(s.gates)
    ensures var gates := DecideStep(s, r, cut).0.gates;
            WellKeyed(gates) && gates.Keys == s.gates.Keys
            && forall id | id in s.gates && id != r.id :: gates[id] == s.gates[id]
  {
    StepKeyed(s, Decides(r, cut));
  }

  lemma ExpireOne(s: State, id: string, met: Met)
    requires id in s.gates && s.gates[id].Open() && s.gates[id].id == id
    ensures var gates := DecideStep(s, Expiry(id, met), Through).0.gates;
            id in gates && gates[id].decision == Expired && SameQuestion(gates[id], s.gates[id])
  {
  }

  /** Expiring a listing adds and removes no row, and leaves the rows it does not list as they were. */
  lemma {:induction false} UnlistedStay(s: State, list: seq<Gate>, now: int, each: string -> Met)
    requires WellKeyed(s.gates)
    ensures var gates := ExpireAll(s, list, now, each).gates;
            WellKeyed(gates) && gates.Keys == s.gates.Keys
            && forall id | id in s.gates && (forall i | 0 <= i < |list| :: list[i].id != id) :: gates[id] == s.gates[id]
  {
    if list != [] {
      var front, g := list[..|list| - 1], list[|list| - 1];
      UnlistedStay(s, front, now, each);
      RulingTouchesItsRow(ExpireAll(s, front, now, each), Expiry(g.id, each(g.id)), each(g.id).fault);
      assert forall i | 0 <= i < |front| :: front[i] == list[i];
    }
  }

  /** A listing that meets no fault expires exactly the waiting gates past their deadline. */
  lemma ExpiryIsExact(s: State, list: seq<Gate>, k: nat, now: int, each: string -> Met)
    requires WellKeyed(s.gates) && Listing(s.gates, Waiting, list) && k < |list| && forall id :: each(id).fault.Through?
    ensures var gates := ExpireAll(s, list, now, each).gates;
            list[k].id in gates && SameQuestion(gates[list[k].id], list[k])
            && gates[list[k].id].decision == (if list[k].Past(now) then Expired else Pending)
            && |Shown(list, now, each)| == |list| && Shown(list, now, each)[k].id == list[k].id
            && Shown(list, now, each)[k].decision == gates[list[k].id].decision
  {
    ShownAt(list, k, now, each);
    DistinctIds(s.gates, list);
    ExpiredUpTo(s, list, k, now, each);
  }

  lemma {:induction false} ShownAt(list: seq<Gate>, k: nat, now: int, each: string -> Met)
    requires k < |list|
    ensures |Shown(list, now, each)| == |list|
    ensures Shown(list, now, each)[k] == ShownAs(list[k], now, each(list[k].id))
    decreases |list|
  {
    if k < |list| - 1 {
      ShownAt(list[..|list| - 1], k, now, each);
    } else if k > 0 {
      ShownAt(list[..|list| - 1], k - 1, now, each);
    }
  }

  lemma {:induction false} ExpiredUpTo(s: State, list: seq<Gate>, k: nat, now: int, each: string -> Met)
    requires WellKeyed(s.gates) && k < |list| && list[k].id in s.gates && s.gates[list[k].id] == list[k] && list[k].Open()
    requires forall i, j | 0 <= i < j < |list| :: list[i].id != list[j].id
    requires forall id :: each(id).fault.Through?
    ensures var gates := ExpireAll(s, list, now, each).gates;
            list[k].id in gates && SameQuestion(gates[list[k].id], list[k])
            && gates[list[k].id].decision == if list[k].Past(now) then Expired else Pending
  {
    var front, g := list[..|list| - 1], list[|list| - 1];
    var before := ExpireAll(s, front, now, each);
    UnlistedStay(s, front, now, each);
    if k == |list| - 1 {
      assert before.gates[g.id] == g && list[k] == g;
      assert each(g.id).fault == Through;
      ExpireOne(before, g.id, each(g.id));
    } else {
      assert front[k] == list[k];
      ExpiredUpTo(s, front, k, now, each);
      RulingTouchesItsRow(before, Expiry(g.id, each(g.id)), each(g.id).fault);
      assert list[k].id != g.id;
    }
  }
}
