/** The intent-first journal: an operation is written before its side effect and its outcome after. */
module Journal {
  import opened Wrappers

  datatype Kind = InspectFile | Search | Retrieval | Decision | Edit | RecipeRun | Review | CheckpointOp | Approval
                | SessionStart | SessionEnd

  /** The payloads recovery reads; Opaque is any other, or one that does not parse. */
  datatype Intent =
    | EditIntent(path: string, afterHash: string, beforeHash: string)
    | FileIntent(file: string)
    | SymbolsIntent(symbols: seq<string>)
    | DecisionIntent(accepted: bool, text: string)
    | GateIntent(gate: string)
    | Opaque(body: string)

  /** One journal row. An empty text stands for NULL; an outcome, once written, is never empty. */
  datatype Operation = Operation(id: nat, task: string, seqNo: nat, kind: Kind, intent: Intent, outcome: Option<string>,
                                 candidateBefore: string, candidateAfter: string, evidence: string, error: string)
  {
    predicate Uncertain() { outcome.None? }
  }

  /** The rows of one task, in journal order. */
  function TaskOps(ops: seq<Operation>, task: string): seq<Operation> {
    if ops == [] then []
    else
      var op := ops[|ops| - 1];
      TaskOps(ops[..|ops| - 1], task) + if op.task == task then [op] else []
  }

  /** SELECT COALESCE(MAX(seq), 0) over the rows of one task. */
  function MaxSeq(ops: seq<Operation>, task: string): nat {
    if ops == [] then 0
    else
      var op, before := ops[|ops| - 1], MaxSeq(ops[..|ops| - 1], task);
      if op.task == task && op.seqNo > before then op.seqNo else before
  }

  /** Ids number the rows; each task's rows are numbered on their own, from one, without gaps. */
  ghost predicate Numbered(ops: seq<Operation>) {
    && (forall i | 0 <= i < |ops| :: ops[i].id == i + 1)
    && (forall i | 0 <= i < |ops| :: ops[i].seqNo == |TaskOps(ops[..i], ops[i].task)| + 1)
  }

  lemma TaskOpsSnoc(ops: seq<Operation>, op: Operation, task: string)
    ensures TaskOps(ops + [op], task) == TaskOps(ops, task) + if op.task == task then [op] else []
  {
    assert (ops + [op])[..|ops|] == ops;
  }

  lemma NumberedFront(ops: seq<Operation>)
    requires Numbered(ops) && ops != []
    ensures Numbered(ops[..|ops| - 1])
  {
    var front := ops[..|ops| - 1];
    forall i | 0 <= i < |front| ensures front[i].seqNo == |TaskOps(front[..i], front[i].task)| + 1 {
      assert front[..i] == ops[..i];
    }
  }

  lemma {:induction false} MaxSeqCounts(ops: seq<Operation>, task: string)
    requires Numbered(ops)
    ensures MaxSeq(ops, task) == |TaskOps(ops, task)|
  {
    if ops != [] {
      NumberedFront(ops);
      MaxSeqCounts(ops[..|ops| - 1], task);
    }
  }

  /** Sequence order is journal order: the k-th row of a task carries number k. */
  lemma {:induction false} SequenceOrder(ops: seq<Operation>, task: string)
    requires Numbered(ops)
    ensures forall k | 0 <= k < |TaskOps(ops, task)| ::
              TaskOps(ops, task)[k].seqNo == k + 1 && TaskOps(ops, task)[k].task == task
  {
    if ops != [] {
      NumberedFront(ops);
      SequenceOrder(ops[..|ops| - 1], task);
      assert ops[|ops| - 1].seqNo == |TaskOps(ops[..|ops| - 1], ops[|ops| - 1].task)| + 1;
    }
  }

  function NewRow(ops: seq<Operation>, task: string, kind: Kind, intent: Intent, before: string): Operation {
    Operation(|ops| + 1, task, MaxSeq(ops, task) + 1, kind, intent, None, before, "", "", "")
  }

  lemma BeginNumbers(ops: seq<Operation>, task: string, kind: Kind, intent: Intent, before: string)
    requires Numbered(ops)
    ensures Numbered(ops + [NewRow(ops, task, kind, intent, before)])
  {
    var op := NewRow(ops, task, kind, intent, before);
    MaxSeqCounts(ops, task);
    var all := ops + [op];
    forall i | 0 <= i < |all| ensures all[i].seqNo == |TaskOps(all[..i], all[i].task)| + 1 {
      assert all[..i] == ops[..i];
      if i == |ops| {
        assert ops[..i] == ops;
      }
    }
  }

  /** Everything an update may not touch. */
  ghost predicate SameIdentity(a: Operation, b: Operation) {
    a.id == b.id && a.task == b.task && a.seqNo == b.seqNo && a.kind == b.kind && a.intent == b.intent
    && a.candidateBefore == b.candidateBefore
  }

  /** UPDATE operations SET ... WHERE id = ?, for the outcome columns. */
  function WithOutcome(ops: seq<Operation>, id: nat, outcome: string, after: string, evidence: string): seq<Operation> {
    if 1 <= id <= |ops|
    then ops[id - 1 := ops[id - 1].(outcome := Some(outcome), candidateAfter := after, evidence := evidence)]
    else ops
  }

  function WithError(ops: seq<Operation>, id: nat, cause: string): seq<Operation> {
    if 1 <= id <= |ops| then ops[id - 1 := ops[id - 1].(error := cause)] else ops
  }

  /** Updating a row leaves every other row, and the identity of its own, as they were. */
  ghost predicate RowwiseSame(a: seq<Operation>, b: seq<Operation>) {
    |a| == |b| && forall i | 0 <= i < |a| :: SameIdentity(a[i], b[i])
  }

  lemma {:induction false} TaskOpsRowwise(a: seq<Operation>, b: seq<Operation>, task: string)
    requires RowwiseSame(a, b)
    ensures |TaskOps(a, task)| == |TaskOps(b, task)|
  {
    if a != [] {
      TaskOpsRowwise(a[..|a| - 1], b[..|b| - 1], task);
    }
  }

  lemma UpdateNumbers(a: seq<Operation>, b: seq<Operation>)
    requires Numbered(a) && RowwiseSame(a, b)
    ensures Numbered(b)
  {
    forall i | 0 <= i < |b| ensures b[i].seqNo == |TaskOps(b[..i], b[i].task)| + 1 {
      TaskOpsRowwise(a[..i], b[..i], b[i].task);
    }
  }

  datatype Slot = Slot(task: string, seqNo: nat)

  /** What a checkpoint saves; an empty candidate stands for NULL. */
  datatype Saved = Saved(state: string, handoff: string, candidate: string)

  class Ledger {
    var ops: seq<Operation>
    var checkpoints: map<Slot, Saved>

    // For each task, the number and the contents of the checkpoint written last.
    ghost var latestSeq: map<string, nat>
    ghost var latest: map<string, Saved>

    /** The checkpoint written last is the highest of its task, and none lies ahead of the journal. */
    ghost predicate Valid()
      reads this
    {
      && Numbered(ops) && latest.Keys == latestSeq.Keys
      && (forall t | t in latest ::
            && Slot(t, latestSeq[t]) in checkpoints && checkpoints[Slot(t, latestSeq[t])] == latest[t]
            && latestSeq[t] <= MaxSeq(ops, t))
      && (forall s | s in checkpoints :: s.task in latest && s.seqNo <= latestSeq[s.task])
    }

    constructor ()
      ensures Valid() && ops == [] && checkpoints == map[] && latest == map[]
    {
      ops, checkpoints, latestSeq, latest := [], map[], map[], map[];
    }

    /** Writes the intent; the side effect must not start before this returns a handle. */
    method Begin(task: string, kind: Kind, intent: Intent, candidateBefore: string, fault: bool) returns (h: Handle?)
      requires Valid()
      modifies this`ops
      ensures Valid()
      ensures h == null <==> fault
      ensures fault ==> ops == old(ops)
      ensures !fault ==> ops == old(ops) + [NewRow(old(ops), task, kind, intent, candidateBefore)]
      ensures h != null ==> fresh(h) && h.ledger == this && !h.done && h.id == |ops| && h.seqNo == ops[|ops| - 1].seqNo
    {
      if fault {
        return null;
      }
      var op := NewRow(ops, task, kind, intent, candidateBefore);
      BeginNumbers(ops, task, kind, intent, candidateBefore);
      assert (ops + [op])[..|ops|] == ops;
      ops := ops + [op];
      h := new Handle(this, op.id, op.seqNo);
    }

    /** A task's journal in sequence order. */
    method Operations(task: string) returns (out: seq<Operation>)
      requires Valid()
      ensures out == TaskOps(ops, task)
      ensures forall k | 0 <= k < |out| :: out[k].seqNo == k + 1
    {
      out := [];
      for i := 0 to |ops|
        invariant out == TaskOps(ops[..i], task)
      {
        assert ops[..i + 1][..i] == ops[..i];
        if ops[i].task == task {
          out := out + [ops[i]];
        }
      }
      assert ops[..|ops|] == ops;
      SequenceOrder(ops, task);
    }

    method Checkpoint(task: string, saved: Saved)
      requires Valid()
      modifies this`checkpoints, this`latestSeq, this`latest
      ensures Valid()
      ensures checkpoints == old(checkpoints)[Slot(task, MaxSeq(ops, task)) := saved]
      ensures latest == old(latest)[task := saved] && latestSeq == old(latestSeq)[task := MaxSeq(ops, task)]
    {
      var n := MaxSeq(ops, task);
      checkpoints := checkpoints[Slot(task, n) := saved];
      latestSeq, latest := latestSeq[task := n], latest[task := saved];
    }

    /** The checkpoint with the highest number is the one written last, however the journal has grown since. */
    method LastCheckpoint(task: string) returns (seqNo: nat, saved: Option<Saved>)
      requires Valid()
      ensures saved == if task in latest then Some(latest[task]) else None
      ensures seqNo == if task in latest then latestSeq[task] else 0
      ensures saved.Some? ==> Slot(task, seqNo) in checkpoints
      ensures saved.Some? ==> forall s | s in checkpoints && s.task == task :: s.seqNo <= seqNo
    {
      seqNo, saved := 0, None;
      for n := 0 to MaxSeq(ops, task) + 1
        invariant task in latest ==>
                    if latestSeq[task] < n then saved == Some(latest[task]) && seqNo == latestSeq[task] else true
        invariant task !in latest ==> saved.None? && seqNo == 0
      {
        if Slot(task, n) in checkpoints {
          seqNo, saved := n, Some(checkpoints[Slot(task, n)]);
        }
      }
    }
  }

  /** An in-flight operation. */
  class Handle {
    const ledger: Ledger
    const id: nat
    const seqNo: nat
    var done: bool

    constructor (ledger: Ledger, id: nat, seqNo: nat)
      ensures this.ledger == ledger && this.id == id && this.seqNo == seqNo && !done
    {
      this.ledger, this.id, this.seqNo, done := ledger, id, seqNo, false;
    }

    method Finish(outcome: string, candidateAfter: string, evidence: string, fault: bool) returns (ok: bool)
      requires ledger.Valid()
      modifies ledger`ops, this
      ensures ledger.Valid()
      ensures ok <==> !old(done) && !fault
      ensures ok ==> done && ledger.ops == WithOutcome(old(ledger.ops), id, outcome, candidateAfter, evidence)
      ensures !ok ==> done == old(done) && ledger.ops == old(ledger.ops)
    {
      if done || fault {
        return false;
      }
      ghost var before := ledger.ops;
      ledger.ops := WithOutcome(ledger.ops, id, outcome, candidateAfter, evidence);
      UpdateKeeps(before, ledger.ops);
      done, ok := true, true;
    }

    method Complete(outcome: string, candidateAfter: string, evidence: string, fault: bool) returns (ok: bool)
      requires ledger.Valid()
      modifies ledger`ops, this
      ensures ledger.Valid()
      ensures ok <==> !old(done) && !fault
      ensures ok ==> done && ledger.ops == WithOutcome(old(ledger.ops), id, outcome, candidateAfter, evidence)
      ensures !ok ==> done == old(done) && ledger.ops == old(ledger.ops)
    {
      ok := Finish(outcome, candidateAfter, evidence, fault);
    }

    /** A definite failure is certain: no candidate, no evidence, an outcome. */
    method Fail(cause: string, fault: bool) returns (ok: bool)
      requires ledger.Valid()
      modifies ledger`ops, this
      ensures ledger.Valid()
      ensures ok <==> !old(done) && !fault
      ensures ok ==> done && ledger.ops == WithOutcome(old(ledger.ops), id, "failed: " + cause, "", "")
      ensures !ok ==> done == old(done) && ledger.ops == old(ledger.ops)
    {
      ok := Finish("failed: " + cause, "", "", fault);
    }

    /** The cause is kept, the outcome stays unwritten, and the handle is spent. */
    method Interrupted(cause: string, fault: bool) returns (ok: bool)
      requires ledger.Valid()
      modifies ledger`ops, this
      ensures ledger.Valid()
      ensures ok <==> !old(done) && !fault
      ensures ok ==> done && ledger.ops == WithError(old(ledger.ops), id, cause)
      ensures !ok ==> done == old(done) && ledger.ops == old(ledger.ops)
      ensures forall i | 0 <= i < |ledger.ops| :: ledger.ops[i].outcome == old(ledger.ops)[i].outcome
    {
      if done || fault {
        return false;
      }
      ghost var before := ledger.ops;
      ledger.ops := WithError(ledger.ops, id, cause);
      UpdateKeeps(before, ledger.ops);
      done, ok := true, true;
    }
  }

  lemma {:induction false} MaxSeqRowwise(a: seq<Operation>, b: seq<Operation>, task: string)
    requires RowwiseSame(a, b)
    ensures MaxSeq(a, task) == MaxSeq(b, task)
  {
    if a != [] {
      MaxSeqRowwise(a[..|a| - 1], b[..|b| - 1], task);
    }
  }

  lemma UpdateKeeps(a: seq<Operation>, b: seq<Operation>)
    requires Numbered(a) && RowwiseSame(a, b)
    ensures Numbered(b) && forall task :: MaxSeq(a, task) == MaxSeq(b, task)
  {
    UpdateNumbers(a, b);
    forall task ensures MaxSeq(a, task) == MaxSeq(b, task) {
      MaxSeqRowwise(a, b, task);
    }
  }

  // Runs: any interleaving of journal calls, each of whose writes may fail, cut by crashes.

  datatype Event =
    | Begun(task: string, kind: Kind, intent: Intent, before: string, fault: bool)
    | Finished(id: nat, outcome: string, after: string, evidence: string, fault: bool)
    | Stopped(id: nat, cause: string, fault: bool)
    | Crash

  /** The journal, and the operations whose handles are alive and not spent. */
  datatype State = State(ops: seq<Operation>, open: set<nat>)

  function Step(s: State, e: Event): State {
    match e
    case Begun(task, kind, intent, before, fault) =>
      if fault then s
      else State(s.ops + [NewRow(s.ops, task, kind, intent, before)], s.open + {|s.ops| + 1})
    case Finished(id, outcome, after, evidence, fault) =>
      if fault || id !in s.open then s
      else State(WithOutcome(s.ops, id, outcome, after, evidence), s.open - {id})
    case Stopped(id, cause, fault) =>
      if fault || id !in s.open then s else State(WithError(s.ops, id, cause), s.open - {id})
    case Crash => State(s.ops, {})
  }

  function Run(es: seq<Event>): State {
    if es == [] then State([], {}) else Step(Run(es[..|es| - 1]), es[|es| - 1])
  }

  lemma RunSnoc(es: seq<Event>, e: Event)
    ensures Run(es + [e]) == Step(Run(es), e)
  {
    assert (es + [e])[..|es|] == es;
  }

  /** Whether some call of the run wrote the outcome of this operation. */
  ghost predicate OutcomeWritten(es: seq<Event>, id: nat) {
    exists k | 0 <= k < |es| :: es[k].Finished? && es[k].id == id && !es[k].fault && id in Run(es[..k]).open
  }

  /** What every run keeps: open operations exist, are uncertain and not yet stopped. */
  ghost predicate Sound(s: State) {
    Numbered(s.ops) && forall id | id in s.open :: 1 <= id <= |s.ops| && s.ops[id - 1].outcome.None?
  }

  /** What begins nothing updates rows where they are. */
  lemma StepUpdates(s: State, e: Event)
    requires !e.Begun? || e.fault
    ensures RowwiseSame(s.ops, Step(s, e).ops)
  {
  }

  lemma StepNumbered(s: State, e: Event)
    requires Numbered(s.ops)
    ensures Numbered(Step(s, e).ops)
  {
    if e.Begun? && !e.fault {
      BeginNumbers(s.ops, e.task, e.kind, e.intent, e.before);
    } else {
      StepUpdates(s, e);
      UpdateNumbers(s.ops, Step(s, e).ops);
    }
  }

  /** No event loses a row, renumbers it or touches its intent. */
  lemma StepKeepsRows(s: State, e: Event)
    ensures |s.ops| <= |Step(s, e).ops| && forall i | 0 <= i < |s.ops| :: SameIdentity(s.ops[i], Step(s, e).ops[i])
  {
  }

  lemma StepOpen(s: State, e: Event)
    requires Sound(s)
    ensures forall id | id in Step(s, e).open :: 1 <= id <= |Step(s, e).ops| && Step(s, e).ops[id - 1].outcome.None?
  {
    forall id | id in Step(s, e).open ensures 1 <= id <= |Step(s, e).ops| && Step(s, e).ops[id - 1].outcome.None? {
      assert id in s.open || id == |s.ops| + 1;
    }
  }

  /** A row whose handle is gone keeps its outcome, and its handle does not come back. */
  lemma StepSpent(s: State, e: Event, id: nat)
    requires 1 <= id <= |s.ops| && id !in s.open
    ensures id <= |Step(s, e).ops| && id !in Step(s, e).open && Step(s, e).ops[id - 1].outcome == s.ops[id - 1].outcome
  {
  }

  lemma StepSound(s: State, e: Event)
    requires Sound(s)
    ensures Sound(Step(s, e))
  {
    StepNumbered(s, e);
    StepOpen(s, e);
  }

  lemma {:induction false} RunSound(es: seq<Event>)
    ensures Sound(Run(es))
  {
    if es != [] {
      RunSound(es[..|es| - 1]);
      StepSound(Run(es[..|es| - 1]), es[|es| - 1]);
    }
  }

  lemma OutcomeWrittenSnoc(es: seq<Event>, e: Event, id: nat)
    ensures OutcomeWritten(es + [e], id)
       <==> OutcomeWritten(es, id) || (e.Finished? && e.id == id && !e.fault && id in Run(es).open)
  {
    var all := es + [e];
    assert forall k | 0 <= k <= |es| :: all[..k] == es[..k];
    assert es[..|es|] == es;
    if OutcomeWritten(es, id) {
      var k :| 0 <= k < |es| && es[k].Finished? && es[k].id == id && !es[k].fault && id in Run(es[..k]).open;
      assert all[k] == es[k];
    } else if e.Finished? && e.id == id && !e.fault && id in Run(es).open {
      assert all[|es|] == e;
    }
  }

  /** In every run, an operation is uncertain exactly when no call wrote its outcome: a crash, an
      interruption or a failed write never makes one look finished. */
  lemma {:induction false} UncertainExactly(es: seq<Event>, i: nat)
    requires i < |Run(es).ops|
    ensures Run(es).ops[i].Uncertain() <==> !OutcomeWritten(es, i + 1)
  {
    var front, e := es[..|es| - 1], es[|es| - 1];
    var s := Run(front);
    assert es == front + [e];
    RunSound(front);
    OutcomeWrittenSnoc(front, e, i + 1);
    if i < |s.ops| {
      UncertainExactly(front, i);
    } else {
      NeverWritten(front, i + 1);
    }
  }

  lemma {:induction false} NeverWritten(es: seq<Event>, id: nat)
    requires id > |Run(es).ops|
    ensures !OutcomeWritten(es, id)
  {
    if es != [] {
      var front, e := es[..|es| - 1], es[|es| - 1];
      assert es == front + [e];
      RunSound(front);
      StepKeepsRows(Run(front), e);
      NeverWritten(front, id);
      OutcomeWrittenSnoc(front, e, id);
    }
  }

  /** The k-th call began this row, as what it now says. */
  ghost predicate BegunAs(es: seq<Event>, k: nat, row: Operation) {
    && k < |es| && es[k].Begun? && !es[k].fault && row.id == |Run(es[..k]).ops| + 1
    && es[k].task == row.task && es[k].kind == row.kind && es[k].intent == row.intent
    && es[k].before == row.candidateBefore
  }

  /** The k-th call wrote the outcome this row has, with its candidate and evidence. */
  ghost predicate FinishedAs(es: seq<Event>, k: nat, row: Operation) {
    && k < |es| && es[k].Finished? && !es[k].fault && es[k].id == row.id && row.id in Run(es[..k]).open
    && row.outcome == Some(es[k].outcome) && row.candidateAfter == es[k].after && row.evidence == es[k].evidence
  }

  /** A row without an outcome has nothing that comes with one. */
  predicate Unfinished(row: Operation) { row.outcome.None? && row.candidateAfter == "" && row.evidence == "" }

  lemma BegunLater(es: seq<Event>, e: Event, k: nat, row: Operation, row': Operation)
    requires BegunAs(es, k, row) && SameIdentity(row, row')
    ensures BegunAs(es + [e], k, row')
  {
    assert (es + [e])[..k] == es[..k];
  }

  lemma FinishedLater(es: seq<Event>, e: Event, k: nat, row: Operation, row': Operation)
    requires Unfinished(row) || FinishedAs(es, k, row)
    requires row'.id == row.id && SameOutcome(row', row)
    ensures Unfinished(row') || FinishedAs(es + [e], k, row')
  {
    if FinishedAs(es, k, row) {
      assert (es + [e])[..k] == es[..k];
    }
  }

  lemma LastCall(es: seq<Event>, e: Event)
    ensures (es + [e])[|es|] == e && (es + [e])[..|es|] == es
  {
  }

  /** In every run, each row says what the call that began it said, and what the one call that finished it wrote;
      without such a call it has no outcome, no candidate and no evidence. */
  lemma {:induction false} RowsAreAsCalled(es: seq<Event>, i: nat) returns (begun: nat, ended: nat)
    requires i < |Run(es).ops|
    ensures BegunAs(es, begun, Run(es).ops[i])
    ensures Unfinished(Run(es).ops[i]) || FinishedAs(es, ended, Run(es).ops[i])
  {
    var front, e := es[..|es| - 1], es[|es| - 1];
    assert es == front + [e];
    LastCall(front, e);
    var s := Run(front);
    RunSound(front);
    begun, ended := |front|, |front|;
    if i < |s.ops| {
      var was;
      begun, was := RowsAreAsCalled(front, i);
      RowStep(s, e, i);
      BegunLater(front, e, begun, s.ops[i], Step(s, e).ops[i]);
      if SameOutcome(Step(s, e).ops[i], s.ops[i]) {
        ended := was;
        FinishedLater(front, e, was, s.ops[i], Step(s, e).ops[i]);
      }
    }
  }

  predicate SameOutcome(a: Operation, b: Operation) {
    a.outcome == b.outcome && a.candidateAfter == b.candidateAfter && a.evidence == b.evidence
  }

  /** What one call does to a row. */
  lemma RowStep(s: State, e: Event, i: nat)
    requires Sound(s) && i < |s.ops|
    ensures i < |Step(s, e).ops| && SameIdentity(s.ops[i], Step(s, e).ops[i])
    ensures var row := Step(s, e).ops[i];
            || SameOutcome(row, s.ops[i])
            || (e.Finished? && !e.fault && e.id == i + 1 && e.id in s.open && row.id == i + 1
                && row.outcome == Some(e.outcome) && row.candidateAfter == e.after && row.evidence == e.evidence)
  {
  }

  /** An interrupted operation keeps its cause, and stays uncertain, for good. */
  lemma {:induction false} CauseIsKept(es: seq<Event>, k: nat)
    requires k < |es| && es[k].Stopped? && !es[k].fault && es[k].id in Run(es[..k]).open
    ensures var id := es[k].id;
            && 1 <= id <= |Run(es).ops| && id !in Run(es).open
            && Run(es).ops[id - 1].error == es[k].cause && Run(es).ops[id - 1].Uncertain()
    decreases |es|
  {
    var front, e := es[..|es| - 1], es[|es| - 1];
    RunSound(front);
    if k == |front| {
      assert es[..k] == front;
      CauseWritten(Run(front), e);
    } else {
      assert front[..k] == es[..k] && front[k] == es[k];
      CauseIsKept(front, k);
      ErrorStays(Run(front), e, es[k].id);
    }
  }

  lemma CauseWritten(s: State, e: Event)
    requires Sound(s) && e.Stopped? && !e.fault && e.id in s.open
    ensures var s' := Step(s, e);
            1 <= e.id <= |s'.ops| && e.id !in s'.open && s'.ops[e.id - 1].error == e.cause && s'.ops[e.id - 1].Uncertain()
  {
  }

  lemma ErrorStays(s: State, e: Event, id: nat)
    requires 1 <= id <= |s.ops| && id !in s.open
    ensures id <= |Step(s, e).ops| && id !in Step(s, e).open
    ensures Step(s, e).ops[id - 1].error == s.ops[id - 1].error && Step(s, e).ops[id - 1].outcome == s.ops[id - 1].outcome
  {
  }

  /** An operation left behind by a crash or an interruption stays uncertain for good, and keeps its intent. */
  lemma {:induction false} LeftBehindStaysUncertain(es: seq<Event>, k: nat, id: nat)
    requires k <= |es| && 1 <= id <= |Run(es[..k]).ops|
    requires id !in Run(es[..k]).open && Run(es[..k]).ops[id - 1].Uncertain()
    ensures id <= |Run(es).ops| && id !in Run(es).open && Run(es).ops[id - 1].Uncertain()
    ensures SameIdentity(Run(es[..k]).ops[id - 1], Run(es).ops[id - 1])
    decreases |es|
  {
    if k == |es| {
      assert es[..k] == es;
    } else {
      var front, e := es[..|es| - 1], es[|es| - 1];
      assert front[..k] == es[..k];
      LeftBehindStaysUncertain(front, k, id);
      StepSpent(Run(front), e, id);
      StepKeepsRows(Run(front), e);
    }
  }
}
