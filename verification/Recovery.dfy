/** Crash recovery: what a task was doing, read from its journal and its worktree. */
module Recovery {
  import opened Encoding
  import opened Journal
  import opened Ordering
  import opened Wrappers

  datatype Applied = AppliedComplete | AppliedPartial | AppliedNotApplied | AppliedUnknown

  /** What opening and hashing a file meets. */
  datatype FileState = Absent | Unreadable | Present(content: string)

  /** A checkout: how each path reads, and the paths that no candidate counts because they are no regular files or
      lie in a directory the walk skips. */
  datatype Worktree = Worktree(disk: map<string, FileState>, skipped: set<string>)

  function Read(w: Worktree, path: string): FileState { if path in w.disk then w.disk[path] else Absent }

  /** The files that make up the candidate, read from the same disk. */
  function Tracked(w: Worktree): map<string, string> {
    map p | p in w.disk && w.disk[p].Present? && p !in w.skipped :: w.disk[p].content
  }

  /** Without this the manifest, and with it the recovery, is an error. */
  predicate Readable(w: Worktree) { forall p | p in w.disk && p !in w.skipped :: !w.disk[p].Unreadable? }

  datatype Reconciliation = Reconciliation(op: Operation, applied: Applied)

  /** The verdict on one uncertain operation, by looking. */
  function Inspect(hash: string -> string, op: Operation, worktree: Option<Worktree>): Reconciliation {
    Reconciliation(op,
      if op.kind != Edit || !op.intent.EditIntent? || op.intent.path == "" || worktree.None? then AppliedUnknown
      else
        match Read(worktree.value, op.intent.path)
        case Absent => AppliedNotApplied
        case Unreadable => AppliedUnknown
        case Present(content) =>
          if hash(content) == op.intent.afterHash then AppliedComplete
          else if hash(content) == op.intent.beforeHash then AppliedNotApplied
          else AppliedPartial)
  }

  /** The hash an intent records for a state of the file: nothing for no file. */
  function HashOf(hash: string -> string, f: FileState): string { if f.Present? then hash(f.content) else "" }

  /** The hash tells texts apart, from each other and from no file. */
  ghost predicate Telling(hash: string -> string) { Injective(hash) && forall x :: hash(x) != "" }

  /** The operation edits a file from one state to another; it may create the file, or delete it. */
  ghost predicate Describes(hash: string -> string, op: Operation, before: FileState, after: FileState) {
    && op.kind == Edit && op.intent.EditIntent? && op.intent.path != ""
    && before != Unreadable && after != Unreadable && before != after
    && op.intent.beforeHash == HashOf(hash, before) && op.intent.afterHash == HashOf(hash, after)
  }

  /** How far the edit really got, given what is on disk. */
  function Truth(found: FileState, before: FileState, after: FileState): Applied {
    if found == Unreadable then AppliedUnknown
    else if found == after then AppliedComplete
    else if found == before then AppliedNotApplied
    else AppliedPartial
  }

  /** Looking tells the truth exactly when there is a file, or there was none before the edit. The one verdict that
      can be wrong is "not applied". */
  lemma ClassifiedByContent(hash: string -> string, op: Operation, w: Worktree, before: FileState, after: FileState)
    requires Telling(hash) && Describes(hash, op, before, after)
    ensures var found, verdict := Read(w, op.intent.path), Inspect(hash, op, Some(w)).applied;
            && (verdict == Truth(found, before, after) <==> found != Absent || before == Absent)
            && (verdict != AppliedNotApplied ==> verdict == Truth(found, before, after))
            && (found.Present? && found == after ==> verdict == AppliedComplete)
            && (found.Present? && found == before ==> verdict == AppliedNotApplied)
            && (found.Present? && found != before && found != after ==> verdict == AppliedPartial)
            && (found == Absent ==> verdict == AppliedNotApplied)
  {
  }

  /** Once the deletion of a file has taken hold, it reads as not applied. */
  lemma DeletionReadsAsNotApplied(hash: string -> string, op: Operation, w: Worktree, before: FileState)
    requires Telling(hash) && Describes(hash, op, before, Absent) && Read(w, op.intent.path) == Absent
    ensures Truth(Read(w, op.intent.path), before, Absent) == AppliedComplete
    ensures Inspect(hash, op, Some(w)).applied == AppliedNotApplied
  {
    ClassifiedByContent(hash, op, w, before, Absent);
  }

  /** The half-applied edits that looking misses are exactly those of a file that was there, was to stay, and is gone. */
  lemma LostFileReadsAsNotApplied(hash: string -> string, op: Operation, w: Worktree, before: FileState, after: FileState)
    requires Telling(hash) && Describes(hash, op, before, after)
    ensures var found := Read(w, op.intent.path);
            Truth(found, before, after) == AppliedPartial && Inspect(hash, op, Some(w)).applied != AppliedPartial
            <==> found == Absent && before.Present? && after.Present?
  {
    ClassifiedByContent(hash, op, w, before, after);
  }

  /** Nothing is said exactly of what is no edit of a named file, has no worktree, or meets a file that cannot be
      read. */
  lemma UnknownExactly(hash: string -> string, op: Operation, worktree: Option<Worktree>)
    ensures Inspect(hash, op, worktree).applied == AppliedUnknown
       <==> op.kind != Edit || !op.intent.EditIntent? || op.intent.path == "" || worktree.None?
            || (op.intent.path in worktree.value.disk && worktree.value.disk[op.intent.path] == Unreadable)
    ensures Inspect(hash, op, worktree).op == op
  {
  }

  // An edit in flight: its intent is written, then its file, then its outcome; a crash cuts it anywhere.

  /** One change of the edited file; a write cut short leaves some other text, a replacement may remove it first. */
  datatype Write = Write(content: string) | Removal

  function Leaves(write: Write): FileState { if write.Removal? then Absent else Present(write.content) }

  function LastState(before: FileState, writes: seq<Write>): FileState {
    if writes == [] then before else Leaves(writes[|writes| - 1])
  }

  function AfterWrites(w: Worktree, path: string, writes: seq<Write>): Worktree {
    if writes == [] then w else AfterWrite(AfterWrites(w, path, writes[..|writes| - 1]), path, writes[|writes| - 1])
  }

  function AfterWrite(w: Worktree, path: string, write: Write): Worktree {
    w.(disk := w.disk[path := Leaves(write)])
  }

  /** Cut after any number of writes and removals, the edit in flight is classified by its last one: rightly,
      exactly when that left a file, or there was none to begin with. */
  lemma CutEditIsClassified(hash: string -> string, op: Operation, w: Worktree, before: FileState, after: FileState,
                            writes: seq<Write>)
    requires Telling(hash) && Describes(hash, op, before, after) && Read(w, op.intent.path) == before
    ensures var last, cut := LastState(before, writes), AfterWrites(w, op.intent.path, writes);
            && Read(cut, op.intent.path) == last
            && (Inspect(hash, op, Some(cut)).applied == Truth(last, before, after) <==> last != Absent || before == Absent)
  {
    ClassifiedByContent(hash, op, AfterWrites(w, op.intent.path, writes), before, after);
  }

  /** The uncertain operations, inspected, in journal order. */
  ghost function UncertainOf(hash: string -> string, ops: seq<Operation>, worktree: Option<Worktree>)
    : seq<Reconciliation>
  {
    if ops == [] then []
    else
      var op := ops[|ops| - 1];
      UncertainOf(hash, ops[..|ops| - 1], worktree) + if op.Uncertain() then [Inspect(hash, op, worktree)] else []
  }

  /** candidate_after of the last completed operation that recorded one. */
  ghost function LastCompleted(ops: seq<Operation>): string {
    if ops == [] then ""
    else
      var op := ops[|ops| - 1];
      if !op.Uncertain() && op.candidateAfter != "" then op.candidateAfter else LastCompleted(ops[..|ops| - 1])
  }

  /** c is what the last row recorded that both finished and left a candidate; without any such row it is empty. */
  ghost predicate LastRecorded(ops: seq<Operation>, c: string) {
    if c == "" then forall i | 0 <= i < |ops| :: ops[i].outcome.None? || ops[i].candidateAfter == ""
    else
      exists k | 0 <= k < |ops| ::
        && ops[k].outcome.Some? && ops[k].candidateAfter == c
        && forall i | k < i < |ops| :: ops[i].outcome.None? || ops[i].candidateAfter == ""
  }

  lemma {:induction false} LastCompletedIs(ops: seq<Operation>)
    ensures LastRecorded(ops, LastCompleted(ops))
    ensures forall c | LastRecorded(ops, c) :: c == LastCompleted(ops)
  {
    if ops != [] {
      var front, op := ops[..|ops| - 1], ops[|ops| - 1];
      assert forall i | 0 <= i < |front| :: front[i] == ops[i];
      LastCompletedIs(front);
      if !op.Uncertain() && op.candidateAfter != "" {
        assert ops[|ops| - 1].candidateAfter == LastCompleted(ops);
      } else {
        assert forall c :: LastRecorded(ops, c) ==> LastRecorded(front, c);
      }
    }
  }

  lemma RecordedThere(ops: seq<Operation>, k: nat, c: string)
    requires k < |ops| && ops[k].outcome.Some? && ops[k].candidateAfter == c && c != ""
    requires forall i | k < i < |ops| :: ops[i].outcome.None? || ops[i].candidateAfter == ""
    ensures LastRecorded(ops, c)
  {
  }

  /** Later rows that are uncertain, or left no candidate, do not change which candidate is the last. */
  lemma LastOfThem(a: seq<Operation>, op: Operation, b: seq<Operation>)
    requires op.outcome.Some? && op.candidateAfter != ""
    requires forall i | 0 <= i < |b| :: b[i].outcome.None? || b[i].candidateAfter == ""
    ensures LastCompleted(a + [op] + b) == op.candidateAfter
  {
    RecordedThere(a + [op] + b, |a|, op.candidateAfter);
    LastCompletedIs(a + [op] + b);
  }

  ghost function Files(ops: seq<Operation>): set<string> {
    set op | op in ops && op.kind == InspectFile && op.intent.FileIntent? && op.intent.file != "" :: op.intent.file
  }

  ghost function Symbols(ops: seq<Operation>): set<string> {
    set op, s | op in ops && (op.kind == Search || op.kind == Retrieval) && op.intent.SymbolsIntent?
                && s in op.intent.symbols :: s
  }

  predicate Accepts(op: Operation) { op.intent.DecisionIntent? && op.intent.accepted }

  /** Decisions, accepted or not, in journal order. */
  ghost function Decisions(ops: seq<Operation>, accepted: bool): seq<Intent> {
    if ops == [] then []
    else
      var op := ops[|ops| - 1];
      Decisions(ops[..|ops| - 1], accepted)
      + if op.kind == Decision && Accepts(op) == accepted then [op.intent] else []
  }

  ghost function CompletedEdits(ops: seq<Operation>): seq<Intent> {
    if ops == [] then []
    else
      var op := ops[|ops| - 1];
      CompletedEdits(ops[..|ops| - 1])
      + if op.kind == Edit && !op.Uncertain() && op.intent.EditIntent? && op.intent.path != "" then [op.intent] else []
  }

  datatype Evidence = Evidence(id: string, candidate: string)
  datatype EvidenceStatus = EvidenceStatus(evidence: Evidence, stale: bool)

  /** Evidence for another candidate no longer applies. */
  function StatusOf(e: Evidence, current: string): EvidenceStatus {
    EvidenceStatus(e, current != "" && e.candidate != "" && e.candidate != current)
  }

  datatype Handoff = Handoff(objective: string, remaining: seq<string>, nextAction: string)

  datatype NextAction = InspectPartial(seqNo: nat) | Revalidate | RerunStale | Planned(step: string) | Replan

  datatype WorkingState = WorkingState(
    checkpoint: nat, objective: string, files: seq<string>, symbols: seq<string>, decisions: seq<Intent>, rejected: seq<Intent>,
    completedEdits: seq<Intent>, validations: seq<EvidenceStatus>, remaining: seq<string>, next: NextAction,
    current: string, lastCompleted: string, drifted: bool, uncertain: seq<Reconciliation>)
  {
    predicate SafeToResume() {
      (forall u | u in uncertain :: u.applied != AppliedPartial) && !drifted
    }
  }

  /** The first step a resumed session should take; what the handoff says comes first. */
  function NextOf(handoff: string, uncertain: seq<Reconciliation>, drifted: bool, validations: seq<EvidenceStatus>,
                  remaining: seq<string>): NextAction
  {
    if handoff != "" then Planned(handoff)
    else if PartialAt(uncertain) < |uncertain| then InspectPartial(uncertain[PartialAt(uncertain)].op.seqNo)
    else if drifted then Revalidate
    else if exists v | v in validations :: v.stale then RerunStale
    else if remaining != [] then Planned(remaining[0])
    else Replan
  }

  function PartialAt(us: seq<Reconciliation>): (i: nat)
    ensures i <= |us|
    ensures i < |us| <==> exists u | u in us :: u.applied == AppliedPartial
    ensures i < |us| ==> us[i].applied == AppliedPartial && forall j | 0 <= j < i :: us[j].applied != AppliedPartial
  {
    if us == [] then 0
    else if us[0].applied == AppliedPartial then 0
    else
      assert us == [us[0]] + us[1..];
      1 + PartialAt(us[1..])
  }

  /** A repair starts with the earliest operation that reads as partial. */
  lemma EarliestPartialFirst(ws: WorkingState, i: nat)
    requires ws.next == NextOf("", ws.uncertain, ws.drifted, ws.validations, ws.remaining)
    requires i < |ws.uncertain| && ws.uncertain[i].applied == AppliedPartial
    requires forall j | 0 <= j < i :: ws.uncertain[j].applied != AppliedPartial
    ensures ws.next == InspectPartial(ws.uncertain[i].op.seqNo)
  {
    assert ws.uncertain[i] in ws.uncertain;
  }

  /** Without a handoff, resuming starts with a repair exactly when it is not safe. Otherwise stale evidence is gathered
      again first, then come the remaining steps in order. */
  lemma UnsafeStartsWithRepair(ws: WorkingState)
    requires ws.next == NextOf("", ws.uncertain, ws.drifted, ws.validations, ws.remaining)
    ensures !ws.SafeToResume() <==> ws.next.InspectPartial? || ws.next == Revalidate
    ensures ws.SafeToResume() && (exists v | v in ws.validations :: v.stale) ==> ws.next == RerunStale
    ensures ws.SafeToResume() && (forall v | v in ws.validations :: !v.stale) ==>
            ws.next == if ws.remaining == [] then Replan else Planned(ws.remaining[0])
  {
  }

  ghost function Hashes(hash: string -> string, files: map<string, string>): map<string, string> {
    map p | p in files :: hash(files[p])
  }

  /** The candidate identifier: a hash over sorted (path, content hash) pairs. */
  ghost function Manifest(hash: string -> string, files: map<string, string>): string {
    hash(WorktreeStream(Hashes(hash, files)))
  }

  /** The paths and digests that go into a manifest hold no NUL. */
  ghost predicate CleanTree(hash: string -> string, files: map<string, string>) {
    forall p | p in files :: NoNul(p) && NoNul(hash(files[p]))
  }

  /** Two worktrees share a manifest exactly when their tracked files are the same, text for text. */
  lemma ManifestIdentifiesTree(hash: string -> string, a: map<string, string>, b: map<string, string>)
    requires Injective(hash) && CleanTree(hash, a) && CleanTree(hash, b)
    ensures Manifest(hash, a) == Manifest(hash, b) <==> a == b
  {
    if Manifest(hash, a) == Manifest(hash, b) {
      var ha, hb := Hashes(hash, a), Hashes(hash, b);
      WorktreeInjective(ha, hb);
      assert a.Keys == ha.Keys && b.Keys == hb.Keys;
      forall p | p in a ensures p in b && a[p] == b[p] {
        assert ha[p] == hb[p];
      }
    }
  }

  /** The paths of a walk, in order: every file there is, except those skipped. */
  ghost predicate Walks(w: Worktree, paths: seq<string>) {
    forall p :: p in paths <==> p in w.disk && w.disk[p] != Absent && p !in w.skipped
  }

  /** The walk hashes every counted file, and fails at one it cannot read; the entries are then sorted and hashed. */
  method ContentManifest(hash: string -> string, w: Worktree) returns (manifest: Option<string>)
    ensures manifest == if Readable(w) then Some(Manifest(hash, Tracked(w))) else None
  {
    var paths := SortedList(set p | p in w.disk && w.disk[p] != Absent && p !in w.skipped);
    assert Walks(w, paths);
    var entries: map<string, string> := map[];
    for i := 0 to |paths|
      invariant forall k | 0 <= k < i :: Read(w, paths[k]).Present?
      invariant Entries(hash, w, paths, i, entries)
    {
      assert paths[i] in paths;
      if w.disk[paths[i]].Unreadable? {
        return None;
      }
      EntriesGrow(hash, w, paths, i, entries);
      entries := entries[paths[i] := hash(w.disk[paths[i]].content)];
    }
    AllEntries(hash, w, paths, entries);
    var sum := HashEntries(hash, entries);
    manifest := Some(sum);
  }

  /** The entries of the first i paths. */
  ghost predicate Entries(hash: string -> string, w: Worktree, paths: seq<string>, i: nat, entries: map<string, string>) {
    && (forall k | 0 <= k < i && k < |paths| :: paths[k] in entries)
    && (forall p | p in entries :: p in paths && entries[p] == HashOf(hash, Read(w, p)))
  }

  lemma EntriesGrow(hash: string -> string, w: Worktree, paths: seq<string>, i: nat, entries: map<string, string>)
    requires i < |paths| && Entries(hash, w, paths, i, entries) && Read(w, paths[i]).Present?
    ensures Entries(hash, w, paths, i + 1, entries[paths[i] := hash(Read(w, paths[i]).content)])
  {
  }

  lemma AllEntries(hash: string -> string, w: Worktree, paths: seq<string>, entries: map<string, string>)
    requires Walks(w, paths) && Entries(hash, w, paths, |paths|, entries)
    requires forall k | 0 <= k < |paths| :: Read(w, paths[k]).Present?
    ensures Readable(w) && entries == Hashes(hash, Tracked(w))
  {
    forall p | p in w.disk && p !in w.skipped ensures !w.disk[p].Unreadable? {
      assert w.disk[p] != Absent ==> p in paths;
    }
    forall p ensures p in entries <==> p in Tracked(w) {
      assert p in paths <==> p in w.disk && w.disk[p] != Absent && p !in w.skipped;
    }
  }

  method HashEntries(hash: string -> string, entries: map<string, string>) returns (manifest: string)
    ensures manifest == hash(WorktreeStream(entries))
  {
    var paths := SortedList(entries.Keys);
    SortedKeysUnique(entries.Keys, paths, SortedKeys(entries.Keys));
    var sum := new Hasher();
    for i := 0 to |paths|
      invariant sum.fed == NulTerminated(Interleave(paths[..i], entries))
    {
      InterleaveSnoc(paths, entries, i);
      WriteEntry(sum, paths[i], entries[paths[i]]);
    }
    assert paths[..|paths|] == paths;
    manifest := hash(sum.fed);
  }

  /** One line of the manifest: the path and the hash, each closed by a NUL. */
  method WriteEntry(sum: Hasher, path: string, contentHash: string)
    modifies sum
    ensures sum.fed == old(sum.fed) + path + [NUL] + contentHash + [NUL]
  {
    sum.Write(path);
    sum.Write([NUL]);
    sum.Write(contentHash);
    sum.Write([NUL]);
  }

  lemma InterleaveSnoc(paths: seq<string>, entries: map<string, string>, i: nat)
    requires i < |paths| && forall k | 0 <= k < |paths| :: paths[k] in entries
    ensures NulTerminated(Interleave(paths[..i + 1], entries))
         == NulTerminated(Interleave(paths[..i], entries)) + paths[i] + [NUL] + entries[paths[i]] + [NUL]
  {
    assert paths[..i + 1][..i] == paths[..i];
    NulSnoc(Interleave(paths[..i], entries), paths[i], entries[paths[i]]);
  }

  lemma NulSnoc(parts: seq<string>, p: string, h: string)
    ensures NulTerminated(parts + [p, h]) == NulTerminated(parts) + p + [NUL] + h + [NUL]
  {
    var one, two := parts + [p], parts + [p, h];
    assert two[..|two| - 1] == one && one[..|one| - 1] == parts;
  }

  method EvidenceFor(evidence: seq<Evidence>, current: string) returns (out: seq<EvidenceStatus>)
    ensures |out| == |evidence| && forall i | 0 <= i < |out| :: out[i] == StatusOf(evidence[i], current)
  {
    out := [];
    for i := 0 to |evidence|
      invariant |out| == i && forall j | 0 <= j < i :: out[j] == StatusOf(evidence[j], current)
    {
      var e := evidence[i];
      out := out + [EvidenceStatus(e, current != "" && e.candidate != "" && e.candidate != current)];
    }
  }

  method Reconcile(hash: string -> string, ops: seq<Operation>, worktree: Option<Worktree>)
    returns (uncertain: seq<Reconciliation>, lastCompleted: string)
    ensures uncertain == UncertainOf(hash, ops, worktree) && lastCompleted == LastCompleted(ops)
  {
    uncertain, lastCompleted := [], "";
    for i := 0 to |ops|
      invariant uncertain == UncertainOf(hash, ops[..i], worktree) && lastCompleted == LastCompleted(ops[..i])
    {
      assert ops[..i + 1][..i] == ops[..i];
      if !ops[i].Uncertain() && ops[i].candidateAfter != "" {
        lastCompleted := ops[i].candidateAfter;
      }
      if ops[i].Uncertain() {
        uncertain := uncertain + [Inspect(hash, ops[i], worktree)];
      }
    }
    assert ops[..|ops|] == ops;
  }

  /** What one operation adds to the reconstruction. */
  method Note(op: Operation, files: set<string>, symbols: set<string>, decisions: seq<Intent>, rejected: seq<Intent>,
              edits: seq<Intent>)
    returns (files': set<string>, symbols': set<string>, decisions': seq<Intent>, rejected': seq<Intent>,
             edits': seq<Intent>)
    ensures files' == files + Files([op]) && symbols' == symbols + Symbols([op])
    ensures decisions' == decisions + Decisions([op], true) && rejected' == rejected + Decisions([op], false)
    ensures edits' == edits + CompletedEdits([op])
  {
    files', symbols', decisions', rejected', edits' := files, symbols, decisions, rejected, edits;
    OneOperation(op);
    match op.kind
    case InspectFile =>
      if op.intent.FileIntent? && op.intent.file != "" {
        files' := files + {op.intent.file};
      }
    case Search | Retrieval =>
      if op.intent.SymbolsIntent? {
        symbols' := symbols + (set s | s in op.intent.symbols);
      }
    case Decision =>
      if Accepts(op) {
        decisions' := decisions + [op.intent];
      } else {
        rejected' := rejected + [op.intent];
      }
    case Edit =>
      if !op.Uncertain() && op.intent.EditIntent? && op.intent.path != "" {
        edits' := edits + [op.intent];
      }
    case _ =>
  }

  method Reconstruct(ops: seq<Operation>)
    returns (files: set<string>, symbols: set<string>, decisions: seq<Intent>, rejected: seq<Intent>, edits: seq<Intent>)
    ensures files == Files(ops) && symbols == Symbols(ops)
    ensures decisions == Decisions(ops, true) && rejected == Decisions(ops, false) && edits == CompletedEdits(ops)
  {
    files, symbols, decisions, rejected, edits := {}, {}, [], [], [];
    for i := 0 to |ops|
      invariant files == Files(ops[..i]) && symbols == Symbols(ops[..i])
      invariant decisions == Decisions(ops[..i], true) && rejected == Decisions(ops[..i], false)
      invariant edits == CompletedEdits(ops[..i])
    {
      assert ops[..i + 1] == ops[..i] + [ops[i]];
      ReconstructSnoc(ops[..i], ops[i]);
      files, symbols, decisions, rejected, edits := Note(ops[i], files, symbols, decisions, rejected, edits);
    }
    assert ops[..|ops|] == ops;
  }

  lemma OneOperation(op: Operation)
    ensures Files([op]) == if op.kind == InspectFile && op.intent.FileIntent? && op.intent.file != ""
                           then {op.intent.file} else {}
    ensures Symbols([op]) == if (op.kind == Search || op.kind == Retrieval) && op.intent.SymbolsIntent?
                             then (set s | s in op.intent.symbols) else {}
  {
    assert forall x :: x in [op] <==> x == op;
  }

  lemma ReconstructSnoc(ops: seq<Operation>, op: Operation)
    ensures Files(ops + [op]) == Files(ops) + Files([op])
    ensures Symbols(ops + [op]) == Symbols(ops) + Symbols([op])
    ensures forall accepted :: Decisions(ops + [op], accepted) == Decisions(ops, accepted) + Decisions([op], accepted)
    ensures CompletedEdits(ops + [op]) == CompletedEdits(ops) + CompletedEdits([op])
  {
    assert forall x :: x in ops + [op] <==> x in ops || x in [op];
    assert (ops + [op])[..|ops|] == ops && [op][..0] == [];
  }

  /** What the last checkpoint hands over: nothing without one, or when its text does not parse. */
  function HandedOver(parse: string -> Option<Handoff>, saved: Option<Saved>): Handoff {
    if saved.Some? && saved.value.handoff != "" && parse(saved.value.handoff).Some?
    then parse(saved.value.handoff).value
    else Handoff("", [], "")
  }

  method ReadHandoff(parse: string -> Option<Handoff>, saved: Option<Saved>) returns (h: Handoff)
    ensures h == HandedOver(parse, saved)
  {
    h := Handoff("", [], "");
    if saved.Some? && saved.value.handoff != "" {
      var parsed := parse(saved.value.handoff);
      if parsed.Some? {
        h := parsed.value;
      }
    }
  }

  /** The working state that a task's rows, its last checkpoint and its worktree determine. */
  ghost predicate Recovered(hash: string -> string, h: Handoff, ops: seq<Operation>, worktree: Option<Worktree>,
                            evidence: seq<Evidence>, ws: WorkingState)
  {
    && ws.uncertain == UncertainOf(hash, ops, worktree)
    && ws.lastCompleted == LastCompleted(ops) && LastRecorded(ops, ws.lastCompleted)
    && ws.current == (if worktree.Some? then Manifest(hash, Tracked(worktree.value)) else "")
    && (ws.drifted <==> ws.lastCompleted != "" && ws.current != "" && ws.lastCompleted != ws.current)
    && ws.objective == h.objective && ws.remaining == h.remaining
    && ws.next == NextOf(h.nextAction, ws.uncertain, ws.drifted, ws.validations, h.remaining)
    && IsSortedKeys(Files(ops), ws.files) && IsSortedKeys(Symbols(ops), ws.symbols)
    && ws.decisions == Decisions(ops, true) && ws.rejected == Decisions(ops, false)
    && ws.completedEdits == CompletedEdits(ops)
    && |ws.validations| == |evidence|
    && forall i | 0 <= i < |evidence| :: ws.validations[i] == StatusOf(evidence[i], ws.current)
  }

  /** Reconstructs one task's working state; a counted file that cannot be read is an error. */
  method RecoverTask(hash: string -> string, parse: string -> Option<Handoff>, l: Ledger, task: string,
                     worktree: Option<Worktree>, evidence: seq<Evidence>)
    returns (r: Option<WorkingState>)
    requires l.Valid()
    ensures r.None? <==> worktree.Some? && !Readable(worktree.value)
    ensures r.Some? ==> InSequence(r.value.uncertain)
    ensures r.Some? && task in l.latest && l.latest[task].handoff != "" && parse(l.latest[task].handoff).Some? ==>
            var h := parse(l.latest[task].handoff).value;
            r.value.objective == h.objective && r.value.remaining == h.remaining
            && (h.nextAction != "" ==> r.value.next == Planned(h.nextAction))
    ensures r.Some? ==> r.value.checkpoint == if task in l.latest then l.latestSeq[task] else 0
    ensures r.Some? ==>
            Recovered(hash, HandedOver(parse, if task in l.latest then Some(l.latest[task]) else None),
                      TaskOps(l.ops, task), worktree, evidence, r.value)
  {
    var ops := l.Operations(task);
    var current := "";
    if worktree.Some? {
      var manifest := ContentManifest(hash, worktree.value);
      if manifest.None? {
        return None;
      }
      current := manifest.value;
    }
    var uncertain, lastCompleted := Reconcile(hash, ops, worktree);
    LastCompletedIs(ops);
    UncertainInOrder(hash, ops, worktree);
    var drifted := lastCompleted != "" && current != "" && lastCompleted != current;
    var checkpoint, saved := l.LastCheckpoint(task);
    var h := ReadHandoff(parse, saved);
    var files, symbols, decisions, rejected, edits := Reconstruct(ops);
    var fileList := SortedList(files);
    var symbolList := SortedList(symbols);
    var validations := EvidenceFor(evidence, current);
    r := Some(WorkingState(checkpoint, h.objective, fileList, symbolList, decisions, rejected, edits, validations,
                           h.remaining, NextOf(h.nextAction, uncertain, drifted, validations, h.remaining),
                           current, lastCompleted, drifted, uncertain));
  }

  /** What recovery lists, said about a whole run: exactly the operations whose outcome no call wrote. */
  lemma RecoveryListsTheUncertain(es: seq<Event>, hash: string -> string, task: string, worktree: Option<Worktree>,
                                  i: nat)
    requires i < |Run(es).ops| && Run(es).ops[i].task == task
    ensures (exists u :: u in UncertainOf(hash, TaskOps(Run(es).ops, task), worktree) && u.op == Run(es).ops[i])
       <==> !OutcomeWritten(es, i + 1)
  {
    var op := Run(es).ops[i];
    UncertainExactly(es, i);
    InTaskOps(Run(es).ops, task, i);
    UncertainMembers(hash, TaskOps(Run(es).ops, task), worktree);
    if op.Uncertain() {
      assert Inspect(hash, op, worktree) in UncertainOf(hash, TaskOps(Run(es).ops, task), worktree);
      assert Inspect(hash, op, worktree).op == op;
    }
  }

  /** An edit cut anywhere, seen from the whole run: as long as no call wrote its outcome, recovery lists it, and
      what it says of it is the truth exactly when the last write left a file, or there was none to begin with. */
  lemma CutEditIsListed(es: seq<Event>, hash: string -> string, w: Worktree, i: nat, before: FileState,
                        after: FileState, writes: seq<Write>)
    returns (u: Reconciliation)
    requires Telling(hash) && i < |Run(es).ops| && !OutcomeWritten(es, i + 1)
    requires Describes(hash, Run(es).ops[i], before, after) && Read(w, Run(es).ops[i].intent.path) == before
    ensures var op, last := Run(es).ops[i], LastState(before, writes);
            && u in UncertainOf(hash, TaskOps(Run(es).ops, op.task), Some(AfterWrites(w, op.intent.path, writes)))
            && u.op == op
            && (u.applied == Truth(last, before, after) <==> last != Absent || before == Absent)
  {
    var op := Run(es).ops[i];
    var found := Some(AfterWrites(w, op.intent.path, writes));
    UncertainExactly(es, i);
    InTaskOps(Run(es).ops, op.task, i);
    CutEditIsClassified(hash, op, w, before, after, writes);
    UncertainMembers(hash, TaskOps(Run(es).ops, op.task), found);
    u := Inspect(hash, op, found);
  }

  lemma TwoEvents(a: Event, b: Event)
    ensures Run([a, b]) == Step(Step(Run([]), a), b)
  {
    RunSnoc([], a);
    assert [] + [a] == [a];
    RunSnoc([a], b);
    assert [a] + [b] == [a, b];
  }

  lemma OneRow(op: Operation)
    ensures TaskOps([op], op.task) == [op]
  {
    TaskOpsSnoc([], op, op.task);
    assert [] + [op] == [op];
  }

  /** The journal of a task whose one edit was begun and cut. */
  function CutEdit(task: string, intent: Intent): seq<Event> { [Begun(task, Edit, intent, "", false), Crash] }

  lemma OneEditCut(task: string, intent: Intent)
    ensures var op := NewRow([], task, Edit, intent, "");
            op.task == task && TaskOps(Run(CutEdit(task, intent)).ops, task) == [op]
  {
    TwoEvents(Begun(task, Edit, intent, "", false), Crash);
    OneRow(NewRow([], task, Edit, intent, ""));
  }

  lemma {:induction false} InTaskOps(ops: seq<Operation>, task: string, i: nat)
    requires i < |ops| && ops[i].task == task
    ensures ops[i] in TaskOps(ops, task)
    decreases |ops|
  {
    if i < |ops| - 1 {
      InTaskOps(ops[..|ops| - 1], task, i);
    }
  }

  lemma {:induction false} UncertainMembers(hash: string -> string, ops: seq<Operation>, worktree: Option<Worktree>)
    ensures forall u :: u in UncertainOf(hash, ops, worktree) <==>
                        u.op in ops && u.op.Uncertain() && u == Inspect(hash, u.op, worktree)
  {
    if ops != [] {
      var front, op := ops[..|ops| - 1], ops[|ops| - 1];
      assert ops == front + [op];
      UncertainMembers(hash, front, worktree);
    }
  }

  ghost predicate InSequence(us: seq<Reconciliation>) {
    forall i, j | 0 <= i < j < |us| :: us[i].op.seqNo < us[j].op.seqNo
  }

  lemma InSequenceSnoc(us: seq<Reconciliation>, u: Reconciliation)
    requires InSequence(us) && forall i | 0 <= i < |us| :: us[i].op.seqNo < u.op.seqNo
    ensures InSequence(us + [u])
  {
  }

  /** The uncertain operations come in the order in which they were begun. */
  lemma {:induction false} UncertainInOrder(hash: string -> string, ops: seq<Operation>, worktree: Option<Worktree>)
    requires forall i, j | 0 <= i < j < |ops| :: ops[i].seqNo < ops[j].seqNo
    ensures InSequence(UncertainOf(hash, ops, worktree))
  {
    if ops != [] {
      var front, op := ops[..|ops| - 1], ops[|ops| - 1];
      UncertainInOrder(hash, front, worktree);
      UncertainMembers(hash, front, worktree);
      var us := UncertainOf(hash, front, worktree);
      forall i | 0 <= i < |us| ensures us[i].op.seqNo < op.seqNo {
        assert us[i] in us;
        var k :| 0 <= k < |front| && front[k] == us[i].op;
        assert ops[k].seqNo < ops[|ops| - 1].seqNo;
      }
      InSequenceSnoc(us, Inspect(hash, op, worktree));
    }
  }

  /** What the reconstruction lists, entry by entry. */
  lemma {:induction false} ReconstructedFrom(ops: seq<Operation>)
    ensures forall f :: f in Files(ops)
              <==> f != "" && exists i | 0 <= i < |ops| :: ops[i].kind == InspectFile && ops[i].intent == FileIntent(f)
    ensures forall s :: s in Symbols(ops)
              <==> exists i | 0 <= i < |ops| ::
                     (ops[i].kind == Search || ops[i].kind == Retrieval) && ops[i].intent.SymbolsIntent?
                     && s in ops[i].intent.symbols
    ensures forall d :: d in Decisions(ops, true)
              <==> exists i | 0 <= i < |ops| :: ops[i].kind == Decision && ops[i].intent == d && d.DecisionIntent? && d.accepted
    ensures forall d :: d in Decisions(ops, false)
              <==> exists i | 0 <= i < |ops| ::
                     ops[i].kind == Decision && ops[i].intent == d && !(d.DecisionIntent? && d.accepted)
    ensures forall d :: d in CompletedEdits(ops)
              <==> exists i | 0 <= i < |ops| ::
                     ops[i].kind == Edit && ops[i].outcome.Some? && ops[i].intent == d && d.EditIntent? && d.path != ""
  {
    if ops != [] {
      var front := ops[..|ops| - 1];
      ReconstructedFrom(front);
      assert forall i | 0 <= i < |front| :: front[i] == ops[i];
    }
  }

  /** Evidence gathered on some files is stale exactly when the worktree's files are no longer those. */
  lemma StaleExactly(hash: string -> string, e: Evidence, files: map<string, string>, w: Worktree)
    requires Telling(hash) && CleanTree(hash, files) && CleanTree(hash, Tracked(w)) && e.candidate == Manifest(hash, files)
    ensures StatusOf(e, Manifest(hash, Tracked(w))).stale <==> Tracked(w) != files
  {
    ManifestIdentifiesTree(hash, files, Tracked(w));
  }

  // What "safe to resume" excludes.

  /** SafeToResume, said of the journal and the worktree it was recovered from. */
  ghost predicate ResumesSafely(hash: string -> string, ops: seq<Operation>, w: Worktree) {
    && (forall op | op in ops && op.Uncertain() :: Inspect(hash, op, Some(w)).applied != AppliedPartial)
    && !(LastCompleted(ops) != "" && Manifest(hash, Tracked(w)) != "" && LastCompleted(ops) != Manifest(hash, Tracked(w)))
  }

  lemma SafeToResumeSays(hash: string -> string, h: Handoff, ops: seq<Operation>, w: Worktree, evidence: seq<Evidence>,
                         ws: WorkingState)
    requires Recovered(hash, h, ops, Some(w), evidence, ws)
    ensures ws.SafeToResume() <==> ResumesSafely(hash, ops, w)
  {
    UncertainMembers(hash, ops, Some(w));
    forall op | op in ops && op.Uncertain() ensures Inspect(hash, op, Some(w)) in ws.uncertain {
      assert Inspect(hash, op, Some(w)).op == op;
    }
  }

  /** The last completed candidate of these rows was taken from these files. */
  ghost predicate TakenFrom(hash: string -> string, ops: seq<Operation>, recorded: map<string, string>) {
    LastCompleted(ops) == Manifest(hash, recorded) && CleanTree(hash, recorded)
  }

  /** With a completed candidate, resuming is safe exactly when no uncertain edit reads as partial and the worktree's
      files are, text for text, those the candidate was taken from. */
  lemma SafeMeansSame(hash: string -> string, ops: seq<Operation>, w: Worktree, recorded: map<string, string>)
    requires Telling(hash) && TakenFrom(hash, ops, recorded) && CleanTree(hash, Tracked(w))
    ensures ResumesSafely(hash, ops, w) <==>
            && Tracked(w) == recorded
            && forall op | op in ops && op.Uncertain() :: Inspect(hash, op, Some(w)).applied != AppliedPartial
  {
    ManifestIdentifiesTree(hash, recorded, Tracked(w));
  }

  /** Then an edit that is half-applied nevertheless has lost a file which the candidate does not hold. */
  lemma SafeExcludesHalfApplied(hash: string -> string, ops: seq<Operation>, w: Worktree, recorded: map<string, string>,
                                op: Operation, before: FileState, after: FileState)
    requires Telling(hash) && TakenFrom(hash, ops, recorded) && CleanTree(hash, Tracked(w))
    requires op in ops && op.Uncertain() && Describes(hash, op, before, after)
    requires ResumesSafely(hash, ops, w) && Truth(Read(w, op.intent.path), before, after) == AppliedPartial
    ensures Read(w, op.intent.path) == Absent && before.Present? && after.Present? && op.intent.path !in recorded
  {
    SafeMeansSame(hash, ops, w, recorded);
    LostFileReadsAsNotApplied(hash, op, w, before, after);
  }

  /** The files of a candidate, checked out and nothing else. */
  function CheckedOut(files: map<string, string>): Worktree { Worktree(map p | p in files :: Present(files[p]), {}) }

  lemma CheckedOutTracks(files: map<string, string>)
    ensures Tracked(CheckedOut(files)) == files && Readable(CheckedOut(files))
    ensures forall p :: Read(CheckedOut(files), p) == if p in files then Present(files[p]) else Absent
  {
  }

  /** Nothing to miss: in no readable worktree is the edit half-applied while resuming is safe. */
  ghost predicate NeverMissed(hash: string -> string, ops: seq<Operation>, op: Operation, before: FileState,
                              after: FileState)
    requires op.intent.EditIntent?
  {
    forall w | Readable(w) && CleanTree(hash, Tracked(w)) && ResumesSafely(hash, ops, w) ::
      Truth(Read(w, op.intent.path), before, after) != AppliedPartial
  }

  /** For the one uncertain edit of a task, from a text to a text: that it is half-applied cannot be missed exactly
      when a candidate was completed and holds the file. */
  lemma HalfAppliedIsNeverMissedExactly(hash: string -> string, ops: seq<Operation>, recorded: map<string, string>,
                                        op: Operation, before: string, after: string)
    requires Telling(hash) && (LastCompleted(ops) == "" || TakenFrom(hash, ops, recorded))
    requires op in ops && op.Uncertain() && Describes(hash, op, Present(before), Present(after))
    requires forall o | o in ops && o.Uncertain() :: o == op
    ensures NeverMissed(hash, ops, op, Present(before), Present(after))
       <==> LastCompleted(ops) != "" && op.intent.path in recorded
  {
    if LastCompleted(ops) != "" && op.intent.path in recorded {
      forall w | Readable(w) && CleanTree(hash, Tracked(w)) && ResumesSafely(hash, ops, w)
        ensures Truth(Read(w, op.intent.path), Present(before), Present(after)) != AppliedPartial
      {
        SafeMeansSame(hash, ops, w, recorded);
        LostFileReadsAsNotApplied(hash, op, w, Present(before), Present(after));
        assert op.intent.path in Tracked(w);
      }
    } else {
      var files := if LastCompleted(ops) == "" then map[] else recorded;
      CheckedOutTracks(files);
      LostFileReadsAsNotApplied(hash, op, CheckedOut(files), Present(before), Present(after));
      assert ResumesSafely(hash, ops, CheckedOut(files));
    }
  }

  lemma NoCandidateYet(op: Operation)
    requires op.Uncertain()
    ensures LastCompleted([op]) == "" && op in [op] && forall o | o in [op] :: o == op
  {
    assert [op][..0] == [];
  }

  /** A run of the failing kind: the one edit of a task is cut before any candidate was recorded. */
  lemma LostFilePassesAsSafe(hash: string -> string, task: string, path: string, before: string, after: string)
    requires Telling(hash) && path != "" && before != after
    ensures var ops := TaskOps(Run(CutEdit(task, EditIntent(path, hash(after), hash(before)))).ops, task);
            |ops| == 1 && Describes(hash, ops[0], Present(before), Present(after))
            && !NeverMissed(hash, ops, ops[0], Present(before), Present(after))
  {
    var intent := EditIntent(path, hash(after), hash(before));
    OneEditCut(task, intent);
    var op := NewRow([], task, Edit, intent, "");
    NoCandidateYet(op);
    HalfAppliedIsNeverMissedExactly(hash, [op], map[], op, before, after);
  }
}
