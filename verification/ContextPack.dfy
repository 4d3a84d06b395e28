/** What a model is sent within one phase: messages that only ever grow at the end, under a token budget. */
module ContextPack {
  import Decimal
  import opened Text

  const HEAD_LINES := 60
  const TAIL_LINES := 40
  const MARKER_LINES := 3

  datatype BlockKind = Evidence | ToolResult | ModelTurn
  datatype Block = Block(kind: BlockKind, origin: string, body: string)
  datatype Prefix = Prefix(policy: string, repoCard: string, repoMap: string, taskCard: string)
  datatype Budget = Budget(prefix: int, log: int, output: int)
  datatype Tail = Tail(instruction: string, tokensUsed: int, tokensRemaining: int, retry: int)
  datatype Role = System | User | Assistant
  datatype Message = Message(role: Role, content: string)
  datatype Error = InvalidFence | NoRoom | PrefixTooLong

  function Format(n: int): string { if n < 0 then "-" + Decimal.Itoa(-n) else Decimal.Itoa(n) }

  // Truncation, at fetch time and once.

  function Notice(omitted: nat): string { "... " + Decimal.Itoa(omitted) + " lines omitted at fetch time ..." }

  function Truncate(kind: BlockKind, body: string): string {
    if kind != ToolResult then body
    else
      var lines := Split(body);
      if |lines| <= HEAD_LINES + TAIL_LINES + MARKER_LINES then body
      else
        var head, tail := lines[..HEAD_LINES], lines[|lines| - TAIL_LINES..];
        var omitted := |lines| - HEAD_LINES - TAIL_LINES;
        Join(head) + ("\n\n" + Notice(omitted) + "\n\n") + Join(tail)
  }

  lemma NoticeIsOneLine(omitted: nat)
    ensures '\n' !in Notice(omitted)
  {
    var front, digits, back := "... ", Decimal.Itoa(omitted), " lines omitted at fetch time ...";
    assert '\n' !in front && '\n' !in back;
    assert '\n' !in digits;
    assert Notice(omitted) == front + digits + back;
  }

  lemma MarkerJoins(head: seq<string>, notice: string, tail: seq<string>)
    requires head != [] && tail != []
    ensures Join(head + ["", notice, ""] + tail) == Join(head) + ("\n\n" + notice + "\n\n") + Join(tail)
  {
    var marker := ["", notice, ""];
    JoinConcat(head, marker);
    JoinConcat(head + marker, tail);
    assert marker[1..] == [notice, ""] && [notice, ""][1..] == [""];
    assert Join([""]) == "";
    assert Join([notice, ""]) == notice + "\n";
    assert Join(marker) == "\n" + (notice + "\n");
  }

  /** A truncated tool result is the first 60 lines, a notice of how many are missing, and the last 40. */
  lemma TruncatedLines(body: string)
    requires |Split(body)| > HEAD_LINES + TAIL_LINES + MARKER_LINES
    ensures var lines := Split(body);
            Split(Truncate(ToolResult, body))
            == lines[..60] + ["", Notice(|lines| - 100), ""] + lines[|lines| - 40..]
    ensures |Split(Truncate(ToolResult, body))| == 103
  {
    var lines := Split(body);
    var head, tail, notice := lines[..HEAD_LINES], lines[|lines| - TAIL_LINES..], Notice(|lines| - 100);
    MarkerJoins(head, notice, tail);
    NoticeIsOneLine(|lines| - 100);
    var kept := head + ["", notice, ""] + tail;
    forall l | l in kept ensures '\n' !in l {
      assert l in head || l in ["", notice, ""] || l in tail;
      assert l in lines || l == "" || l == notice;
    }
    SplitOfJoin(kept);
  }

  /** No later pass over a stored body can change it. */
  lemma TruncateIdempotent(kind: BlockKind, body: string)
    ensures Truncate(kind, Truncate(kind, body)) == Truncate(kind, body)
  {
    if kind == ToolResult && |Split(body)| > HEAD_LINES + TAIL_LINES + MARKER_LINES {
      TruncatedLines(body);
    }
  }

  /** The notice tells how many lines are missing: it holds their number, and no two numbers give one notice. */
  lemma NoticeTells(m: nat, n: nat)
    ensures Notice(m)[4..4 + |Decimal.Itoa(m)|] == Decimal.Itoa(m)
    ensures Notice(m) == Notice(n) ==> m == n
  {
    NoticeHolds(Decimal.Itoa(m), " lines omitted at fetch time ...");
    NoticeHolds(Decimal.Itoa(n), " lines omitted at fetch time ...");
    if Notice(m) == Notice(n) {
      assert |Decimal.Itoa(m)| == |Decimal.Itoa(n)|;
      Decimal.ItoaInjective(m, n);
    }
  }

  lemma NoticeHolds(digits: string, back: string)
    ensures ("... " + digits + back)[4..4 + |digits|] == digits
  {
  }

  /** Truncation changes nothing but tool results of more than 103 lines. */
  lemma TruncatesExactly(kind: BlockKind, body: string)
    ensures Truncate(kind, body) != body <==> kind == ToolResult && |Split(body)| > 103
  {
    if kind == ToolResult && |Split(body)| > 103 {
      TruncatedLines(body);
    }
  }

  /** The four-byte estimate used for admission. */
  function EstimateTokens(s: string): nat { if s == [] then 0 else |s| / 4 + 1 }

  /** Marks repository content as data: the per-run token, and the sentence that explains it. */
  datatype Fence = Fence(nonce: string, preamble: string) {
    predicate Valid() { nonce != "" }

    function Wrap(origin: string, body: string): string {
      "<<<UNTRUSTED " + nonce + " " + origin + ">>>" + "\n" + Neutralise(body) + "\n"
      + "<<<END UNTRUSTED " + nonce + ">>>"
    }
  }

  /** strings.ReplaceAll for a non-empty pattern. */
  function ReplaceAll(s: string, pattern: string, substitute: string): string
    requires pattern != []
    decreases |s|
  {
    if |s| < |pattern| then s
    else if s[..|pattern|] == pattern then substitute + ReplaceAll(s[|pattern|..], pattern, substitute)
    else [s[0]] + ReplaceAll(s[1..], pattern, substitute)
  }

  const BEGIN_MARK := "<<<UNTRUSTED"
  const BEGIN_SAFE := "<<!UNTRUSTED"
  const END_MARK := "<<<END UNTRUSTED"
  const END_SAFE := "<<!END UNTRUSTED"

  function Neutralise(body: string): string {
    ReplaceAll(ReplaceAll(body, END_MARK, END_SAFE), BEGIN_MARK, BEGIN_SAFE)
  }

  predicate OccursAt(s: string, i: nat, w: string) { i + |w| <= |s| && s[i..i + |w|] == w }

  ghost predicate Free(s: string, w: string) { forall i: nat :: !OccursAt(s, i, w) }

  /** No w ends inside what is put in before the character at, and that character is not in w. */
  ghost predicate EndsApart(substitute: string, at: nat, w: string) {
    && w != [] && at < |substitute| && (forall k | 0 <= k < |w| :: w[k] != substitute[at])
    && forall k | 0 <= k < at :: substitute[k] != w[|w| - 1]
  }

  /** Nor does one begin after it. */
  ghost predicate KeepsApart(substitute: string, at: nat, w: string) {
    EndsApart(substitute, at, w) && forall k | at < k < |substitute| :: substitute[k] != w[0]
  }

  lemma Differs(s: string, i: nat, w: string, k: nat)
    requires k < |w| && i + |w| <= |s| && s[i + k] != w[k]
    ensures !OccursAt(s, i, w)
  {
    assert s[i..i + |w|][k] == s[i + k];
  }

  lemma ShiftedAt(front: string, s: string, i: nat, w: string)
    ensures OccursAt(front + s, |front| + i, w) <==> OccursAt(s, i, w)
  {
    if i + |w| <= |s| {
      assert (front + s)[|front| + i..|front| + i + |w|] == s[i..i + |w|];
    }
  }

  lemma BeginsWith(c: char, s: string, w: string)
    requires w != []
    ensures OccursAt([c] + s, 0, w) <==> c == w[0] && OccursAt(s, 0, w[1..])
  {
    if |w| <= |s| + 1 {
      assert ([c] + s)[..|w|] == [c] + s[..|w| - 1];
      assert w == [w[0]] + w[1..];
    }
  }

  /** Inside what was put in, or across its end, no w occurs. */
  lemma NotAcross(substitute: string, rest: string, at: nat, w: string, i: nat)
    requires EndsApart(substitute, at, w) && i < |substitute| && (i <= at || KeepsApart(substitute, at, w))
    ensures !OccursAt(substitute + rest, i, w)
  {
    if i + |w| <= |substitute + rest| {
      Differs(substitute + rest, i, w, if i > at then 0 else if at < i + |w| then at - i else |w| - 1);
    }
  }

  /** A text that stands at the front after replacing stood there before. */
  lemma {:induction false} FrontWasThere(s: string, pattern: string, substitute: string, at: nat, w: string)
    requires pattern != [] && EndsApart(substitute, at, w)
    ensures OccursAt(ReplaceAll(s, pattern, substitute), 0, w) ==> OccursAt(s, 0, w)
    decreases |s|
  {
    if |s| >= |pattern| {
      if s[..|pattern|] == pattern {
        NotAcross(substitute, ReplaceAll(s[|pattern|..], pattern, substitute), at, w, 0);
      } else {
        BeginsWith(s[0], ReplaceAll(s[1..], pattern, substitute), w);
        BeginsWith(s[0], s[1..], w);
        assert s == [s[0]] + s[1..];
        if |w| > 1 {
          FrontWasThere(s[1..], pattern, substitute, at, w[1..]);
        }
      }
    }
  }

  /** A part that is put before a text free of w, and neither begins nor is crossed by a w, leaves it free. */
  lemma FreeAfter(done: string, rest: string, w: string)
    requires Free(rest, w) && forall i: nat | i < |done| :: !OccursAt(done + rest, i, w)
    ensures Free(done + rest, w)
  {
    forall i: nat ensures !OccursAt(done + rest, i, w) {
      if i >= |done| {
        ShiftedAt(done, rest, i - |done|, w);
      }
    }
  }

  lemma RestIsFree(front: string, s: string, w: string)
    requires Free(front + s, w)
    ensures Free(s, w)
  {
    forall i: nat ensures !OccursAt(s, i, w) {
      ShiftedAt(front, s, i, w);
    }
  }

  /** Replacing neither leaves the pattern anywhere nor makes a text that was not there. */
  lemma {:induction false} ReplacedIsFree(s: string, pattern: string, substitute: string, at: nat, w: string)
    requires pattern != [] && KeepsApart(substitute, at, w) && (w == pattern || Free(s, w))
    ensures Free(ReplaceAll(s, pattern, substitute), w)
    decreases |s|
  {
    if |s| >= |pattern| {
      var n := if s[..|pattern|] == pattern then |pattern| else 1;
      assert s == s[..n] + s[n..];
      if w != pattern {
        RestIsFree(s[..n], s[n..], w);
      }
      ReplacedIsFree(s[n..], pattern, substitute, at, w);
      var rest := ReplaceAll(s[n..], pattern, substitute);
      if s[..|pattern|] == pattern {
        forall i: nat | i < |substitute| ensures !OccursAt(substitute + rest, i, w) {
          NotAcross(substitute, rest, at, w, i);
        }
        FreeAfter(substitute, rest, w);
      } else {
        FrontWasThere(s, pattern, substitute, at, w);
        FreeAfter([s[0]], rest, w);
      }
    }
  }

  /** Without the pattern a text stays as it is. */
  lemma {:induction false} FreeIsKept(s: string, pattern: string, substitute: string)
    requires pattern != [] && Free(s, pattern)
    ensures ReplaceAll(s, pattern, substitute) == s
    decreases |s|
  {
    if |s| >= |pattern| {
      assert !OccursAt(s, 0, pattern);
      assert s == [s[0]] + s[1..];
      RestIsFree([s[0]], s[1..], pattern);
      FreeIsKept(s[1..], pattern, substitute);
    }
  }

  lemma MarksKeptApart()
    ensures KeepsApart(END_SAFE, 2, END_MARK) && KeepsApart(BEGIN_SAFE, 2, BEGIN_MARK)
    ensures KeepsApart(BEGIN_SAFE, 2, END_MARK)
  {
  }

  /** Fenced content can neither open nor close a fence: neither marker is anywhere in it, and content that holds no
      marker is shown as it is. */
  lemma NoMarkerSurvives(body: string)
    ensures Free(Neutralise(body), BEGIN_MARK) && Free(Neutralise(body), END_MARK)
    ensures Free(body, BEGIN_MARK) && Free(body, END_MARK) ==> Neutralise(body) == body
  {
    MarksKeptApart();
    var once := ReplaceAll(body, END_MARK, END_SAFE);
    ReplacedIsFree(body, END_MARK, END_SAFE, 2, END_MARK);
    ReplacedIsFree(once, BEGIN_MARK, BEGIN_SAFE, 2, BEGIN_MARK);
    ReplacedIsFree(once, BEGIN_MARK, BEGIN_SAFE, 2, END_MARK);
    if Free(body, BEGIN_MARK) && Free(body, END_MARK) {
      FreeIsKept(body, END_MARK, END_SAFE);
      FreeIsKept(body, BEGIN_MARK, BEGIN_SAFE);
    }
  }

  function KindText(kind: BlockKind): string {
    match kind
    case Evidence => "evidence"
    case ToolResult => "tool_result"
    case ModelTurn => "model_turn"
  }

  function Render(fence: Fence, b: Block): string {
    if b.kind == ModelTurn then b.body
    else fence.Wrap(if b.origin == "" then KindText(b.kind) else b.origin, b.body)
  }

  function RenderTail(t: Tail): string {
    t.instruction
    + if t.tokensUsed > 0 || t.tokensRemaining > 0 || t.retry > 0
      then "\n\nBudget: " + Format(t.tokensUsed) + " tokens used, " + Format(t.tokensRemaining)
           + " remaining, attempt " + Format(t.retry + 1) + "."
      else ""
  }

  /** The tail begins with the instruction, and is no more than that exactly when there is no budget to note. */
  lemma TailBegins(t: Tail)
    ensures t.instruction <= RenderTail(t)
    ensures RenderTail(t) == t.instruction <==> t.tokensUsed <= 0 && t.tokensRemaining <= 0 && t.retry <= 0
  {
  }

  /** One section of the frozen user turn, after what is already there. */
  function AddSection(text: string, heading: string, body: string): string {
    if Blank(body) then text
    else text + (if text != [] then "\n\n" else "") + "## " + heading + "\n" + body
  }

  function FrozenUser(p: Prefix): string {
    AddSection(AddSection(AddSection([], "REPOSITORY", p.repoCard), "REPOSITORY MAP", p.repoMap), "TASK", p.taskCard)
  }

  ghost predicate Shows(text: string, part: string) { exists i: nat :: OccursAt(text, i, part) }

  lemma SectionShows(text: string, heading: string, body: string, part: string)
    ensures !Blank(body) ==> Shows(AddSection(text, heading, body), body)
    ensures Shows(text, part) ==> Shows(AddSection(text, heading, body), part)
  {
    if !Blank(body) {
      var front := text + (if text != [] then "\n\n" else "") + "## " + heading + "\n";
      assert AddSection(text, heading, body) == front + body;
      assert OccursAt(front + body, |front|, body);
      if Shows(text, part) {
        var i: nat :| OccursAt(text, i, part);
        var all := AddSection(text, heading, body);
        assert all[..|text|] == text;
        assert all[i..i + |part|] == text[i..i + |part|];
        assert OccursAt(all, i, part);
      }
    }
  }

  /** The frozen user turn shows the repository card, the map and the task, each unless it is blank. */
  lemma FrozenTurnShows(p: Prefix)
    ensures !Blank(p.repoCard) ==> Shows(FrozenUser(p), p.repoCard)
    ensures !Blank(p.repoMap) ==> Shows(FrozenUser(p), p.repoMap)
    ensures !Blank(p.taskCard) ==> Shows(FrozenUser(p), p.taskCard)
    ensures forall fence: Fence ::
              Shows(Frozen(p, fence)[0].content, p.policy) && Shows(Frozen(p, fence)[0].content, fence.preamble)
              && Frozen(p, fence)[0].role == System && Frozen(p, fence)[1] == Message(User, FrozenUser(p))
  {
    forall fence: Fence
      ensures Shows(Frozen(p, fence)[0].content, p.policy) && Shows(Frozen(p, fence)[0].content, fence.preamble)
    {
      var text := p.policy + "\n\n" + fence.preamble;
      assert OccursAt(text, 0, p.policy) && OccursAt(text, |p.policy| + 2, fence.preamble);
    }
    var one := AddSection([], "REPOSITORY", p.repoCard);
    var two := AddSection(one, "REPOSITORY MAP", p.repoMap);
    SectionShows([], "REPOSITORY", p.repoCard, p.repoCard);
    SectionShows(one, "REPOSITORY MAP", p.repoMap, p.repoMap);
    SectionShows(one, "REPOSITORY MAP", p.repoMap, p.repoCard);
    SectionShows(two, "TASK", p.taskCard, p.taskCard);
    SectionShows(two, "TASK", p.taskCard, p.repoMap);
    SectionShows(two, "TASK", p.taskCard, p.repoCard);
  }

  function PrefixTokens(p: Prefix, fence: Fence): nat {
    EstimateTokens(p.policy) + EstimateTokens(fence.preamble) + EstimateTokens(FrozenUser(p))
  }

  function MessageOf(fence: Fence, b: Block): Message {
    Message(if b.kind == ModelTurn then Assistant else User, Render(fence, b))
  }

  /** The request without its tail: two frozen messages, then the log in order. */
  ghost function Frozen(p: Prefix, fence: Fence): seq<Message> {
    [Message(System, p.policy + "\n\n" + fence.preamble), Message(User, FrozenUser(p))]
  }

  ghost function Body(p: Prefix, fence: Fence, log: seq<Block>): seq<Message> {
    Frozen(p, fence) + seq(|log|, i requires 0 <= i < |log| => MessageOf(fence, log[i]))
  }

  lemma BodySnoc(p: Prefix, fence: Fence, log: seq<Block>, i: nat)
    requires i < |log|
    ensures Body(p, fence, log[..i + 1]) == Body(p, fence, log[..i]) + [MessageOf(fence, log[i])]
  {
    var entries := seq(i, k requires 0 <= k < i => MessageOf(fence, log[..i][k]));
    assert seq(i + 1, k requires 0 <= k < i + 1 => MessageOf(fence, log[..i + 1][k])) == entries + [MessageOf(fence, log[i])];
  }

  lemma BodyBeginsFrozen(p: Prefix, fence: Fence, log: seq<Block>)
    ensures |Frozen(p, fence)| == 2 <= |Body(p, fence, log)| && Body(p, fence, log)[..2] == Frozen(p, fence)
  {
  }

  ghost function LogCost(fence: Fence, log: seq<Block>): nat {
    if log == [] then 0 else LogCost(fence, log[..|log| - 1]) + EstimateTokens(Render(fence, log[|log| - 1]))
  }

  // What the budgets bound: four bytes a token.

  ghost function Bytes(msgs: seq<Message>): nat {
    if msgs == [] then 0 else Bytes(msgs[..|msgs| - 1]) + |msgs[|msgs| - 1].content|
  }

  lemma BytesSnoc(msgs: seq<Message>, m: Message)
    ensures Bytes(msgs + [m]) == Bytes(msgs) + |m.content|
  {
    assert (msgs + [m])[..|msgs|] == msgs;
  }

  lemma FrozenBytes(p: Prefix, fence: Fence)
    ensures 4 * PrefixTokens(p, fence) - 12 <= Bytes(Frozen(p, fence)) <= 4 * PrefixTokens(p, fence) + 2
  {
    var system, user := Frozen(p, fence)[0], Frozen(p, fence)[1];
    assert Frozen(p, fence) == [] + [system] + [user];
    BytesSnoc([], system);
    BytesSnoc([] + [system], user);
  }

  /** A request without its tail holds at most four bytes for each token of the two estimates, and two for the break
      between its system texts; and no estimate exceeds its text by more than four bytes a part. */
  lemma {:induction false} RequestBytes(p: Prefix, fence: Fence, log: seq<Block>)
    ensures Bytes(Body(p, fence, log)) <= 4 * (PrefixTokens(p, fence) + LogCost(fence, log)) + 2
    ensures 4 * (PrefixTokens(p, fence) + LogCost(fence, log)) <= Bytes(Body(p, fence, log)) + 12 + 4 * |log|
  {
    if log == [] {
      FrozenBytes(p, fence);
      assert Body(p, fence, log) == Frozen(p, fence);
    } else {
      var front, b := log[..|log| - 1], log[|log| - 1];
      RequestBytes(p, fence, front);
      BodySnoc(p, fence, log, |log| - 1);
      assert log[..|log|] == log;
      BytesSnoc(Body(p, fence, front), MessageOf(fence, b));
    }
  }

  /** Only what the model said itself is sent as its own, and as it was; everything else is sent as a user's, between
      an opening and a closing marker. */
  lemma FencedUnlessOwn(fence: Fence, b: Block) returns (head: string, tail: string)
    ensures var m := MessageOf(fence, b);
            && (m.role == Assistant <==> b.kind == ModelTurn) && m.role != System
            && (b.kind == ModelTurn ==> m.content == b.body)
            && (b.kind != ModelTurn ==>
                  m.content == head + Neutralise(b.body) + tail
                  && OccursAt(head, 0, BEGIN_MARK) && OccursAt(tail, 1, END_MARK))
  {
    var origin := if b.origin == "" then KindText(b.kind) else b.origin;
    head := "<<<UNTRUSTED " + fence.nonce + " " + origin + ">>>" + "\n";
    tail := "\n" + "<<<END UNTRUSTED " + fence.nonce + ">>>";
    if b.kind != ModelTurn {
      WrapParts(fence, origin, b.body, head, tail);
      MarkedEnds(fence.nonce, origin);
    }
  }

  lemma WrapParts(fence: Fence, origin: string, body: string, head: string, tail: string)
    requires head == "<<<UNTRUSTED " + fence.nonce + " " + origin + ">>>" + "\n"
    requires tail == "\n" + "<<<END UNTRUSTED " + fence.nonce + ">>>"
    ensures fence.Wrap(origin, body) == head + Neutralise(body) + tail
  {
  }

  lemma MarkedEnds(nonce: string, origin: string)
    ensures OccursAt("<<<UNTRUSTED " + nonce + " " + origin + ">>>" + "\n", 0, BEGIN_MARK)
    ensures OccursAt("\n" + "<<<END UNTRUSTED " + nonce + ">>>", 1, END_MARK)
  {
  }

  function Stored(b: Block): Block { b.(body := Truncate(b.kind, b.body)) }

  /** What the log is after a run of appends, each admitted or refused on its own. */
  ghost function Appended(fence: Fence, room: int, log: seq<Block>, bs: seq<Block>): seq<Block> {
    if bs == [] then log
    else
      var before := Appended(fence, room, log, bs[..|bs| - 1]);
      var grown := before + [Stored(bs[|bs| - 1])];
      if LogCost(fence, grown) <= room then grown else before
  }

  /** Every earlier request, without its tail, is an exact prefix of every later one in the phase. */
  lemma {:induction false} RequestsExtend(p: Prefix, fence: Fence, room: int, bs: seq<Block>, k: nat)
    requires k <= |bs|
    ensures Body(p, fence, Appended(fence, room, [], bs[..k])) <= Body(p, fence, Appended(fence, room, [], bs))
    decreases |bs|
  {
    if k == |bs| {
      assert bs[..k] == bs;
    } else {
      var front := bs[..|bs| - 1];
      RequestsExtend(p, fence, room, front, k);
      assert front[..k] == bs[..k];
      BodyExtends(p, fence, Appended(fence, room, [], front), Stored(bs[|bs| - 1]));
    }
  }

  lemma BodyExtends(p: Prefix, fence: Fence, log: seq<Block>, b: Block)
    ensures Body(p, fence, log) <= Body(p, fence, log + [b])
  {
  }

  /** No run of appends overspends the log, and refusing never loses an entry. */
  lemma {:induction false} LogNeverOverspent(fence: Fence, room: int, bs: seq<Block>)
    requires room >= 0
    ensures LogCost(fence, Appended(fence, room, [], bs)) <= room
  {
    if bs != [] {
      LogNeverOverspent(fence, room, bs[..|bs| - 1]);
    }
  }

  lemma StoredAreShort(log: seq<Block>)
    requires forall b | b in log :: Stored(b) == b
    ensures forall b | b in log && b.kind == ToolResult :: |Split(b.body)| <= 103
  {
    forall b | b in log && b.kind == ToolResult ensures |Split(b.body)| <= 103 {
      TruncatesExactly(b.kind, b.body);
    }
  }

  class Pack {
    const prefix: Prefix
    const fence: Fence
    const budget: Budget
    var log: seq<Block>
    var logTokens: nat

    /** The running estimate is the exact sum, within the budget, and every stored body is final. */
    ghost predicate Valid()
      reads this
    {
      && fence.Valid() && budget.log > 0 && PrefixTokens(prefix, fence) <= budget.prefix
      && logTokens == LogCost(fence, log) <= budget.log
      && forall b | b in log :: Stored(b) == b
    }

    constructor (prefix: Prefix, fence: Fence, budget: Budget)
      requires fence.Valid() && budget.log > 0 && PrefixTokens(prefix, fence) <= budget.prefix
      ensures Valid() && this.prefix == prefix && this.fence == fence && this.budget == budget && log == []
    {
      this.prefix, this.fence, this.budget := prefix, fence, budget;
      log, logTokens := [], 0;
    }

    method Append(b: Block) returns (ok: bool)
      requires Valid()
      modifies this
      ensures Valid()
      ensures ok <==> old(LogCost(fence, log + [Stored(b)])) <= budget.log
      ensures log == Appended(fence, budget.log, old(log), [b])
      ensures log == if ok then old(log) + [Block(b.kind, b.origin, Truncate(b.kind, b.body))] else old(log)
      ensures forall x | x in log && x.kind == ToolResult :: |Split(x.body)| <= 103
    {
      var stored := b.(body := Truncate(b.kind, b.body));
      TruncateIdempotent(b.kind, b.body);
      var cost := EstimateTokens(Render(fence, stored));
      assert (log + [stored])[..|log|] == log;
      assert [b][..0] == [];
      if logTokens + cost > budget.log {
        StoredAreShort(log);
        return false;
      }
      log := log + [stored];
      logTokens := logTokens + cost;
      StoredAreShort(log);
      ok := true;
    }

    /** Fits answers what Append would, and changes nothing. */
    method Fits(b: Block) returns (fits: bool)
      requires Valid()
      ensures fits <==> LogCost(fence, log + [Stored(b)]) <= budget.log
    {
      var stored := b.(body := Truncate(b.kind, b.body));
      assert (log + [stored])[..|log|] == log;
      fits := logTokens + EstimateTokens(Render(fence, stored)) <= budget.log;
    }

    /** One message per log entry, after the frozen ones. */
    method WithLog(frozen: seq<Message>) returns (msgs: seq<Message>)
      requires frozen == Frozen(prefix, fence)
      ensures msgs == Body(prefix, fence, log)
    {
      msgs := frozen;
      for i := 0 to |log|
        invariant msgs == Body(prefix, fence, log[..i])
      {
        BodySnoc(prefix, fence, log, i);
        var role := User;
        if log[i].kind == ModelTurn {
          role := Assistant;
        }
        msgs := msgs + [Message(role, Render(fence, log[i]))];
      }
      assert log[..|log|] == log;
    }

    method Messages(tail: Tail) returns (msgs: seq<Message>, prefixCount: nat)
      requires Valid()
      ensures msgs == Body(prefix, fence, log)
                      + if Blank(RenderTail(tail)) then [] else [Message(User, RenderTail(tail))]
      ensures prefixCount == 2 <= |msgs| && msgs[..prefixCount] == Frozen(prefix, fence)
    {
      msgs := [Message(System, prefix.policy + "\n\n" + fence.preamble)];
      msgs := msgs + [Message(User, FrozenUser(prefix))];
      prefixCount := |msgs|;
      msgs := WithLog(msgs);
      BodyBeginsFrozen(prefix, fence, log);
      msgs := WithTail(msgs, RenderTail(tail));
    }

    method WithTail(body: seq<Message>, rendered: string) returns (msgs: seq<Message>)
      ensures msgs == body + if Blank(rendered) then [] else [Message(User, rendered)]
    {
      msgs := body;
      if !Blank(rendered) {
        msgs := msgs + [Message(User, rendered)];
      }
    }
  }

  datatype Built = Built(pack: Pack) | Refused(error: Error)

  method New(prefix: Prefix, fence: Fence, budget: Budget) returns (r: Built)
    ensures r == Refused(InvalidFence) <==> !fence.Valid()
    ensures r == Refused(NoRoom) <==> fence.Valid() && (budget.prefix <= 0 || budget.log <= 0)
    ensures r == Refused(PrefixTooLong) <==>
            fence.Valid() && budget.prefix > 0 && budget.log > 0 && PrefixTokens(prefix, fence) > budget.prefix
    ensures r.Built? <==>
            fence.Valid() && budget.prefix > 0 && budget.log > 0 && PrefixTokens(prefix, fence) <= budget.prefix
    ensures r.Built? ==> fresh(r.pack) && r.pack.Valid() && r.pack.log == []
                         && r.pack.prefix == prefix && r.pack.fence == fence && r.pack.budget == budget
  {
    if !fence.Valid() {
      return Refused(InvalidFence);
    }
    if budget.prefix <= 0 || budget.log <= 0 {
      return Refused(NoRoom);
    }
    var used := PrefixTokens(prefix, fence);
    if used > budget.prefix {
      return Refused(PrefixTooLong);
    }
    var p := new Pack(prefix, fence, budget);
    r := Built(p);
  }

  /** A new phase keeps P0 to P2, and P3 too unless a card is given; its requests open as before. */
  method Repack(p: Pack, taskCard: string, budget: Budget) returns (r: Built)
    requires p.Valid()
    ensures r.Built? ==>
            && fresh(r.pack) && r.pack.Valid() && r.pack.log == [] && r.pack.budget == budget && r.pack.fence == p.fence
            && r.pack.prefix == p.prefix.(taskCard := if Blank(taskCard) then p.prefix.taskCard else taskCard)
            && Frozen(r.pack.prefix, r.pack.fence)[0] == Frozen(p.prefix, p.fence)[0]
            && (Blank(taskCard) || taskCard == p.prefix.taskCard ==>
                  Frozen(r.pack.prefix, r.pack.fence) == Frozen(p.prefix, p.fence))
    ensures r.Refused? <==>
            budget.prefix <= 0 || budget.log <= 0
            || PrefixTokens(p.prefix.(taskCard := if Blank(taskCard) then p.prefix.taskCard else taskCard), p.fence)
               > budget.prefix
  {
    var next := p.prefix;
    if !Blank(taskCard) {
      next := next.(taskCard := taskCard);
    }
    r := New(next, p.fence, budget);
  }
}
