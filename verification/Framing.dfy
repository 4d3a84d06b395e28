/** The base protocol of the Language Server Protocol: printing frames and reading them back.
    Text is bytes; header lines are ASCII, as section "Base Protocol" of LSP 3.17 has them. */
module Framing {
  import Decimal
  import opened Text
  import opened Wrappers

  const HEADER := "Content-Length"
  const MAX_FRAME := 64 * 1024 * 1024

  /** The first index of c in s at or after i, or -1. */
  function IndexFrom(s: string, c: char, i: nat): (k: int)
    requires i <= |s|
    ensures k == -1 || (i <= k < |s| && s[k] == c)
    ensures forall j | i <= j < (if k == -1 then |s| else k) :: s[j] != c
    decreases |s| - i
  {
    if i == |s| then -1 else if s[i] == c then i else IndexFrom(s, c, i + 1)
  }

  function Index(s: string, c: char): int { IndexFrom(s, c, 0) }

  lemma IndexIs(s: string, c: char, k: nat)
    requires k < |s| && s[k] == c && forall j | 0 <= j < k :: s[j] != c
    ensures Index(s, c) == k
  {
  }

  predicate IsBreak(c: char) { c == '\r' || c == '\n' }

  /** strings.TrimRight(s, "\r\n"). */
  function TrimBreaks(s: string): string {
    if s != [] && IsBreak(s[|s| - 1]) then TrimBreaks(s[..|s| - 1]) else s
  }

  function Lower(c: char): char { if 'A' <= c <= 'Z' then c - 'A' + 'a' else c }

  /** strings.EqualFold on ASCII. */
  predicate EqualFold(a: string, b: string) {
    |a| == |b| && forall i | 0 <= i < |a| :: Lower(a[i]) == Lower(b[i])
  }

  /** Two texts match when they differ at most in the case of their letters. */
  lemma CaseIsIgnored(a: string, b: string)
    ensures EqualFold(a, b) <==>
            |a| == |b| && forall i | 0 <= i < |a| ::
              || a[i] == b[i]
              || ('A' <= a[i] <= 'Z' && b[i] as int == a[i] as int + 32)
              || ('A' <= b[i] <= 'Z' && a[i] as int == b[i] as int + 32)
  {
  }

  /** Whether a trimmed, non-empty header line sets the content length. */
  predicate SetsLength(line: string) {
    Index(line, ':') >= 0 && EqualFold(TrimSpace(line[..Index(line, ':')]), HEADER)
  }

  datatype Error = EndOfInput | BadLength | NoLength | TooLarge

  /** What reading one frame returns, and what is left unread. */
  datatype Read = Body(body: string, rest: string) | Failed(error: Error, rest: string)

  function ReadBody(s: string, length: int): Read {
    if length < 0 then Failed(NoLength, s)
    else if length > MAX_FRAME then Failed(TooLarge, s)
    else if length > |s| then Failed(EndOfInput, [])
    else Body(s[..length], s[length..])
  }

  /** The length after one more header line, or None when the line sets one that is no number. */
  function Scan(line: string, length: int): Option<int> {
    if SetsLength(line) then Decimal.Atoi(TrimSpace(line[Index(line, ':') + 1..])) else Some(length)
  }

  /** One frame at the front of s, when the header lines read so far say length. */
  function ReadFrame(s: string, length: int): (r: Read)
    ensures r.Body? ==> |r.rest| < |s|
    decreases |s|
  {
    var end := Index(s, '\n');
    if end < 0 then Failed(EndOfInput, [])
    else
      var line, rest := TrimBreaks(s[..end + 1]), s[end + 1..];
      if line == [] then ReadBody(rest, length)
      else
        match Scan(line, length)
        case None => Failed(BadLength, rest)
        case Some(n) => ReadFrame(rest, n)
  }

  /** A buffered reader over the server's output. */
  class Reader {
    var rest: string

    constructor (input: string)
      ensures rest == input
    {
      rest := input;
    }

    /** ReadString('\n'): up to and including the next newline. */
    method ReadLine() returns (line: string, ok: bool)
      modifies this
      ensures ok <==> Index(old(rest), '\n') >= 0
      ensures ok ==> line == old(rest)[..Index(old(rest), '\n') + 1] && rest == old(rest)[|line|..]
      ensures !ok ==> rest == []
    {
      var end := Index(rest, '\n');
      ok := end >= 0;
      if ok {
        line, rest := rest[..end + 1], rest[end + 1..];
      } else {
        line, rest := rest, [];
      }
    }

    /** One line of a message: a header, after which there is more to read, or the end of the headers or an error. */
    method ReadHeader(length: int) returns (more: bool, n: int, r: Read)
      modifies this
      ensures more ==> |rest| < |old(rest)| && ReadFrame(rest, n) == ReadFrame(old(rest), length)
      ensures !more ==> r == ReadFrame(old(rest), length) && rest == r.rest
    {
      more, n, r := false, length, Failed(EndOfInput, []);
      var line, ok := ReadLine();
      if !ok {
        return;
      }
      line := TrimBreaks(line);
      if line == [] {
        r := ReadBody(rest, length);
        rest := r.rest;
        return;
      }
      var scanned := Scan(line, length);
      if scanned.None? {
        r := Failed(BadLength, rest);
        return;
      }
      more, n := true, scanned.value;
    }

    /** readMessage. */
    method ReadMessage() returns (r: Read)
      modifies this
      ensures r == ReadFrame(old(rest), -1)
      ensures rest == r.rest
    {
      var length, more := -1, true;
      r := Failed(EndOfInput, []);
      while more
        invariant more ==> ReadFrame(rest, length) == ReadFrame(old(rest), -1)
        invariant !more ==> r == ReadFrame(old(rest), -1) && rest == r.rest
        decreases more, |rest|
      {
        more, length, r := ReadHeader(length);
      }
    }
  }

  /** A frame whose length header may be spelled in any case, between other header lines. */
  datatype Frame = Frame(before: seq<string>, name: string, body: string, after: seq<string>)

  predicate IsHeaderName(name: string) {
    name != [] && !IsSpace(name[0]) && ':' !in name && '\n' !in name && EqualFold(TrimSpace(name), HEADER)
  }

  /** A header line that is neither blank nor the length. */
  predicate OtherHeader(line: string) {
    '\n' !in line && TrimBreaks(line) != [] && !SetsLength(TrimBreaks(line))
  }

  predicate WellFormed(f: Frame) {
    && |f.body| <= MAX_FRAME && IsHeaderName(f.name)
    && (forall h | h in f.before :: OtherHeader(h))
    && (forall h | h in f.after :: OtherHeader(h))
  }

  function Lines(hs: seq<string>): string {
    if hs == [] then [] else hs[0] + "\r\n" + Lines(hs[1..])
  }

  function CountLine(name: string, n: nat): string { name + ": " + Decimal.Itoa(n) }

  function Heads(f: Frame): string {
    Lines(f.before) + CountLine(f.name, |f.body|) + "\r\n" + Lines(f.after) + "\r\n"
  }

  function Printed(f: Frame): string { Heads(f) + f.body }

  /** A printed line is read as that line, whatever follows. */
  lemma NextLine(line: string, tail: string)
    requires '\n' !in line
    ensures Index(line + "\r\n" + tail, '\n') == |line| + 1
    ensures (line + "\r\n" + tail)[..|line| + 2] == line + "\r\n"
    ensures (line + "\r\n" + tail)[|line| + 2..] == tail
    ensures TrimBreaks(line + "\r\n") == TrimBreaks(line)
  {
    var s := line + "\r\n" + tail;
    forall j | 0 <= j < |line| + 1 ensures s[j] != '\n' {
      assert j < |line| ==> s[j] == line[j] && line[j] in line;
    }
    IndexIs(s, '\n', |line| + 1);
    assert (line + "\r\n")[..|line| + 1] == line + "\r";
    assert (line + "\r")[..|line|] == line;
    assert TrimBreaks(line + "\r\n") == TrimBreaks(line + "\r") == TrimBreaks(line);
  }

  /** Reading past one header line. */
  lemma ReadPast(line: string, tail: string, length: int, n: int)
    requires '\n' !in line && TrimBreaks(line) != [] && Scan(TrimBreaks(line), length) == Some(n)
    ensures ReadFrame(line + "\r\n" + tail, length) == ReadFrame(tail, n)
  {
    NextLine(line, tail);
  }

  /** The blank line ends the headers. */
  lemma ReadBlank(tail: string, length: int)
    ensures ReadFrame("\r\n" + tail, length) == ReadBody(tail, length)
  {
    NextLine([], tail);
    assert [] + "\r\n" + tail == "\r\n" + tail;
  }

  /** Other header lines are skipped. */
  lemma {:induction false} SkipLines(hs: seq<string>, tail: string, length: int)
    requires forall h | h in hs :: OtherHeader(h)
    ensures ReadFrame(Lines(hs) + tail, length) == ReadFrame(tail, length)
  {
    if hs == [] {
      assert Lines(hs) + tail == tail;
    } else {
      assert OtherHeader(hs[0]);
      assert Lines(hs) + tail == hs[0] + "\r\n" + (Lines(hs[1..]) + tail);
      ReadPast(hs[0], Lines(hs[1..]) + tail, length, length);
      SkipLines(hs[1..], tail, length);
    }
  }

  lemma TrimKeepsSolid(s: string)
    requires s != [] && !IsSpace(s[0]) && !IsSpace(s[|s| - 1])
    ensures TrimSpace(s) == s && TrimSpace(" " + s) == s && TrimBreaks(s) == s
  {
    assert (" " + s)[1..] == s;
    assert TrimLeft(" " + s) == TrimLeft(s) == s;
  }

  /** The name the client prints is one the reader takes. */
  lemma HeaderIsHeaderName()
    ensures IsHeaderName(HEADER)
  {
    TrimKeepsSolid(HEADER);
  }

  /** A name, a colon, a space and digits: where the colon is, and what is on its two sides. */
  lemma CutLine(name: string, digits: string)
    requires ':' !in name && '\n' !in name && digits != [] && forall c | c in digits :: Decimal.IsDigit(c)
    ensures var line := name + ": " + digits;
            && Index(line, ':') == |name| && line[..|name|] == name && line[|name| + 1..] == " " + digits
            && '\n' !in line && line[|line| - 1] == digits[|digits| - 1]
  {
    var line := name + ": " + digits;
    IndexIs(line, ':', |name|);
    forall j | 0 <= j < |line| ensures line[j] != '\n' {
      if j >= |name| + 2 {
        assert line[j] == digits[j - |name| - 2] && digits[j - |name| - 2] in digits;
      }
    }
  }

  lemma LineReads(name: string, digits: string)
    requires name != [] && !IsSpace(name[0]) && ':' !in name && '\n' !in name
    requires digits != [] && forall c | c in digits :: Decimal.IsDigit(c)
    ensures var line := name + ": " + digits;
            && TrimBreaks(line) == line && TrimSpace(line[Index(line, ':') + 1..]) == digits
  {
    var line := name + ": " + digits;
    assert digits[0] in digits && digits[|digits| - 1] in digits;
    CutLine(name, digits);
    TrimKeepsSolid(digits);
    TrimKeepsSolid(line);
  }

  lemma NamesLength(line: string, name: string)
    requires Index(line, ':') == |name| && |name| <= |line| && line[..|name|] == name
    requires EqualFold(TrimSpace(name), HEADER)
    ensures SetsLength(line)
  {
  }

  /** The line of a name and a count, with every fact the reader needs of it. */
  lemma CountLineReads(name: string, n: nat)
    requires IsHeaderName(name)
    ensures var line := CountLine(name, n);
            && '\n' !in line && TrimBreaks(line) == line != [] && SetsLength(line)
            && TrimSpace(line[Index(line, ':') + 1..]) == Decimal.Itoa(n)
  {
    CutLine(name, Decimal.Itoa(n));
    LineReads(name, Decimal.Itoa(n));
    NamesLength(CountLine(name, n), name);
  }

  /** The headers of a printed frame set its length and are consumed. */
  lemma HeadersRead(f: Frame, rest: string)
    requires WellFormed(f.(body := [])) && |f.body| <= Decimal.MAX_INT
    ensures ReadFrame(Heads(f) + rest, -1) == ReadBody(rest, |f.body|)
  {
    var line, end := CountLine(f.name, |f.body|), "\r\n" + rest;
    assert Heads(f) + rest == Lines(f.before) + (line + "\r\n" + (Lines(f.after) + end));
    SkipLines(f.before, line + "\r\n" + (Lines(f.after) + end), -1);
    CountLineReads(f.name, |f.body|);
    Decimal.AtoiOfItoa(|f.body|);
    ReadPast(line, Lines(f.after) + end, -1, |f.body|);
    SkipLines(f.after, end, |f.body|);
    ReadBlank(rest, |f.body|);
  }

  lemma HeadsFirst(f: Frame, tail: string)
    ensures Printed(f) + tail == Heads(f) + (f.body + tail)
  {
    Regroup(Heads(f), f.body, tail);
  }

  lemma Regroup(a: string, b: string, c: string)
    ensures (a + b) + c == a + (b + c)
  {
  }

  /** A printed frame reads back as its body, leaving exactly what follows it. */
  lemma FrameReadsBack(f: Frame, tail: string)
    requires WellFormed(f)
    ensures ReadFrame(Printed(f) + tail, -1) == Body(f.body, tail)
  {
    HeadersRead(f, f.body + tail);
    HeadsFirst(f, tail);
    assert (f.body + tail)[..|f.body|] == f.body && (f.body + tail)[|f.body|..] == tail;
  }

  /** A stream that ends inside a body is an end of input, never a shorter body. */
  lemma CutBodyFails(f: Frame, n: nat)
    requires WellFormed(f) && n < |f.body|
    ensures ReadFrame(Heads(f) + f.body[..n], -1) == Failed(EndOfInput, [])
  {
    HeadersRead(f, f.body[..n]);
  }

  /** Headers that set no length are refused at the blank line, with what follows left unread. */
  lemma NoLengthIsRefused(hs: seq<string>, tail: string)
    requires forall h | h in hs :: OtherHeader(h)
    ensures ReadFrame(Lines(hs) + ("\r\n" + tail), -1) == Failed(NoLength, tail)
  {
    SkipLines(hs, "\r\n" + tail, -1);
    ReadBlank(tail, -1);
  }

  /** The size limit is exact: a longer body is refused, whatever follows it. */
  lemma OversizedIsRefused(f: Frame, tail: string)
    requires WellFormed(f.(body := [])) && MAX_FRAME < |f.body| <= Decimal.MAX_INT
    ensures ReadFrame(Printed(f) + tail, -1) == Failed(TooLarge, f.body + tail)
  {
    HeadersRead(f, f.body + tail);
    HeadsFirst(f, tail);
  }

  function PrintedAll(fs: seq<Frame>): string { if fs == [] then [] else Printed(fs[0]) + PrintedAll(fs[1..]) }

  datatype Reads = Reads(bodies: seq<string>, rest: string)

  /** Frames until one cannot be read. */
  function ReadAll(s: string): Reads
    decreases |s|
  {
    match ReadFrame(s, -1)
    case Failed(_, rest) => Reads([], rest)
    case Body(body, rest) => var more := ReadAll(rest); Reads([body] + more.bodies, more.rest)
  }

  function Bodies(fs: seq<Frame>): seq<string> { seq(|fs|, i requires 0 <= i < |fs| => fs[i].body) }

  /** Any concatenation of printed frames reads back as the bodies in order, with nothing left over. */
  lemma {:induction false} FramesReadBack(fs: seq<Frame>)
    requires forall f | f in fs :: WellFormed(f)
    ensures ReadAll(PrintedAll(fs)) == Reads(Bodies(fs), [])
  {
    if fs == [] {
      assert Index([], '\n') == -1;
    } else {
      FrameReadsBack(fs[0], PrintedAll(fs[1..]));
      FramesReadBack(fs[1..]);
      assert Bodies(fs) == [fs[0].body] + Bodies(fs[1..]);
      assert |Printed(fs[0])| > 0;
    }
  }

  lemma {:induction false} PrintedAllSnoc(fs: seq<Frame>, f: Frame)
    ensures PrintedAll(fs + [f]) == PrintedAll(fs) + Printed(f)
  {
    if fs == [] {
      assert (fs + [f])[1..] == [] && PrintedAll([]) == [];
    } else {
      assert (fs + [f])[1..] == fs[1..] + [f];
      PrintedAllSnoc(fs[1..], f);
    }
  }

  /** The frames a client prints. */
  function Plain(bodies: seq<string>): seq<Frame> {
    seq(|bodies|, i requires 0 <= i < |bodies| => Frame([], HEADER, bodies[i], []))
  }

  lemma PlainSnoc(bodies: seq<string>, body: string)
    ensures PrintedAll(Plain(bodies + [body])) == PrintedAll(Plain(bodies)) + Printed(Frame([], HEADER, body, []))
  {
    assert Plain(bodies + [body]) == Plain(bodies) + [Frame([], HEADER, body, [])];
    PrintedAllSnoc(Plain(bodies), Frame([], HEADER, body, []));
  }

  lemma BlankLine(line: string, end: string, body: string)
    ensures [] + line + end + [] + end + body == line + (end + end) + body
  {
    assert [] + line + end + [] == line + end;
    assert line + end + end == line + (end + end);
  }

  lemma PlainPrints(name: string, body: string)
    ensures Printed(Frame([], name, body, [])) == CountLine(name, |body|) + "\r\n\r\n" + body
  {
    BlankLine(CountLine(name, |body|), "\r\n", body);
    assert "\r\n" + "\r\n" == "\r\n\r\n";
  }

  /** The client's pipe to the server, and the bodies written to it. */
  class Writer {
    var sent: string
    ghost var bodies: seq<string>

    ghost predicate Valid()
      reads this
    {
      sent == PrintedAll(Plain(bodies))
    }

    constructor ()
      ensures Valid() && bodies == []
    {
      sent, bodies := [], [];
    }

    method Write(body: string)
      requires Valid()
      modifies this
      ensures Valid() && bodies == old(bodies) + [body]
    {
      PlainSnoc(bodies, body);
      PlainPrints(HEADER, body);
      var header := HEADER + ": " + Decimal.Itoa(|body|) + "\r\n\r\n";
      sent := sent + (header + body);
      bodies := bodies + [body];
    }
  }

  /** What the client writes is what a receive loop reads: bodies within the limit come back in order, with nothing
      left over. */
  lemma WrittenReadsBack(w: Writer)
    requires w.Valid() && forall b | b in w.bodies :: |b| <= MAX_FRAME
    ensures ReadAll(w.sent) == Reads(w.bodies, [])
  {
    var frames := Plain(w.bodies);
    HeaderIsHeaderName();
    forall f | f in frames ensures WellFormed(f) {
      var k :| 0 <= k < |frames| && frames[k] == f;
      assert w.bodies[k] in w.bodies;
    }
    FramesReadBack(frames);
    assert Bodies(frames) == w.bodies;
  }

  /** The receive loop. */
  method Receive(r: Reader) returns (bodies: seq<string>)
    modifies r
    ensures bodies == ReadAll(old(r.rest)).bodies && r.rest == ReadAll(old(r.rest)).rest
  {
    bodies := [];
    while true
      invariant bodies + ReadAll(r.rest).bodies == ReadAll(old(r.rest)).bodies
      invariant ReadAll(r.rest).rest == ReadAll(old(r.rest)).rest
      decreases |r.rest|
    {
      var read := r.ReadMessage();
      if read.Failed? {
        return;
      }
      bodies := bodies + [read.body];
    }
  }
}
