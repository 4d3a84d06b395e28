/** Lines and blanks: strings.Split and strings.Join on newlines, and strings.TrimSpace on ASCII. */
module Text {

  predicate IsSpace(c: char) { c == ' ' || 9 as char <= c <= 13 as char }

  function TrimLeft(s: string): string { if s != [] && IsSpace(s[0]) then TrimLeft(s[1..]) else s }
  function TrimEnd(s: string): string { if s != [] && IsSpace(s[|s| - 1]) then TrimEnd(s[..|s| - 1]) else s }
  function TrimSpace(s: string): string { TrimEnd(TrimLeft(s)) }

  ghost predicate AllSpace(s: string) { forall i | 0 <= i < |s| :: IsSpace(s[i]) }

  /** Trimming takes spaces off both ends and nothing else. */
  lemma TrimmedParts(s: string) returns (front: string, back: string)
    ensures s == front + TrimSpace(s) + back && AllSpace(front) && AllSpace(back)
    ensures var t := TrimSpace(s); t != [] ==> !IsSpace(t[0]) && !IsSpace(t[|t| - 1])
  {
    front := TrimmedLeft(s);
    back := TrimmedEnd(TrimLeft(s));
  }

  lemma {:induction false} TrimmedLeft(s: string) returns (front: string)
    ensures s == front + TrimLeft(s) && AllSpace(front)
    ensures TrimLeft(s) != [] ==> !IsSpace(TrimLeft(s)[0])
  {
    front := [];
    if s != [] && IsSpace(s[0]) {
      front := TrimmedLeft(s[1..]);
      assert s == [s[0]] + s[1..];
      front := [s[0]] + front;
    }
  }

  lemma {:induction false} TrimmedEnd(s: string) returns (back: string)
    ensures s == TrimEnd(s) + back && AllSpace(back)
    ensures TrimEnd(s) != [] ==> !IsSpace(TrimEnd(s)[|TrimEnd(s)| - 1]) && TrimEnd(s)[0] == s[0]
  {
    back := [];
    if s != [] && IsSpace(s[|s| - 1]) {
      back := TrimmedEnd(s[..|s| - 1]);
      assert s == s[..|s| - 1] + [s[|s| - 1]];
      back := back + [s[|s| - 1]];
    }
  }

  predicate Blank(s: string) { TrimSpace(s) == [] }

  /** A text is blank exactly when it is nothing but spaces. */
  lemma BlankExactly(s: string)
    ensures Blank(s) <==> AllSpace(s)
  {
    var front, back := TrimmedParts(s);
    var t := TrimSpace(s);
    if t != [] {
      assert s[|front|] == t[0];
    } else {
      assert s == front + back;
    }
  }

  function Split(s: string): (ls: seq<string>)
    ensures ls != []
    ensures forall l | l in ls :: '\n' !in l
  {
    if s == [] then [[]]
    else
      var rest := Split(s[1..]);
      assert rest[0] in rest;
      if s[0] == '\n' then [[]] + rest else [[s[0]] + rest[0]] + rest[1..]
  }

  function Join(ls: seq<string>): string {
    if ls == [] then [] else if |ls| == 1 then ls[0] else ls[0] + "\n" + Join(ls[1..])
  }

  lemma {:induction false} JoinPrepend(c: char, ls: seq<string>)
    requires ls != []
    ensures Join([[c] + ls[0]] + ls[1..]) == [c] + Join(ls)
  {
    var ms := [[c] + ls[0]] + ls[1..];
    assert ms[1..] == ls[1..] && ms[0] == [c] + ls[0];
  }

  /** Joining the lines of a text gives it back. */
  lemma {:induction false} JoinOfSplit(s: string)
    ensures Join(Split(s)) == s
  {
    if s != [] {
      var rest := Split(s[1..]);
      JoinOfSplit(s[1..]);
      if s[0] == '\n' {
        assert ([[]] + rest)[1..] == rest;
        assert Join([[]] + rest) == [] + "\n" + Join(rest);
      } else {
        JoinPrepend(s[0], rest);
      }
      assert s == [s[0]] + s[1..];
    }
  }

  lemma {:induction false} SplitAfterLine(l: string, s: string)
    requires '\n' !in l
    ensures Split(l + "\n" + s) == [l] + Split(s)
  {
    var t := l + "\n" + s;
    if l == [] {
      assert t[1..] == s && t[0] == '\n';
    } else {
      assert forall c | c in l[1..] :: c in l;
      SplitAfterLine(l[1..], s);
      assert t[1..] == l[1..] + "\n" + s && t[0] == l[0];
      assert ([l[1..]] + Split(s))[1..] == Split(s);
      assert [l[0]] + l[1..] == l;
    }
  }

  lemma {:induction false} SplitLine(l: string)
    requires '\n' !in l
    ensures Split(l) == [l]
  {
    if l != [] {
      assert forall c | c in l[1..] :: c in l;
      SplitLine(l[1..]);
      assert [l[0]] + l[1..] == l;
    }
  }

  /** Splitting joined lines gives them back. */
  lemma {:induction false} SplitOfJoin(ls: seq<string>)
    requires ls != [] && forall l | l in ls :: '\n' !in l
    ensures Split(Join(ls)) == ls
  {
    assert ls[0] in ls;
    if |ls| == 1 {
      SplitLine(ls[0]);
      assert [ls[0]] == ls;
    } else {
      SplitOfJoin(ls[1..]);
      SplitAfterLine(ls[0], Join(ls[1..]));
      assert [ls[0]] + ls[1..] == ls;
    }
  }

  lemma {:induction false} JoinConcat(a: seq<string>, b: seq<string>)
    requires a != [] && b != []
    ensures Join(a + b) == Join(a) + "\n" + Join(b)
  {
    if |a| == 1 {
      assert (a + b)[1..] == b;
    } else {
      assert (a + b)[1..] == a[1..] + b;
      JoinConcat(a[1..], b);
    }
  }
}
