/** What the placeholder extractor gives on any text, with or without matching braces. */
module UnbalancedIcu {
  import opened Text
  import opened IcuPlaceholders

  /** Any text is some messages closed by unmatched `}`, a last one, and then messages opened by
      unmatched `{`. */
  datatype Form = Form(closed: seq<Message>, last: Message, open: seq<Message>)

  ghost predicate AllWellFormed(ms: seq<Message>) {
    forall m <- ms :: WellFormed(m)
  }

  ghost predicate Good(f: Form) {
    AllWellFormed(f.closed) && WellFormed(f.last) && AllWellFormed(f.open)
  }

  function ShowClosed(ms: seq<Message>): string {
    if ms == [] then "" else Print(ms[0]) + (['}'] + ShowClosed(ms[1..]))
  }

  function ShowOpen(ms: seq<Message>): string {
    if ms == [] then "" else ['{'] + (Print(ms[0]) + ShowOpen(ms[1..]))
  }

  function Show(f: Form): string {
    ShowClosed(f.closed) + (Print(f.last) + ShowOpen(f.open))
  }

  /** Each unmatched `}` hides one more level of groups after it. */
  function ClosedHeads(ms: seq<Message>, k: nat): set<string> {
    if ms == [] then {} else HeadsBelow(ms[0], k) + ClosedHeads(ms[1..], k + 1)
  }

  /** Each unmatched `{` brings one level back; once all are back, the next hides the rest. */
  function OpenHeads(ms: seq<Message>, k: nat): set<string> {
    if ms == [] || k == 0 then {} else HeadsBelow(ms[0], k - 1) + OpenHeads(ms[1..], k - 1)
  }

  function FormHeads(f: Form): set<string> {
    ClosedHeads(f.closed, 0) + HeadsBelow(f.last, |f.closed|) + OpenHeads(f.open, |f.closed|)
  }

  function Prepend(c: char, m: Message): Message {
    match m
    case Plain(t) => Plain([c] + t)
    case Group(b, g, a) => Group([c] + b, g, a)
  }

  /** Every text has such a form. */
  lemma {:induction false} Decompose(s: string) returns (f: Form)
    ensures Good(f) && Show(f) == s
  {
    if s == "" {
      return Form([], Plain(""), []);
    }
    var c := s[0];
    var g := Decompose(s[1..]);
    assert s == [c] + s[1..];
    if c == '}' {
      f := g.(closed := [Plain("")] + g.closed);
      assert f.closed[1..] == g.closed;
    } else if c == '{' && g.closed == [] {
      f := Form([], Plain(""), [g.last] + g.open);
      assert f.open[1..] == g.open;
    } else if c == '{' {
      f := Enclose(g);
    } else if g.closed == [] {
      f := g.(last := Prepend(c, g.last));
      PrintPrepend(c, g.last);
    } else {
      f := PrependClosed(c, g);
    }
  }

  lemma PrependClosed(c: char, g: Form) returns (f: Form)
    requires Good(g) && g.closed != [] && c != '{' && c != '}'
    ensures Good(f) && Show(f) == [c] + Show(g)
  {
    f := g.(closed := [Prepend(c, g.closed[0])] + g.closed[1..]);
    PrintPrepend(c, g.closed[0]);
    assert f.closed[1..] == g.closed[1..];
  }

  lemma PrintPrepend(c: char, m: Message)
    ensures Print(Prepend(c, m)) == [c] + Print(m)
    ensures c != '{' && c != '}' && WellFormed(m) ==> WellFormed(Prepend(c, m))
  {
  }

  /** A `{` in front matches the first unmatched `}`. */
  lemma Enclose(g: Form) returns (f: Form)
    requires Good(g) && g.closed != []
    ensures Good(f) && Show(f) == ['{'] + Show(g)
  {
    var body, rest := g.closed[0], g.closed[1..];
    if rest == [] {
      f := Form([], Group("", body, g.last), g.open);
      assert ShowClosed(rest) == [];
    } else {
      f := g.(closed := [Group("", body, rest[0])] + rest[1..]);
      assert f.closed[1..] == rest[1..];
      assert body in g.closed && rest[0] in g.closed;
      assert ShowClosed(f.closed) == ['{'] + ShowClosed(g.closed);
    }
  }

  lemma PartThenBrace(s: string, i: nat, p: string, c: char, rest: string)
    requires Holds(s, i, p + ([c] + rest))
    ensures Holds(s, i, p) && i + |p| < |s| && s[i + |p|] == c && Holds(s, i + |p| + 1, rest)
  {
    HoldsParts(s, i, p, [c] + rest);
    BracePart(s, i + |p|, c, rest);
  }

  lemma ClosedParts(s: string, i: nat, ms: seq<Message>)
    requires ms != [] && Holds(s, i, ShowClosed(ms))
    ensures |ShowClosed(ms)| == |Print(ms[0])| + 1 + |ShowClosed(ms[1..])|
    ensures Holds(s, i, Print(ms[0])) && i + |Print(ms[0])| < |s| && s[i + |Print(ms[0])|] == '}'
    ensures Holds(s, i + |Print(ms[0])| + 1, ShowClosed(ms[1..]))
  {
    PartThenBrace(s, i, Print(ms[0]), '}', ShowClosed(ms[1..]));
  }

  lemma OpenParts(s: string, i: nat, ms: seq<Message>)
    requires ms != [] && Holds(s, i, ShowOpen(ms))
    ensures var p := |Print(ms[0])|;
            && |ShowOpen(ms)| == 1 + p + |ShowOpen(ms[1..])|
            && i < |s| && s[i] == '{' && Holds(s, i + 1, Print(ms[0])) && Holds(s, i + 1 + p, ShowOpen(ms[1..]))
  {
    BraceThenPart(s, i, '{', Print(ms[0]), ShowOpen(ms[1..]));
  }

  lemma BraceThenPart(s: string, i: nat, c: char, p: string, rest: string)
    requires Holds(s, i, [c] + (p + rest))
    ensures i < |s| && s[i] == c && Holds(s, i + 1, p) && Holds(s, i + 1 + |p|, rest)
  {
    BracePart(s, i, c, p + rest);
    HoldsParts(s, i + 1, p, rest);
  }

  lemma {:induction false} ScanClosed(s: string, i: nat, ms: seq<Message>, k: nat)
    requires AllWellFormed(ms) && Holds(s, i, ShowClosed(ms))
    ensures ScanFrom(s, i, Level(k), "") ==
            ClosedHeads(ms, k) + ScanFrom(s, i + |ShowClosed(ms)|, Level(k + |ms|), "")
    decreases |ms|
  {
    if ms == [] {
    } else {
      assert ms[0] in ms;
      ClosedParts(s, i, ms);
      var j := i + |Print(ms[0])|;
      ScanOutside(s, i, ms[0], k);
      StrayClose(s, j, k);
      ScanClosed(s, j + 1, ms[1..], k + 1);
    }
  }

  lemma {:induction false} ScanOpen(s: string, i: nat, ms: seq<Message>, k: nat)
    requires AllWellFormed(ms) && Holds(s, i, ShowOpen(ms)) && i + |ShowOpen(ms)| == |s|
    ensures ScanFrom(s, i, Level(k), "") == OpenHeads(ms, k)
    decreases |ms|
  {
    if ms == [] {
    } else {
      assert ms[0] in ms;
      OpenParts(s, i, ms);
      StrayOpen(s, i, k);
      if k == 0 {
        ScanInside(s, i + 1, ms[0], 1, "");
        ScanNeverCloses(s, i + 1 + |Print(ms[0])|, ms[1..], 1, "" + Print(ms[0]));
      } else {
        ScanOutside(s, i + 1, ms[0], k - 1);
        ScanOpen(s, i + 1 + |Print(ms[0])|, ms[1..], k - 1);
      }
    }
  }

  /** A group that is never closed yields nothing. */
  lemma {:induction false} ScanNeverCloses(s: string, i: nat, ms: seq<Message>, depth: nat, buffer: string)
    requires AllWellFormed(ms) && depth > 0 && |buffer| < i
    requires Holds(s, i, ShowOpen(ms)) && i + |ShowOpen(ms)| == |s|
    ensures ScanFrom(s, i, depth, buffer) == {}
    decreases |ms|
  {
    if ms == [] {
    } else {
      assert ms[0] in ms && AllWellFormed(ms[1..]);
      OpenParts(s, i, ms);
      ScanPastOpen(s, i, ms[0], depth, buffer);
      ScanNeverCloses(s, i + 1 + |Print(ms[0])|, ms[1..], depth + 1, buffer + ['{'] + Print(ms[0]));
    }
  }

  lemma ScanPastOpen(s: string, i: nat, m: Message, depth: nat, buffer: string)
    requires WellFormed(m) && depth > 0 && |buffer| < i < |s| && s[i] == '{' && Holds(s, i + 1, Print(m))
    ensures ScanFrom(s, i, depth, buffer) ==
            ScanFrom(s, i + 1 + |Print(m)|, depth + 1, buffer + ['{'] + Print(m))
  {
    OpensDeeper(s, i, depth, buffer);
    ScanInside(s, i + 1, m, depth + 1, buffer + ['{']);
  }

  lemma OpensDeeper(s: string, j: nat, depth: nat, buffer: string)
    requires j < |s| && s[j] == '{' && depth > 0 && |buffer| < j
    ensures ScanFrom(s, j, depth, buffer) == ScanFrom(s, j + 1, depth + 1, buffer + ['{'])
  {
  }

  /** What extraction gives on any text at all. */
  lemma ExtractAnyText(f: Form)
    requires Good(f)
    ensures Extract(Show(f)) == FormHeads(f)
  {
    ShowParts(ShowClosed(f.closed), Print(f.last), ShowOpen(f.open));
    ScanForm(Show(f), f);
  }

  lemma ScanForm(s: string, f: Form)
    requires Good(f) && |s| == |ShowClosed(f.closed)| + |Print(f.last)| + |ShowOpen(f.open)|
    requires Holds(s, 0, ShowClosed(f.closed)) && Holds(s, |ShowClosed(f.closed)|, Print(f.last))
    requires Holds(s, |ShowClosed(f.closed)| + |Print(f.last)|, ShowOpen(f.open))
    ensures ScanFrom(s, 0, 0, "") == FormHeads(f)
  {
    var i, n := |ShowClosed(f.closed)|, |f.closed|;
    ScanClosed(s, 0, f.closed, 0);
    ScanOutside(s, i, f.last, n);
    ScanOpen(s, i + |Print(f.last)|, f.open, n);
  }

  lemma ShowParts(a: string, b: string, c: string)
    ensures Holds(a + (b + c), 0, a) && Holds(a + (b + c), |a|, b) && Holds(a + (b + c), |a| + |b|, c)
  {
    HoldsWhole(a + (b + c));
    HoldsParts(a + (b + c), 0, a, b + c);
    HoldsParts(a + (b + c), |a|, b, c);
  }

  /** On a text whose braces do not match, an argument can be missed: one stray `}` hides it. */
  lemma StrayBraceHides(name: string)
    requires BraceFree(name)
    ensures Extract(['}'] + (['{'] + (name + ['}']))) == {}
    ensures Extract(['{'] + (name + ['}'])) == NameOf(name)
  {
    var g := Group("", Plain(name), Plain(""));
    var f := Form([Plain("")], g, []);
    assert Print(g) == ['{'] + (name + ['}']) by {
      assert ['}'] + [] == ['}'];
      assert [] + (['{'] + (name + ['}'])) == ['{'] + (name + ['}']);
    }
    ExtractPrinted(g);
    assert ShowClosed(f.closed) == ['}'] by {
      assert ShowClosed([]) == [] && f.closed[1..] == [];
      assert [] + (['}'] + []) == ['}'];
    }
    assert Show(f) == ['}'] + Print(g);
    ExtractAnyText(f);
    assert HeadsBelow(g, 1) == {};
  }
}
