/** The placeholder names of an ICU message, as the translation audit extracts them.
    Only the brace structure of messages is modelled; quoting with apostrophes is not part of it. */
module IcuPlaceholders {
  import opened Text

  predicate IsIdentStart(c: char) {
    'a' <= c <= 'z' || 'A' <= c <= 'Z' || c == '_' || c == '$'
  }

  predicate IsIdentifier(s: string) {
    s != "" && IsIdentStart(s[0]) && forall c <- s[1..] :: IsIdentStart(c) || '0' <= c <= '9'
  }

  /** The identifier in front of the first comma, if it is one. */
  function NameOf(buffer: string): set<string> {
    var name := Trim(Split(buffer, ',')[0]);
    if IsIdentifier(name) then {name} else {}
  }

  // ---------- messages ----------

  /** Text and brace groups: a message is `text` or `before { body } after`. */
  datatype Message = Plain(text: string) | Group(before: string, body: Message, after: Message)

  predicate BraceFree(s: string) {
    '{' !in s && '}' !in s
  }

  predicate WellFormed(m: Message) {
    match m
    case Plain(t) => BraceFree(t)
    case Group(b, g, a) => BraceFree(b) && WellFormed(g) && WellFormed(a)
  }

  function Print(m: Message): string {
    match m
    case Plain(t) => t
    case Group(b, g, a) => b + (['{'] + (Print(g) + (['}'] + Print(a))))
  }

  /** The name a group with this body declares: its text up to a comma, if that comes before any
      nested group. */
  function Head(body: Message): set<string> {
    match body
    case Plain(t) => NameOf(t)
    case Group(b, _, _) => if ',' in b then NameOf(b) else {}
  }

  /** The names declared by all groups, at every depth. */
  function Heads(m: Message): set<string> {
    match m
    case Plain(_) => {}
    case Group(_, g, a) => Head(g) + Heads(g) + Heads(a)
  }

  /** The names declared by the groups more than `k` groups deep. */
  function HeadsBelow(m: Message, k: nat): set<string> {
    if k == 0 then Heads(m)
    else
      match m
      case Plain(_) => {}
      case Group(_, g, a) => HeadsBelow(g, k - 1) + HeadsBelow(a, k)
  }

  // ---------- the extractor ----------

  function Extract(s: string): set<string>
    decreases |s|, 1, 0
  {
    ScanFrom(s, 0, 0, "")
  }

  /** What an open group has in its buffer is shorter than the text read; without one it is empty. */
  predicate Buffers(i: nat, depth: int, buffer: string) {
    if depth > 0 then |buffer| < i else buffer == ""
  }

  /** The buffer after reading `t`. */
  function Read(depth: int, buffer: string, t: string): string {
    if depth > 0 then buffer + t else ""
  }

  /** The names found from `i` on, at brace depth `depth`, with `buffer` read of the group that is open.
      Below depth one there is no such group. */
  function ScanFrom(s: string, i: nat, depth: int, buffer: string): set<string>
    requires i <= |s| && Buffers(i, depth, buffer)
    decreases |s|, 0, |s| - i
  {
    if i == |s| then {}
    else if s[i] == '{' then
      ScanFrom(s, i + 1, depth + 1, Read(depth, buffer, [s[i]]))
    else if s[i] == '}' then
      if depth == 1 then NameOf(buffer) + Extract(buffer) + ScanFrom(s, i + 1, 0, "")
      else ScanFrom(s, i + 1, depth - 1, Read(depth, buffer, [s[i]]))
    else ScanFrom(s, i + 1, depth, Read(depth, buffer, [s[i]]))
  }

  method ExtractPlaceholders(value: string) returns (out: set<string>)
    ensures out == Extract(value)
    decreases |value|
  {
    out := {};
    var depth, buffer := 0, "";
    for i := 0 to |value|
      invariant depth > 0 ==> |buffer| < i
      invariant depth > 0 ==> out + ScanFrom(value, i, depth, buffer) == Extract(value)
      invariant depth <= 0 ==> out + ScanFrom(value, i, depth, "") == Extract(value)
    {
      var ch := value[i];
      if ch == '{' {
        if depth == 0 {
          buffer := "";
        } else {
          buffer := buffer + [ch];
        }
        depth := depth + 1;
      } else if ch == '}' {
        depth := depth - 1;
        if depth == 0 {
          var name := Trim(Split(buffer, ',')[0]);
          if IsIdentifier(name) {
            out := out + {name};
          }
          var sub := ExtractPlaceholders(buffer);
          out := out + sub;
          buffer := "";
        } else if depth > 0 {
          buffer := buffer + [ch];
        }
      } else if depth > 0 {
        buffer := buffer + [ch];
      }
    }
  }

  // ---------- extraction on any text ----------

  /** Text without braces is appended to the buffer of an open group, and else ignored. */
  lemma {:induction false} ScanText(s: string, i: nat, t: string, depth: int, buffer: string)
    requires Holds(s, i, t) && BraceFree(t) && Buffers(i, depth, buffer)
    ensures ScanFrom(s, i, depth, buffer) == ScanFrom(s, i + |t|, depth, Read(depth, buffer, t))
    decreases |t|
  {
    if t == "" {
      assert buffer + t == buffer;
    } else {
      var n := |t| - 1;
      var init, c := t[..n], t[n];
      assert t == init + [c];
      HoldsParts(s, i, init, [c]);
      ScanText(s, i, init, depth, buffer);
      assert s[i + n] == c != '{' && c != '}';
      assert buffer + t == (buffer + init) + [c];
    }
  }

  lemma BracePart(s: string, i: nat, c: char, rest: string)
    requires Holds(s, i, [c] + rest)
    ensures i < |s| && s[i] == c && Holds(s, i + 1, rest)
  {
    HoldsParts(s, i, [c], rest);
  }

  /** The parts of a printed group, and where they lie. */
  lemma GroupParts(s: string, i: nat, m: Message)
    requires m.Group? && Holds(s, i, Print(m))
    ensures |Print(m)| == |m.before| + 1 + |Print(m.body)| + 1 + |Print(m.after)|
    ensures Holds(s, i, m.before) && s[i + |m.before|] == '{'
    ensures Holds(s, i + |m.before| + 1, Print(m.body))
    ensures s[i + |m.before| + 1 + |Print(m.body)|] == '}'
    ensures Holds(s, i + |m.before| + 1 + |Print(m.body)| + 1, Print(m.after))
  {
    GroupPartsOf(s, i, m.before, Print(m.body), Print(m.after));
  }

  lemma GroupPartsOf(s: string, i: nat, b: string, g: string, a: string)
    requires Holds(s, i, b + (['{'] + (g + (['}'] + a))))
    ensures Holds(s, i, b) && i + |b| < |s| && s[i + |b|] == '{' && Holds(s, i + |b| + 1, g)
    ensures i + |b| + 1 + |g| < |s| && s[i + |b| + 1 + |g|] == '}' && Holds(s, i + |b| + 1 + |g| + 1, a)
  {
    HoldsParts(s, i, b, ['{'] + (g + (['}'] + a)));
    BracePart(s, i + |b|, '{', g + (['}'] + a));
    HoldsParts(s, i + |b| + 1, g, ['}'] + a);
    BracePart(s, i + |b| + 1 + |g|, '}', a);
  }

  /** The brace depth after the first `k` characters of `t`. */
  function DepthAt(t: string, k: nat, depth: int): int
    requires k <= |t|
  {
    if k == 0 then depth
    else
      var d := DepthAt(t, k - 1, depth);
      if t[k - 1] == '{' then d + 1 else if t[k - 1] == '}' then d - 1 else d
  }

  function DepthAfter(t: string, depth: int): int {
    DepthAt(t, |t|, depth)
  }

  /** While `t` is read, the group that is open stays open. */
  ghost predicate StaysOpen(t: string, depth: int) {
    forall k | 0 <= k <= |t| :: DepthAt(t, k, depth) > 0
  }

  lemma {:induction false} DepthAppend(a: string, b: string, k: nat, depth: int)
    requires k <= |a| + |b|
    ensures DepthAt(a + b, k, depth) ==
            if k <= |a| then DepthAt(a, k, depth) else DepthAt(b, k - |a|, DepthAfter(a, depth))
    decreases k
  {
    if k == 0 {
    } else {
      DepthAppend(a, b, k - 1, depth);
    }
  }

  lemma Chain(a: string, b: string, depth: int)
    requires StaysOpen(a, depth) && StaysOpen(b, DepthAfter(a, depth))
    ensures StaysOpen(a + b, depth) && DepthAfter(a + b, depth) == DepthAfter(b, DepthAfter(a, depth))
  {
    forall k | 0 <= k <= |a + b|
      ensures DepthAt(a + b, k, depth) > 0
    {
      DepthAppend(a, b, k, depth);
    }
    DepthAppend(a, b, |a + b|, depth);
  }

  lemma {:induction false} TextKeepsDepth(t: string, k: nat, depth: int)
    requires BraceFree(t) && k <= |t|
    ensures DepthAt(t, k, depth) == depth
    decreases k
  {
    if k == 0 {
    } else {
      assert t[k - 1] in t;
      TextKeepsDepth(t, k - 1, depth);
    }
  }

  lemma TextStaysOpen(t: string, depth: nat)
    requires BraceFree(t) && depth > 0
    ensures StaysOpen(t, depth) && DepthAfter(t, depth) == depth
  {
    forall k | 0 <= k <= |t|
      ensures DepthAt(t, k, depth) == depth
    {
      TextKeepsDepth(t, k, depth);
    }
  }

  lemma BraceStaysOpen(c: char, depth: nat)
    requires (c == '{' && depth > 0) || (c == '}' && depth > 1)
    ensures StaysOpen([c], depth) && DepthAfter([c], depth) == if c == '{' then depth + 1 else depth - 1
  {
    assert DepthAt([c], 0, depth) == depth;
  }

  /** A printed message leaves open what is open, at the depth it was. */
  lemma {:induction false} MessageStaysOpen(m: Message, depth: nat)
    requires WellFormed(m) && depth > 0
    ensures StaysOpen(Print(m), depth) && DepthAfter(Print(m), depth) == depth
    decreases m
  {
    match m
    case Plain(t) => TextStaysOpen(t, depth);
    case Group(b, g, a) =>
      TextStaysOpen(b, depth);
      MessageStaysOpen(g, depth + 1);
      MessageStaysOpen(a, depth);
      GroupStaysOpen(b, Print(g), Print(a), depth);
  }

  lemma GroupStaysOpen(b: string, g: string, a: string, depth: nat)
    requires depth > 0 && StaysOpen(b, depth) && StaysOpen(g, depth + 1) && StaysOpen(a, depth)
    requires DepthAfter(b, depth) == depth && DepthAfter(g, depth + 1) == depth + 1 && DepthAfter(a, depth) == depth
    ensures StaysOpen(b + (['{'] + (g + (['}'] + a))), depth)
    ensures DepthAfter(b + (['{'] + (g + (['}'] + a))), depth) == depth
  {
    BraceStaysOpen('{', depth);
    BraceStaysOpen('}', depth + 1);
    Chain(['}'], a, depth + 1);
    Chain(g, ['}'] + a, depth + 1);
    Chain(['{'], g + (['}'] + a), depth);
    Chain(b, ['{'] + (g + (['}'] + a)), depth);
  }

  /** Within an open group everything that leaves it open goes into the buffer. */
  lemma {:induction false} ScanOpenGroup(s: string, i: nat, t: string, k: nat, depth: nat, buffer: string)
    requires Holds(s, i, t) && StaysOpen(t, depth) && |buffer| < i && k <= |t|
    ensures depth > 0 && DepthAt(t, k, depth) > 0
    ensures ScanFrom(s, i, depth, buffer) == ScanFrom(s, i + k, DepthAt(t, k, depth), buffer + t[..k])
    decreases k
  {
    assert DepthAt(t, 0, depth) == depth;
    if k == 0 {
      assert buffer + t[..0] == buffer;
    } else {
      ScanOpenGroup(s, i, t, k - 1, depth, buffer);
      assert buffer + t[..k] == (buffer + t[..k - 1]) + [t[k - 1]];
      HoldsAt(s, i, t, k - 1);
    }
  }

  /** Within an open group a whole message goes into the buffer. */
  lemma ScanInside(s: string, i: nat, m: Message, depth: nat, buffer: string)
    requires WellFormed(m) && Holds(s, i, Print(m)) && depth > 0 && |buffer| < i
    ensures ScanFrom(s, i, depth, buffer) == ScanFrom(s, i + |Print(m)|, depth, buffer + Print(m))
  {
    var p := Print(m);
    MessageStaysOpen(m, depth);
    ScanOpenGroup(s, i, p, |p|, depth, buffer);
    assert p[..|p|] == p;
  }

  /** The depth after `k` unmatched closing braces. */
  function Level(k: nat): int {
    -(k as int)
  }

  /** An unmatched `}` takes the scan one level further down. */
  lemma StrayClose(s: string, i: nat, k: nat)
    requires i < |s| && s[i] == '}'
    ensures ScanFrom(s, i, Level(k), "") == ScanFrom(s, i + 1, Level(k + 1), "")
  {
  }

  /** A `{` at a level below the top takes it one level up. */
  lemma StrayOpen(s: string, i: nat, k: nat)
    requires i < |s| && s[i] == '{'
    ensures k > 0 ==> ScanFrom(s, i, Level(k), "") == ScanFrom(s, i + 1, Level(k - 1), "")
    ensures k == 0 ==> ScanFrom(s, i, Level(k), "") == ScanFrom(s, i + 1, 1, "")
  {
  }

  /** At depth `-k` a message yields the names more than `k` groups deep. */
  lemma {:induction false} ScanOutside(s: string, i: nat, m: Message, k: nat)
    requires WellFormed(m) && Holds(s, i, Print(m))
    ensures ScanFrom(s, i, Level(k), "") == HeadsBelow(m, k) + ScanFrom(s, i + |Print(m)|, Level(k), "")
    decreases m, 0
  {
    match m
    case Plain(t) => ScanText(s, i, t, Level(k), "");
    case Group(b, g, a) =>
      GroupParts(s, i, m);
      var l := i + |b| + 1 + |Print(g)| + 1;
      ScanText(s, i, b, Level(k), "");
      GroupOutside(s, i + |b|, g, k);
      ScanOutside(s, l, a, k);
  }

  /** The names a group with body `g` yields at depth `-k`. */
  function GroupHeads(g: Message, k: nat): set<string> {
    if k == 0 then Head(g) + Heads(g) else HeadsBelow(g, k - 1)
  }

  lemma {:induction false} GroupOutside(s: string, i: nat, g: Message, k: nat)
    requires WellFormed(g) && i < |s| && s[i] == '{' && Holds(s, i + 1, Print(g))
    requires i + 1 + |Print(g)| < |s| && s[i + 1 + |Print(g)|] == '}'
    ensures ScanFrom(s, i, Level(k), "") == GroupHeads(g, k) + ScanFrom(s, i + 1 + |Print(g)| + 1, Level(k), "")
    decreases g, 2
  {
    if k == 0 {
      GroupAtTop(s, i, g);
      HeadOfPrinted(g);
      ExtractPrinted(g);
    } else {
      StrayOpen(s, i, k);
      ScanOutside(s, i + 1, g, k - 1);
      StrayClose(s, i + 1 + |Print(g)|, k - 1);
    }
  }

  /** A group at the top yields what its body yields, and the name in front. */
  lemma GroupAtTop(s: string, i: nat, g: Message)
    requires WellFormed(g) && i < |s| && s[i] == '{' && Holds(s, i + 1, Print(g))
    requires i + 1 + |Print(g)| < |s| && s[i + 1 + |Print(g)|] == '}'
    ensures ScanFrom(s, i, 0, "") ==
            NameOf(Print(g)) + Extract(Print(g)) + ScanFrom(s, i + 1 + |Print(g)| + 1, 0, "")
  {
    var p := Print(g);
    assert ScanFrom(s, i, 0, "") == ScanFrom(s, i + 1, 1, "");
    ScanInside(s, i + 1, g, 1, "");
    assert "" + p == p;
    assert ScanFrom(s, i + 1 + |p|, 1, p) == NameOf(p) + Extract(p) + ScanFrom(s, i + 1 + |p| + 1, 0, "");
  }

  /** Extraction undoes printing: it gives the heads of all groups at every depth. */
  lemma {:induction false} ExtractPrinted(m: Message)
    requires WellFormed(m)
    ensures Extract(Print(m)) == Heads(m)
    decreases m, 1
  {
    HoldsWhole(Print(m));
    ScanOutside(Print(m), 0, m, 0);
  }

  // ---------- names ----------

  lemma {:induction false} FirstPart(a: string, b: string)
    ensures Split(a + b, ',')[0] == if ',' in a then Split(a, ',')[0] else a + Split(b, ',')[0]
  {
    if a == "" {
      assert a + b == b;
    } else {
      FirstPart(a[1..], b);
      CommaStep(a);
      SplitStep(a);
      SplitStep(a + b);
      FirstAndRest(a, b, Split(b, ',')[0]);
    }
  }

  lemma FirstAndRest(a: string, b: string, x: string)
    requires a != ""
    ensures (a + b)[0] == a[0] && (a + b)[1..] == a[1..] + b
    ensures [a[0]] + (a[1..] + x) == a + x
  {
  }

  lemma CommaStep(a: string)
    requires a != ""
    ensures ',' in a <==> a[0] == ',' || ',' in a[1..]
  {
    assert a == [a[0]] + a[1..];
  }

  lemma SplitStep(s: string)
    requires s != ""
    ensures Split(s, ',')[0] == if s[0] == ',' then "" else [s[0]] + Split(s[1..], ',')[0]
  {
  }

  lemma {:induction false} TrimLeftKeeps(s: string, c: char)
    requires c in s && !IsSpace(c)
    ensures c in TrimLeft(s)
  {
    if !IsSpace(s[0]) {
    } else {
      assert s == [s[0]] + s[1..];
      TrimLeftKeeps(s[1..], c);
    }
  }

  lemma {:induction false} TrimRightKeeps(s: string, c: char)
    requires c in s && !IsSpace(c)
    ensures c in TrimRight(s)
  {
    if !IsSpace(s[|s| - 1]) {
    } else {
      assert s == s[..|s| - 1] + [s[|s| - 1]];
      TrimRightKeeps(s[..|s| - 1], c);
    }
  }

  lemma HeadOfPrinted(m: Message)
    requires WellFormed(m)
    ensures NameOf(Print(m)) == Head(m)
  {
    if m.Group? {
      var more := Print(m.body) + (['}'] + Print(m.after));
      var rest := ['{'] + more;
      FirstPart(m.before, rest);
      if ',' !in m.before {
        FirstPart(['{'], more);
        var name := m.before + Split(rest, ',')[0];
        assert Split(rest, ',')[0][0] == '{';
        assert name[|m.before|] == '{' && '{' in name;
        TrimLeftKeeps(name, '{');
        TrimRightKeeps(TrimLeft(name), '{');
        NoBraceInIdentifier(Trim(name));
      }
    }
  }

  lemma NoBraceInIdentifier(s: string)
    requires '{' in s
    ensures !IsIdentifier(s)
  {
    var k :| 0 <= k < |s| && s[k] == '{';
    assert k > 0 ==> s[1..][k - 1] == '{' && '{' in s[1..];
  }
}
