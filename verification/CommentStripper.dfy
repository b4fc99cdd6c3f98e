/** Blanking the comments of a TypeScript source without moving anything else. */
module CommentStripper {
  import opened Text

  /** What the scanner is inside of. `Interp(d)` is a `${ ... }` within a template, with `d` further
      braces open. */
  datatype Mode = Code | Block | Line | Quoted(quote: char) | Interp(inner: nat)

  /** What one step of the scanner emits, and where and how it goes on. */
  datatype Step = Step(text: string, next: nat, mode: Mode)

  predicate IsQuote(c: char) {
    IsStraightQuote(c) || c == '`'
  }

  predicate Pair(s: string, i: nat, a: char, b: char) {
    i + 1 < |s| && s[i] == a && s[i + 1] == b
  }

  function Blank(c: char): char {
    if c == NEWLINE then NEWLINE else ' '
  }

  function Scan(s: string, i: nat, m: Mode): (step: Step)
    requires i < |s|
    ensures i <= step.next <= |s| && |step.text| == step.next - i
    ensures step.next == i ==> m.Line? && step.mode.Code?
  {
    match m
    case Code =>
      if Pair(s, i, '/', '*') then Step("/*", i + 2, Block)
      else if Pair(s, i, '/', '/') then Step("//", i + 2, Line)
      else Step([s[i]], i + 1, if IsQuote(s[i]) then Quoted(s[i]) else Code)
    case Block =>
      if Pair(s, i, '*', '/') then Step("*/", i + 2, Code) else Step([Blank(s[i])], i + 1, Block)
    case Line =>
      if s[i] == NEWLINE then Step("", i, Code) else Step(" ", i + 1, Line)
    case Quoted(q) =>
      if s[i] == '\\' then Step(s[i..Min(i + 2, |s|)], Min(i + 2, |s|), m)
      else if s[i] == q then Step([s[i]], i + 1, Code)
      else if q == '`' && Pair(s, i, '$', '{') then Step("${", i + 2, Interp(0))
      else Step([s[i]], i + 1, m)
    case Interp(d) =>
      Step([s[i]], i + 1, if s[i] == '{' then Interp(d + 1)
                          else if s[i] != '}' then m
                          else if d == 0 then Quoted('`') else Interp(d - 1))
  }

  /** The scanner's output from `i` on. */
  function StripFrom(s: string, i: nat, m: Mode): string
    requires i <= |s|
    decreases |s| - i, m.Line?
  {
    if i == |s| then ""
    else
      var step := Scan(s, i, m);
      step.text + StripFrom(s, step.next, step.mode)
  }

  function Strip(s: string): string {
    StripFrom(s, 0, Code)
  }

  /** The main loop of the scanner. */
  method StripComments(src: string) returns (out: string)
    ensures out == Strip(src)
  {
    out := "";
    ghost var goal := Strip(src);
    var n, i := |src|, 0;
    while i < n
      invariant i <= n && out + StripFrom(src, i, Code) == goal
    {
      var c := src[i];
      if Pair(src, i, '/', '*') {
        out, i := Emit(src, out, "/*", i, Code);
        out, i := BlankBlock(src, out, i);
      } else if Pair(src, i, '/', '/') {
        out, i := Emit(src, out, "//", i, Code);
        out, i := BlankLine(src, out, i);
      } else if IsQuote(c) {
        out, i := Emit(src, out, [c], i, Code);
        out, i := CopyLiteral(src, out, i, c);
      } else {
        out, i := Emit(src, out, [c], i, Code);
      }
    }
  }

  /** The loop over a block comment, up to and including its end. */
  method BlankBlock(src: string, out: string, i: nat) returns (now: string, next: nat)
    requires i <= |src|
    ensures i <= next <= |src| && now + StripFrom(src, next, Code) == out + StripFrom(src, i, Block)
  {
    now, next := out, i;
    while next < |src| && !Pair(src, next, '*', '/')
      invariant i <= next <= |src| && now + StripFrom(src, next, Block) == out + StripFrom(src, i, Block)
    {
      now, next := Emit(src, now, [Blank(src[next])], next, Block);
    }
    if next < |src| {
      now, next := Emit(src, now, "*/", next, Block);
    }
  }

  /** The loop over a line comment, up to the newline. */
  method BlankLine(src: string, out: string, i: nat) returns (now: string, next: nat)
    requires i <= |src|
    ensures i <= next <= |src| && now + StripFrom(src, next, Code) == out + StripFrom(src, i, Line)
  {
    now, next := out, i;
    while next < |src| && src[next] != NEWLINE
      invariant i <= next <= |src| && now + StripFrom(src, next, Line) == out + StripFrom(src, i, Line)
    {
      now, next := Emit(src, now, " ", next, Line);
    }
  }

  /** The loop over a string or template literal, up to and including its closing quote. */
  method CopyLiteral(src: string, out: string, i: nat, quote: char) returns (now: string, next: nat)
    requires i <= |src|
    ensures i <= next <= |src| && now + StripFrom(src, next, Code) == out + StripFrom(src, i, Quoted(quote))
  {
    now, next := out, i;
    while next < |src|
      invariant i <= next <= |src|
      invariant now + StripFrom(src, next, Quoted(quote)) == out + StripFrom(src, i, Quoted(quote))
    {
      var c := src[next];
      if c == '\\' {
        now, next := Emit(src, now, src[next..Min(next + 2, |src|)], next, Quoted(quote));
      } else if c == quote {
        now, next := Emit(src, now, [c], next, Quoted(quote));
        return;
      } else if quote == '`' && Pair(src, next, '$', '{') {
        now, next := Emit(src, now, "${", next, Quoted(quote));
        now, next := CopyInterpolation(src, now, next);
      } else {
        now, next := Emit(src, now, [c], next, Quoted(quote));
      }
    }
  }

  /** The loop over the inside of an interpolation, counting braces. */
  method CopyInterpolation(src: string, out: string, i: nat) returns (now: string, next: nat)
    requires i <= |src|
    ensures i <= next <= |src| && now + StripFrom(src, next, Quoted('`')) == out + StripFrom(src, i, Interp(0))
  {
    now, next := out, i;
    var depth := 1;
    while next < |src| && depth > 0
      invariant i <= next <= |src| && depth >= 0
      invariant depth > 0 ==> now + StripFrom(src, next, Interp(depth - 1)) == out + StripFrom(src, i, Interp(0))
      invariant depth == 0 ==> now + StripFrom(src, next, Quoted('`')) == out + StripFrom(src, i, Interp(0))
    {
      var c := src[next];
      now, next := Emit(src, now, [c], next, Interp(depth - 1));
      if c == '{' {
        depth := depth + 1;
      } else if c == '}' {
        depth := depth - 1;
      }
    }
  }

  /** Appends to the output and moves past as many characters. */
  method Emit(ghost src: string, out: string, text: string, i: nat, ghost m: Mode) returns (now: string, next: nat)
    requires i < |src| && text == Scan(src, i, m).text && text != ""
    ensures now == out + text && next == i + |text| == Scan(src, i, m).next
    ensures now + StripFrom(src, next, Scan(src, i, m).mode) == out + StripFrom(src, i, m)
  {
    now, next := out + text, i + |text|;
    assert now + StripFrom(src, next, Scan(src, i, m).mode) ==
           out + (text + StripFrom(src, next, Scan(src, i, m).mode));
  }

  // ---------- positions ----------

  /** `out` is `raw` with some characters other than newlines replaced by spaces. */
  ghost predicate Blanked(raw: string, out: string) {
    && |out| == |raw|
    && forall k | 0 <= k < |raw| :: out[k] == raw[k] || (out[k] == ' ' && raw[k] != NEWLINE)
  }

  lemma ScanBlanks(s: string, i: nat, m: Mode)
    requires i < |s|
    ensures Blanked(s[i..Scan(s, i, m).next], Scan(s, i, m).text)
  {
  }

  lemma {:induction false} StripFromBlanks(s: string, i: nat, m: Mode)
    requires i <= |s|
    ensures Blanked(s[i..], StripFrom(s, i, m))
    decreases |s| - i, m.Line?
  {
    if i == |s| {
    } else {
      var step := Scan(s, i, m);
      ScanBlanks(s, i, m);
      StripFromBlanks(s, step.next, step.mode);
      assert s[i..] == s[i..step.next] + s[step.next..];
    }
  }

  /** Stripping keeps the length, the newlines and every other character outside the blanked ones. */
  lemma StripBlanks(s: string)
    ensures Blanked(s, Strip(s))
  {
    StripFromBlanks(s, 0, Code);
    assert s[0..] == s;
  }

  /** Text without a space that occurs after stripping occurs at the same place before. */
  lemma StripKeepsPlace(s: string, k: nat, token: string)
    requires k + |token| <= |s| && ' ' !in token
    requires |Strip(s)| == |s| && Strip(s)[k..k + |token|] == token
    ensures s[k..k + |token|] == token
  {
    StripBlanks(s);
    forall j | 0 <= j < |token|
      ensures s[k + j] == token[j]
    {
      assert Strip(s)[k..k + |token|][j] == token[j];
    }
  }

  // ---------- idempotence ----------

  /** The characters a step emitted, and the next one where it is copied. */
  lemma EmittedChars(s: string, t: string, i: nat, m: Mode)
    requires i < |s| == |t| && t[i..] == StripFrom(s, i, m)
    ensures var step := Scan(s, i, m);
            && t[i..step.next] == step.text
            && t[step.next..] == StripFrom(s, step.next, step.mode)
            && (step.next < |s| && !step.mode.Block? && !step.mode.Line? ==> t[step.next] == s[step.next])
  {
    var step := Scan(s, i, m);
    assert t[i..step.next] == t[i..][..step.next - i];
    assert t[step.next..] == t[i..][step.next - i..];
    if step.next < |s| && !step.mode.Block? && !step.mode.Line? {
      FirstCopied(s, step.next, step.mode);
      assert t[step.next] == t[step.next..][0];
    }
  }

  /** The scanner takes the same step on its own output. */
  lemma ScanAgain(s: string, t: string, i: nat, m: Mode)
    requires i < |s| == |t| && t[i..] == StripFrom(s, i, m)
    ensures Scan(t, i, m) == Scan(s, i, m)
  {
    var step := Scan(s, i, m);
    EmittedChars(s, t, i, m);
    if step.next == i + 1 {
      assert t[i] == step.text[0];
      SameScanAtOne(s, t, i, m);
    } else if step.next == i + 2 {
      assert t[i] == step.text[0] && t[i + 1] == step.text[1];
    }
  }

  /** The step is the same if it emitted one character and the next one is copied where it matters. */
  lemma SameScanAtOne(s: string, t: string, i: nat, m: Mode)
    requires i < |s| == |t| && Scan(s, i, m).next == i + 1 && t[i] == Scan(s, i, m).text[0]
    requires t[i..i + 1] == Scan(s, i, m).text
    requires var next := Scan(s, i, m).mode;
             i + 1 < |s| && !next.Block? && !next.Line? ==> t[i + 1] == s[i + 1]
    ensures Scan(t, i, m) == Scan(s, i, m)
  {
  }

  lemma FirstCopied(s: string, i: nat, m: Mode)
    requires i < |s| && !m.Block? && !m.Line?
    ensures StripFrom(s, i, m)[0] == s[i]
  {
  }

  lemma {:induction false} StripAgain(s: string, t: string, i: nat, m: Mode)
    requires i <= |s| == |t| && t[i..] == StripFrom(s, i, m)
    ensures StripFrom(t, i, m) == StripFrom(s, i, m)
    decreases |s| - i, m.Line?
  {
    if i == |s| {
    } else {
      var step := Scan(s, i, m);
      ScanAgain(s, t, i, m);
      assert t[step.next..] == t[i..][step.next - i..];
      StripAgain(s, t, step.next, step.mode);
    }
  }

  lemma StripIdempotent(s: string)
    ensures Strip(Strip(s)) == Strip(s)
  {
    StripBlanks(s);
    var t := Strip(s);
    assert t[0..] == t;
    StripAgain(s, t, 0, Code);
  }

  // ---------- what is blanked, exactly ----------

  lemma StripStep(s: string, i: nat, m: Mode)
    requires i < |s|
    ensures var step := Scan(s, i, m); StripFrom(s, i, m) == step.text + StripFrom(s, step.next, step.mode)
  {
  }

  /** The scan, started at `i` in mode `m`, passes `k` within a comment, behind the signs that open it
      and before those that close it. */
  ghost predicate Commented(s: string, i: nat, m: Mode, k: nat)
    requires i <= k < |s|
    decreases |s| - i, m.Line?
  {
    var step := Scan(s, i, m);
    if k < step.next then m.Line? || (m.Block? && step.next == i + 1) else Commented(s, step.next, step.mode, k)
  }

  /** Exactly the characters within comments are blanked. */
  lemma {:induction false} CommentedIsBlanked(s: string, i: nat, m: Mode, k: nat)
    requires i <= k < |s|
    ensures |StripFrom(s, i, m)| == |s| - i
    ensures StripFrom(s, i, m)[k - i] == if Commented(s, i, m, k) then Blank(s[k]) else s[k]
    decreases |s| - i, m.Line?
  {
    var step := Scan(s, i, m);
    StripFromBlanks(s, i, m);
    StripStep(s, i, m);
    if k < step.next {
    } else {
      CommentedIsBlanked(s, step.next, step.mode, k);
    }
  }

  /** A comment begins only behind a slash or a star. */
  lemma {:induction false} NextUncommented(s: string, i: nat, m: Mode, k: nat)
    requires i <= k && k + 1 < |s| && !Commented(s, i, m, k) && s[k] != '/' && s[k] != '*'
    ensures !Commented(s, i, m, k + 1)
    decreases |s| - i, m.Line?
  {
    var step := Scan(s, i, m);
    if k < step.next {
    } else {
      NextUncommented(s, step.next, step.mode, k);
    }
  }

  /** Text without slashes and stars that begins outside comments, and the character behind it, is copied. */
  lemma {:induction false} RunIsCopied(s: string, k: nat, n: nat)
    requires k + n <= |s| && k < |s| && !Commented(s, 0, Code, k)
    requires forall j | k <= j < k + n :: s[j] != '/' && s[j] != '*'
    ensures |Strip(s)| == |s|
    ensures forall j | k <= j <= k + n && j < |s| :: Strip(s)[j] == s[j] && !Commented(s, 0, Code, j)
  {
    StripBlanks(s);
    if n > 0 {
      RunIsCopied(s, k, n - 1);
      if k + n < |s| {
        NextUncommented(s, 0, Code, k + n - 1);
        CommentedIsBlanked(s, 0, Code, k + n);
      }
    } else {
      CommentedIsBlanked(s, 0, Code, k);
    }
  }
}
