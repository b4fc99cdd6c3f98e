/** The body of a raw SQL call: a tagged template or a list of arguments, read from behind the callee. */
module CallBodies {
  import opened Text
  import opened CallForms
  import opened CommentStripper
  import opened Wrappers

  method CaptureBody(src: string, start: nat) returns (body: Option<Body>)
    requires start <= |src|
    ensures body == Captured(src, start)
    ensures IsBodyAt(body, src, start)
  {
    CaptureFindsCall(src, start);
    body := CaptureFrom(src, start);
  }

  method CaptureFrom(src: string, start: nat) returns (body: Option<Body>)
    requires start <= |src|
    ensures body == Captured(src, start)
  {
    var i := FindOpener(src, start);
    if i >= |src| {
      return None;
    }
    var close: Option<nat> := None;
    if src[i] == '`' {
      close := FindTemplateClose(src, i + 1);
    } else if src[i] == '(' {
      close := FindParenClose(src, i + 1);
    }
    body := if close.Some? then Some(Body(src[i + 1..close.value], close.value + 1)) else None;
  }

  /** Past white space and optional generics. */
  method FindOpener(src: string, start: nat) returns (i: nat)
    requires start <= |src|
    ensures i == Opener(src, start)
  {
    i := SkipSpaces(src, start);
    if i < |src| && src[i] == '<' {
      i := SkipBrackets(src, i);
      i := SkipSpaces(src, i);
    }
  }

  method SkipBrackets(src: string, start: nat) returns (i: nat)
    requires start <= |src|
    ensures i == SkipGenerics(src, start, 0)
    ensures start < |src| && src[start] == '<' ==>
              (forall e: nat :: GenericsTo(src, start, e) ==> i == e + 1)
              && (i == |src| || exists e: nat :: GenericsTo(src, start, e))
  {
    if start < |src| && src[start] == '<' {
      GenericsFindEnd(src, start);
    }
    i := start;
    var depth := 0;
    while i < |src|
      invariant start <= i <= |src| && SkipGenerics(src, i, depth) == SkipGenerics(src, start, 0)
    {
      var c := src[i];
      if c == '<' {
        depth := depth + 1;
      } else if c == '>' {
        depth := depth - 1;
        if depth == 0 {
          return i + 1;
        }
      }
      i := i + 1;
    }
  }

  method FindTemplateClose(src: string, start: nat) returns (close: Option<nat>)
    requires start <= |src|
    ensures close == TemplateClose(src, start)
    ensures forall e: nat :: close == Some(e) <==> QuotedTo(src, start, e, '`', true)
  {
    TemplateCloseFindsEnd(src, start);
    var j := start;
    while j < |src|
      invariant start <= j <= |src| && TemplateClose(src, j) == TemplateClose(src, start)
    {
      var c := src[j];
      if c == '\\' {
        j := Min(j + 2, |src|);
      } else if Pair(src, j, '$', '{') {
        j := SkipInterpolation(src, j + 2);
      } else if c == '`' {
        return Some(j);
      } else {
        j := j + 1;
      }
    }
    close := None;
  }

  method SkipInterpolation(src: string, start: nat) returns (j: nat)
    requires start <= |src|
    ensures j == InterpEnd(src, start, 1)
    ensures forall e: nat :: ClosesAt(src, start, e, '{', '}') ==> j == e + 1
    ensures j == |src| || exists e: nat :: ClosesAt(src, start, e, '{', '}')
  {
    InterpolationFindsEnd(src, start);
    j := start;
    var depth := 1;
    while j < |src| && depth > 0
      invariant start <= j <= |src| && depth >= 0 && InterpEnd(src, j, depth) == InterpEnd(src, start, 1)
    {
      if src[j] == '{' {
        depth := depth + 1;
      } else if src[j] == '}' {
        depth := depth - 1;
      }
      j := j + 1;
    }
  }

  method FindParenClose(src: string, start: nat) returns (close: Option<nat>)
    requires start <= |src|
    ensures close == ParenClose(src, start, 1)
    ensures forall e: nat :: close == Some(e) <==> ListedTo(src, start, e)
  {
    ParenCloseFindsEnd(src, start);
    var j, depth := start, 1;
    while j < |src|
      invariant start <= j <= |src| && depth > 0 && ParenClose(src, j, depth) == ParenClose(src, start, 1)
    {
      var c := src[j];
      if c == '(' {
        depth := depth + 1;
      } else if c == ')' {
        if depth == 1 {
          return Some(j);
        }
        depth := depth - 1;
      } else if IsQuote(c) {
        j := FindLiteralClose(src, j + 1, c);
      }
      j := Min(j + 1, |src|);
    }
    close := None;
  }

  method FindLiteralClose(src: string, start: nat, quote: char) returns (j: nat)
    requires start <= |src| && quote != '\\'
    ensures j == LiteralClose(src, start, quote)
    ensures forall e: nat :: j == e < |src| <==> QuotedTo(src, start, e, quote, false)
  {
    LiteralCloseFindsEnd(src, start, quote);
    j := start;
    while j < |src|
      invariant start <= j <= |src| && LiteralClose(src, j, quote) == LiteralClose(src, start, quote)
    {
      if src[j] == '\\' {
        j := Min(j + 2, |src|);
      } else if src[j] == quote {
        return;
      } else {
        j := j + 1;
      }
    }
  }

  // ---------- the body of a tagged template is the raw text ----------

  /** The scanner, started at `i` in mode `m`, comes to `k` outside all literals and comments. */
  ghost predicate CodeAt(s: string, i: nat, m: Mode, k: nat)
    requires i <= |s|
    decreases |s| - i, m.Line?
  {
    (i == k && m.Code?) || (i < |s| && CodeAt(s, Scan(s, i, m).next, Scan(s, i, m).mode, k))
  }

  lemma {:induction false} CodeSuffix(s: string, i: nat, m: Mode, k: nat)
    requires i <= |s| && CodeAt(s, i, m, k)
    ensures i <= k <= |s| && |StripFrom(s, i, m)| == |s| - i
    ensures StripFrom(s, i, m)[k - i..] == StripFrom(s, k, Code)
    decreases |s| - i, m.Line?
  {
    StripFromBlanks(s, i, m);
    if i == k && m.Code? {
    } else {
      var step := Scan(s, i, m);
      CodeSuffix(s, step.next, step.mode, k);
    }
  }

  /** `t` goes on at `i` with what the scanner emits for `s` from there on. */
  ghost predicate Follows(s: string, t: string, i: nat, m: Mode) {
    i <= |s| && |s| == |t| && t[i..] == StripFrom(s, i, m)
  }

  ghost predicate SameOn(s: string, t: string, i: nat, j: nat)
    requires j <= |s| && |s| == |t|
  {
    forall k | i <= k < j :: t[k] == s[k]
  }

  lemma FollowsStep(s: string, t: string, i: nat, m: Mode)
    requires Follows(s, t, i, m) && i < |s|
    ensures Scan(t, i, m) == Scan(s, i, m)
    ensures Follows(s, t, Scan(s, i, m).next, Scan(s, i, m).mode)
    ensures !m.Block? && !m.Line? ==> SameOn(s, t, i, Scan(s, i, m).next)
  {
    var step := Scan(s, i, m);
    ScanAgain(s, t, i, m);
    assert t[step.next..] == t[i..][step.next - i..] == StripFrom(s, step.next, step.mode);
    if !m.Block? && !m.Line? {
      assert forall k | i <= k < step.next :: step.text[k - i] == s[k] && step.text[k - i] == t[k];
    }
  }

  lemma InterpCloses(s: string, j: nat)
    requires j < |s| && s[j] == '}'
    ensures InterpEnd(s, j, 1) == j + 1
  {
  }

  lemma {:induction false} InterpCopied(s: string, t: string, j: nat, d: nat)
    requires Follows(s, t, j, Interp(d))
    ensures InterpEnd(t, j, d + 1) == InterpEnd(s, j, d + 1)
    ensures SameOn(s, t, j, InterpEnd(s, j, d + 1))
    ensures InterpEnd(s, j, d + 1) == |s| || Follows(s, t, InterpEnd(s, j, d + 1), Quoted('`'))
    decreases |s| - j
  {
    if j >= |s| {
    } else {
      FollowsStep(s, t, j, Interp(d));
      if Scan(s, j, Interp(d)).mode.Interp? {
        InterpCopied(s, t, j + 1, Scan(s, j, Interp(d)).mode.inner);
      } else {
        InterpCloses(s, j);
        InterpCloses(t, j);
      }
    }
  }

  /** The search for the end of a template moves as the scanner does inside of one. */
  lemma TemplateCloseByScan(s: string, j: nat)
    requires j < |s|
    ensures var step := Scan(s, j, Quoted('`'));
            TemplateClose(s, j) ==
            match step.mode
            case Code => Some(j)
            case Interp(_) => TemplateClose(s, InterpEnd(s, j + 2, 1))
            case _ => TemplateClose(s, step.next)
    ensures Scan(s, j, Quoted('`')).mode.Interp? ==> Scan(s, j, Quoted('`')) == Step("${", j + 2, Interp(0))
  {
  }

  /** The end of a template is found at the same place in the stripped and in the raw source, and the
      text up to it is the same. */
  lemma {:induction false} TemplateCopied(s: string, t: string, j: nat)
    requires Follows(s, t, j, Quoted('`'))
    ensures TemplateClose(t, j) == TemplateClose(s, j)
    ensures TemplateClose(s, j).Some? ==> SameOn(s, t, j, TemplateClose(s, j).value)
    decreases |s| - j
  {
    if j >= |s| {
    } else {
      var step := Scan(s, j, Quoted('`'));
      FollowsStep(s, t, j, Quoted('`'));
      TemplateCloseByScan(s, j);
      TemplateCloseByScan(t, j);
      if step.mode.Interp? {
        InterpCopied(s, t, j + 2, 0);
        var e := InterpEnd(s, j + 2, 1);
        if e < |s| {
          TemplateCopied(s, t, e);
          StillSame(s, t, j, e, TemplateClose(s, e));
        }
      } else if step.mode.Quoted? {
        TemplateCopied(s, t, step.next);
        StillSame(s, t, j, step.next, TemplateClose(s, step.next));
      }
    }
  }

  lemma StillSame(s: string, t: string, i: nat, j: nat, e: Option<nat>)
    requires |s| == |t| && i <= j <= |s| && SameOn(s, t, i, j)
    requires e.Some? ==> j <= e.value <= |s| && SameOn(s, t, j, e.value)
    ensures e.Some? ==> SameOn(s, t, i, e.value)
  {
  }

  lemma CapturedTemplate(s: string, i: nat)
    requires i < |s| && s[i] == '`'
    ensures var e := TemplateClose(s, i + 1);
            Captured(s, i) == if e.None? then None else Some(Body(s[i + 1..e.value], e.value + 1))
  {
    OpenerHere(s, i);
    CapturedHere(s, i);
  }

  lemma OpenerHere(s: string, i: nat)
    requires i < |s| && s[i] == '`'
    ensures Opener(s, i) == i
  {
    SkipSpaceIs(s, i, i);
  }

  lemma CapturedHere(s: string, i: nat)
    requires i < |s| && s[i] == '`' && Opener(s, i) == i
    ensures var e := TemplateClose(s, i + 1);
            Captured(s, i) == if e.None? then None else Some(Body(s[i + 1..e.value], e.value + 1))
  {
  }

  /** What is captured as the body of a tagged template is the raw text between the backticks, with
      nothing in it blanked. */
  lemma TemplateBodyIsRaw(raw: string, i: nat)
    requires i < |raw| && raw[i] == '`' && CodeAt(raw, 0, Code, i)
    ensures |Strip(raw)| == |raw| && Strip(raw)[i] == '`'
    ensures Captured(Strip(raw), i) == Captured(raw, i)
  {
    StripBlanks(raw);
    CodeSuffix(raw, 0, Code, i);
    TemplateCapturedAlike(raw, Strip(raw), i);
  }

  lemma TemplateCapturedAlike(raw: string, t: string, i: nat)
    requires i < |raw| && raw[i] == '`' && Follows(raw, t, i, Code)
    ensures t[i] == '`' && Captured(t, i) == Captured(raw, i)
  {
    TemplateAlike(raw, t, i);
    CapturedTemplate(raw, i);
    CapturedTemplate(t, i);
  }

  lemma TemplateAlike(raw: string, t: string, i: nat)
    requires i < |raw| && raw[i] == '`' && Follows(raw, t, i, Code)
    ensures |t| == |raw| && t[i] == '`'
    ensures var e := TemplateClose(raw, i + 1);
            TemplateClose(t, i + 1) == e && (e.Some? ==> t[i + 1..e.value] == raw[i + 1..e.value])
  {
    FollowsStep(raw, t, i, Code);
    TemplateCopied(raw, t, i + 1);
    var e := TemplateClose(raw, i + 1);
    if e.Some? {
      assert t[i + 1..e.value] == raw[i + 1..e.value];
    }
  }

  // ---------- nothing within a literal is taken for a comment ----------

  lemma {:induction false} InterpScanned(s: string, j: nat, d: nat, k: nat)
    requires j <= k < |s|
    ensures var e := InterpEnd(s, j, d + 1);
            Commented(s, j, Interp(d), k) == (k >= e && Commented(s, e, Quoted('`'), k))
    decreases |s| - j
  {
    if Scan(s, j, Interp(d)).mode.Quoted? {
      InterpCloses(s, j);
    } else if j < k {
      InterpScanned(s, j + 1, Scan(s, j, Interp(d)).mode.inner, k);
    }
  }

  /** The scan of a template comes to the code behind its end, if it has one, and blanks nothing before. */
  lemma {:induction false} TemplateScanned(s: string, j: nat, k: nat)
    requires j <= k < |s|
    ensures var e := TemplateClose(s, j);
            Commented(s, j, Quoted('`'), k) == (e.Some? && e.value < k && Commented(s, e.value + 1, Code, k))
    decreases |s| - j
  {
    var step := Scan(s, j, Quoted('`'));
    TemplateCloseByScan(s, j);
    if step.next <= k {
      if step.mode.Interp? {
        InterpScanned(s, j + 2, 0, k);
        var e := InterpEnd(s, j + 2, 1);
        if e <= k {
          TemplateScanned(s, e, k);
        }
      } else if step.mode.Quoted? {
        TemplateScanned(s, step.next, k);
      }
    }
  }

  lemma {:induction false} LiteralScanned(s: string, j: nat, quote: char, k: nat)
    requires quote != '`' && quote != '\\' && j <= k < |s|
    ensures var e := LiteralClose(s, j, quote);
            Commented(s, j, Quoted(quote), k) == (e < k && Commented(s, e + 1, Code, k))
    decreases |s| - j
  {
    var step := Scan(s, j, Quoted(quote));
    if step.next <= k && step.mode.Quoted? {
      LiteralScanned(s, step.next, quote, k);
    }
  }

  // ---------- where two texts agree, they have the same calls ----------

  lemma HoldsAlike(s: string, t: string, j: nat, part: string)
    requires |s| == |t| && Holds(s, j, part) && j + |part| <= |s| && SameOn(s, t, j, j + |part|)
    ensures Holds(t, j, part)
  {
    HoldsIs(s, j, part);
    HoldsIs(t, j, part);
    assert s[j..j + |part|] == t[j..j + |part|];
  }

  lemma ClosesAlike(s: string, t: string, j: nat, e: nat, open: char, close: char)
    requires |s| == |t| && ClosesAt(s, j, e, open, close) && SameOn(s, t, j, e + 1)
    ensures ClosesAt(t, j, e, open, close)
  {
    var n :| Matching(n, open, close) && Holds(s, j, Print(n, open, close)) && e == j + |Print(n, open, close)|;
    HoldsAlike(s, t, j, Print(n, open, close));
  }

  lemma QuotedAlike(s: string, t: string, j: nat, e: nat, quote: char, template: bool)
    requires |s| == |t| && QuotedTo(s, j, e, quote, template) && SameOn(s, t, j, e + 1)
    ensures QuotedTo(t, j, e, quote, template)
  {
    var n :| Encloses(n, quote, template) && Holds(s, j, PrintInside(n)) && e == j + |PrintInside(n)|;
    HoldsAlike(s, t, j, PrintInside(n));
  }

  lemma ListedAlike(s: string, t: string, j: nat, e: nat)
    requires |s| == |t| && ListedTo(s, j, e) && SameOn(s, t, j, e + 1)
    ensures ListedTo(t, j, e)
  {
    var a :| Listed(a) && Holds(s, j, PrintArgs(a)) && e == j + |PrintArgs(a)|;
    HoldsAlike(s, t, j, PrintArgs(a));
  }

  lemma HeadAlike(s: string, t: string, start: nat, i: nat)
    requires i <= |s| == |t| && HeadTo(s, start, i) && SameOn(s, t, start, i)
    ensures HeadTo(t, start, i)
  {
    if !AllSpace(s, start, i) {
      var k: nat, e: nat :| GenericsBetween(s, start, k, e, i);
      ClosesAlike(s, t, k + 1, e, '<', '>');
      assert GenericsBetween(t, start, k, e, i);
    }
  }

  lemma CallAlike(s: string, t: string, start: nat, i: nat, e: nat)
    requires |s| == |t| && CallAt(s, start, i, e) && SameOn(s, t, start, e + 1)
    ensures CallAt(t, start, i, e) && t[i + 1..e] == s[i + 1..e]
  {
    HeadAlike(s, t, start, i);
    if s[i] == '`' {
      QuotedAlike(s, t, i + 1, e, '`', true);
    } else {
      ListedAlike(s, t, i + 1, e);
    }
  }
}
