/** The tenant-scope guard for raw SQL: finds the calls in the stripped source, captures their bodies
    and reports the calls without a tenant predicate or an annotation, at lines of the raw source. */
module RawSqlGuard {
  import opened Text
  import opened CommentStripper
  import opened LineScan
  import opened CallForms
  import opened CallBodies
  import opened SourceForms

  const CALL := "$queryRaw"
  const CALL_UNSAFE := "$queryRawUnsafe"

  predicate IsWord(c: char) {
    'a' <= c <= 'z' || 'A' <= c <= 'Z' || '0' <= c <= '9' || c == '_'
  }

  predicate WholeWord(s: string, k: nat, token: string) {
    Occurs(s, k, token) && (k + |token| == |s| || !IsWord(s[k + |token|]))
  }

  /** The identifier of the call at `k`, empty if there is none. */
  function CalleeAt(s: string, k: nat): (callee: string)
    ensures callee != "" ==> Occurs(s, k, callee) && Occurs(s, k, CALL) && (callee == CALL || callee == CALL_UNSAFE)
  {
    if WholeWord(s, k, CALL_UNSAFE) then
      assert CALL == CALL_UNSAFE[..|CALL|];
      assert s[k..k + |CALL|] == s[k..k + |CALL_UNSAFE|][..|CALL|];
      CALL_UNSAFE
    else if WholeWord(s, k, CALL) then CALL
    else ""
  }

  /** The three regular expressions the guard applies to bodies and lines. */
  datatype Rules = Rules(tenant: string -> bool, composable: string -> bool, annotated: string -> bool)

  datatype Offence = Offence(line: nat, callee: string, preview: string)

  /** Runs of white space as single spaces. */
  function Collapse(s: string, inSpace: bool): string {
    if s == "" then ""
    else if !IsSpace(s[0]) then [s[0]] + Collapse(s[1..], false)
    else if inSpace then Collapse(s[1..], true)
    else " " + Collapse(s[1..], true)
  }

  function Preview(body: string): string {
    Take(Trim(Collapse(body, false)), 120)
  }

  /** The body is not known to be scoped to a tenant, and no line above the call is annotated. */
  predicate Offends(raw: string, k: nat, body: string, rules: Rules)
    requires k <= |raw|
  {
    && !rules.tenant(body)
    && !(rules.tenant(raw) && rules.composable(body))
    && forall line <- LastNonBlank(LinesAbove(raw, k), 3) :: !rules.annotated(line)
  }

  /** The offence at `k`, if any: the call and its body are read off the stripped source, the line
      and the annotation off the raw one. */
  function OffenceAt(raw: string, src: string, k: nat, rules: Rules): seq<Offence>
    requires k < |raw| == |src|
  {
    var callee := CalleeAt(src, k);
    if callee == "" then []
    else
      var body := Captured(src, k + |callee|);
      if body.Some? && Offends(raw, k, body.value.text, rules)
      then [Offence(LineOf(raw, k), callee, Preview(body.value.text))] else []
  }

  function OffencesFrom(raw: string, src: string, k: nat, rules: Rules): seq<Offence>
    requires k <= |raw| == |src|
    decreases |raw| - k
  {
    if k == |raw| then [] else OffenceAt(raw, src, k, rules) + OffencesFrom(raw, src, k + 1, rules)
  }

  /** Everything the guard owes for one file. */
  function Offences(raw: string, rules: Rules): seq<Offence> {
    StripBlanks(raw);
    OffencesFrom(raw, Strip(raw), 0, rules)
  }

  method ScanFile(raw: string, rules: Rules) returns (offences: seq<Offence>)
    ensures offences == Offences(raw, rules)
  {
    offences := [];
    StripBlanks(raw);
    if !Includes(raw, CALL) {
      NoCallNoOffence(raw, rules, 0);
      return;
    }
    var src := StripComments(raw);
    if !Includes(src, CALL) {
      NoCallNoOffence(raw, rules, 0);
      return;
    }
    offences := ScanCalls(raw, src, rules);
  }

  /** The loop over the calls in the stripped source. */
  method ScanCalls(raw: string, src: string, rules: Rules) returns (offences: seq<Offence>)
    requires src == Strip(raw) && |raw| == |src|
    ensures offences == OffencesFrom(raw, src, 0, rules)
  {
    offences := [];
    ghost var goal := OffencesFrom(raw, src, 0, rules);
    var fileHasTenantToken := rules.tenant(raw);
    var k := 0;
    while k < |src|
      invariant k <= |src| && offences + OffencesFrom(raw, src, k, rules) == goal
    {
      var found, next := Advance(raw, src, k, fileHasTenantToken, rules);
      offences, k := offences + found, next;
    }
  }

  /** Past one character, or past the call at `k` with what the guard finds there. */
  method Advance(raw: string, src: string, k: nat, fileHasTenantToken: bool, rules: Rules)
    returns (found: seq<Offence>, next: nat)
    requires src == Strip(raw) && k < |raw| == |src| && fileHasTenantToken == rules.tenant(raw)
    ensures k < next <= |src|
    ensures found + OffencesFrom(raw, src, next, rules) == OffencesFrom(raw, src, k, rules)
  {
    var callee := CalleeAt(src, k);
    if callee == "" {
      SkipOne(raw, src, k, rules);
      return [], k + 1;
    }
    NoCallInside(raw, src, k, k + |callee|, rules);
    found := CheckCall(raw, src, k, callee, fileHasTenantToken, rules);
    next := k + |callee|;
  }

  /** The checks on one call, up to reporting it. */
  method CheckCall(raw: string, src: string, k: nat, callee: string, fileHasTenantToken: bool, rules: Rules)
    returns (found: seq<Offence>)
    requires src == Strip(raw) && k < |raw| == |src| && callee == CalleeAt(src, k) != ""
    requires fileHasTenantToken == rules.tenant(raw)
    ensures found == OffenceAt(raw, src, k, rules)
  {
    var captured := CaptureBody(src, k + |callee|);
    if captured.None? {
      return [];
    }
    var body := captured.value.text;
    var excused := IsExcused(raw, k, body, fileHasTenantToken, rules);
    if excused {
      return [];
    }
    var line := LineNumberAt(src, k);
    StrippedLineIsRawLine(raw, k);
    return [Offence(line, callee, Preview(body))];
  }

  /** What lets a call with this body pass. */
  method IsExcused(raw: string, k: nat, body: string, fileHasTenantToken: bool, rules: Rules) returns (excused: bool)
    requires k <= |raw| && fileHasTenantToken == rules.tenant(raw)
    ensures excused == !Offends(raw, k, body, rules)
  {
    if rules.tenant(body) {
      return true;
    }
    if fileHasTenantToken && rules.composable(body) {
      return true;
    }
    var prevLines := PreviousNonBlankLines(raw, k, 3);
    return exists line <- prevLines :: rules.annotated(line);
  }

  lemma WholeWordAlike(raw: string, k: nat, token: string)
    requires k < |raw| && !CommentAt(raw, k)
    requires forall c <- token :: c != '/' && c != '*' && c != ' '
    ensures WholeWord(Strip(raw), k, token) == WholeWord(raw, k, token)
  {
    var src, n := Strip(raw), |token|;
    StripBlanks(raw);
    CommentAtIs(raw, k);
    if Occurs(src, k, token) {
      StripKeepsPlace(raw, k, token);
    }
    if Occurs(raw, k, token) {
      forall j | k <= j < k + n
        ensures raw[j] != '/' && raw[j] != '*'
      {
        assert raw[j] == raw[k..k + n][j - k] == token[j - k] && token[j - k] in token;
      }
      RunIsCopied(raw, k, n);
      assert src[k..k + n] == raw[k..k + n];
    }
  }

  /** Stripping hides exactly the calls within comments: every other one is found at its place, and nothing
      that is no call in the raw source becomes one. */
  lemma CallsOutsideComments(raw: string, k: nat)
    requires k < |raw|
    ensures CalleeAt(Strip(raw), k) == if CommentAt(raw, k) then "" else CalleeAt(raw, k)
  {
    CommentAtIs(raw, k);
    if CommentAt(raw, k) {
      CallStartsItself(Strip(raw), k);
    } else {
      WholeWordAlike(raw, k, CALL);
      WholeWordAlike(raw, k, CALL_UNSAFE);
    }
  }

  /** A regular expression is no form of its own: two slashes in one hide a call behind it. */
  lemma RegexHidesCall(raw: string)
    requires raw == "/\\//; $queryRaw(x)"
    ensures CalleeAt(raw, 6) == CALL && CalleeAt(Strip(raw), 6) == ""
  {
    RegexIsComment(raw);
    RegexBeforeCall(raw);
    CallsOutsideComments(raw, 6);
  }

  lemma RegexIsComment(raw: string)
    requires raw == "/\\//; $queryRaw(x)"
    ensures CommentAt(raw, 6)
  {
    var a, text := raw[..2], raw[4..];
    assert raw == a + ("//" + text);
    assert a[0] == '/' && a[1] == '\\' && PlainCode(a);
    assert text == "; $queryRaw(x)" && Free(text, NEWLINE);
    LineRemarkIsComment(a, text, 2);
  }

  lemma RegexBeforeCall(raw: string)
    requires raw == "/\\//; $queryRaw(x)"
    ensures CalleeAt(raw, 6) == CALL
  {
  }

  /** Of the calls outside comments exactly those are reported that offend, with their bodies as they stand
      in the source with its comments blanked, and with the line of the raw source. */
  lemma CallIsReported(p: Source, raw: string, k: nat, i: nat, e: nat, rules: Rules)
    requires IsSource(p, raw) && k < |raw| && CalleeAt(raw, k) != "" && !InComment(p, k)
    requires CallAt(Bare(p), k + |CalleeAt(raw, k)|, i, e)
    ensures |Strip(raw)| == |raw| == |Bare(p)|
    ensures var text := Bare(p)[i + 1..e];
            OffenceAt(raw, Strip(raw), k, rules) ==
            if Offends(raw, k, text, rules) then [Offence(LineOf(raw, k), CalleeAt(raw, k), Preview(text))] else []
  {
    StrippedIsBare(p);
    StripBlanks(raw);
    BlankedIffInComment(p, raw, k);
    CommentAtIs(raw, k);
    CallsOutsideComments(raw, k);
    CapturedIsBody(Bare(p), k + |CalleeAt(raw, k)|, i, e);
    OffenceOfBody(raw, Bare(p), k, Body(Bare(p)[i + 1..e], e + 1), rules);
  }

  lemma OffenceOfBody(raw: string, src: string, k: nat, body: Body, rules: Rules)
    requires k < |raw| == |src| && CalleeAt(src, k) != ""
    requires var start := k + |CalleeAt(src, k)|; start <= |src| && Captured(src, start).Some?
    requires body == Captured(src, k + |CalleeAt(src, k)|).value
    ensures OffenceAt(raw, src, k, rules) ==
            if Offends(raw, k, body.text, rules)
            then [Offence(LineOf(raw, k), CalleeAt(src, k), Preview(body.text))] else []
  {
  }

  ghost predicate HasBody(s: string, start: nat) {
    exists i: nat, e: nat :: CallAt(s, start, i, e)
  }

  /** Nothing is reported where there is no call, or only one in a comment or without a body. */
  lemma NothingElseIsReported(p: Source, raw: string, k: nat, rules: Rules)
    requires IsSource(p, raw) && k < |raw|
    requires InComment(p, k) || CalleeAt(raw, k) == "" || !HasBody(Bare(p), k + |CalleeAt(raw, k)|)
    ensures |Strip(raw)| == |raw| && OffenceAt(raw, Strip(raw), k, rules) == []
  {
    StrippedIsBare(p);
    StripBlanks(raw);
    BlankedIffInComment(p, raw, k);
    CommentAtIs(raw, k);
    CallsOutsideComments(raw, k);
    if CalleeAt(Strip(raw), k) != "" {
      CaptureFindsCall(Bare(p), k + |CalleeAt(raw, k)|);
    }
  }

  /** A call that is nowhere in a comment is reported exactly when it offends, with the text of the raw
      source. */
  lemma UncommentedCallIsReported(raw: string, k: nat, i: nat, e: nat, rules: Rules)
    requires k < |raw| && CalleeAt(raw, k) != "" && CallAt(raw, k + |CalleeAt(raw, k)|, i, e)
    requires forall j | k <= j <= e :: !CommentAt(raw, j)
    ensures |Strip(raw)| == |raw|
    ensures var text := raw[i + 1..e];
            OffenceAt(raw, Strip(raw), k, rules) ==
            if Offends(raw, k, text, rules) then [Offence(LineOf(raw, k), CalleeAt(raw, k), Preview(text))] else []
  {
    var src, start := Strip(raw), k + |CalleeAt(raw, k)|;
    StripBlanks(raw);
    forall j | k <= j <= e
      ensures src[j] == raw[j]
    {
      CommentAtIs(raw, j);
    }
    CallAlike(raw, src, start, i, e);
    var p := EveryTextIsSource(raw);
    StrippedIsBare(p);
    assert CommentAt(raw, k) <== InComment(p, k);
    CallIsReported(p, raw, k, i, e, rules);
  }

  /** A call spelled within a literal is found like any other, whatever the comment on the scanner says. */
  lemma QuotedCallIsFound(raw: string, a: nat, z: nat, k: nat)
    requires LiteralAt(raw, a, z) && a < k < z
    ensures k < |raw| && CalleeAt(Strip(raw), k) == CalleeAt(raw, k)
  {
    LiteralIsNoComment(raw, a, z, k);
    CallsOutsideComments(raw, k);
  }

  /** And if the literal holds the whole call, it is reported exactly when it offends. */
  lemma QuotedCallIsReported(raw: string, a: nat, z: nat, k: nat, i: nat, e: nat, rules: Rules)
    requires LiteralAt(raw, a, z) && a < k && e < z
    requires k < |raw| && CalleeAt(raw, k) != "" && CallAt(raw, k + |CalleeAt(raw, k)|, i, e)
    ensures |Strip(raw)| == |raw|
    ensures var text := raw[i + 1..e];
            OffenceAt(raw, Strip(raw), k, rules) ==
            if Offends(raw, k, text, rules) then [Offence(LineOf(raw, k), CalleeAt(raw, k), Preview(text))] else []
  {
    forall j | k <= j <= e
      ensures !CommentAt(raw, j)
    {
      LiteralIsNoComment(raw, a, z, j);
    }
    UncommentedCallIsReported(raw, k, i, e, rules);
  }

  /** The offences of a file are those of its positions. */
  lemma {:induction false} OffencesHold(raw: string, src: string, j: nat, k: nat, rules: Rules)
    requires j <= k < |raw| == |src|
    ensures forall o <- OffenceAt(raw, src, k, rules) :: o in OffencesFrom(raw, src, j, rules)
    decreases k - j
  {
    OffencesNext(raw, src, j, rules);
    if j == k {
    } else {
      OffencesHold(raw, src, j + 1, k, rules);
    }
  }

  lemma OffencesNext(raw: string, src: string, j: nat, rules: Rules)
    requires j < |raw| == |src|
    ensures OffencesFrom(raw, src, j, rules) == OffenceAt(raw, src, j, rules) + OffencesFrom(raw, src, j + 1, rules)
  {
  }

  lemma ExampleIsLiteral(raw: string)
    requires raw == "'$queryRaw(x)'"
    ensures LiteralAt(raw, 0, 13)
  {
    assert raw == [raw[0]] + (raw[1..13] + [raw[0]]);
    TextIsLiteral(raw[0], raw[1..13]);
  }

  lemma ExampleIsCall(raw: string)
    requires raw == "'$queryRaw(x)'"
    ensures CalleeAt(raw, 1) == CALL && CallAt(raw, 10, 10, 12) && raw[11..12] == "x"
  {
    assert PrintArgs(Other('x', NoMore)) == "x" && Holds(raw, 11, "x");
  }

  lemma FirstLine(raw: string)
    requires raw != "" && raw[0] != NEWLINE
    ensures LineOf(raw, 1) == 1 && LinesAbove(raw, 1) == []
  {
    assert raw[..1] == [raw[0]];
    SplitFree(raw[..1], NEWLINE);
  }

  lemma QuotedIsOffence(raw: string, z: nat, i: nat, e: nat, text: string, rules: Rules)
    requires LiteralAt(raw, 0, z) && e < z < |raw| && CalleeAt(raw, 1) == CALL && CallAt(raw, 1 + |CALL|, i, e)
    requires text == raw[i + 1..e] && !rules.tenant(text) && !rules.composable(text) && LinesAbove(raw, 1) == []
    ensures Offence(LineOf(raw, 1), CALL, Preview(text)) in Offences(raw, rules)
  {
    QuotedCallIsReported(raw, 0, z, 1, i, e, rules);
    OffencesHold(raw, Strip(raw), 0, 1, rules);
    assert LastNonBlank([], 3) == [];
    assert OffenceAt(raw, Strip(raw), 1, rules)[0] == Offence(LineOf(raw, 1), CALL, Preview(text));
  }

  /** A file that only mentions a call in a literal is reported for it, unless the tests take its argument
      for a tenant or for a fragment. */
  lemma QuotedCallExample(raw: string, rules: Rules)
    requires raw == "'$queryRaw(x)'" && !rules.tenant("x") && !rules.composable("x")
    ensures Offence(1, CALL, Preview("x")) in Offences(raw, rules)
  {
    ExampleIsLiteral(raw);
    ExampleIsCall(raw);
    FirstLine(raw);
    QuotedIsOffence(raw, 13, 10, 12, "x", rules);
  }

  lemma {:induction false} NoCallNoOffence(raw: string, rules: Rules, k: nat)
    requires |Strip(raw)| == |raw| && k <= |raw| && (!Includes(raw, CALL) || !Includes(Strip(raw), CALL))
    ensures OffencesFrom(raw, Strip(raw), k, rules) == []
    decreases |raw| - k
  {
    if k == |raw| {
    } else {
      var src := Strip(raw);
      if CalleeAt(src, k) != "" {
        assert Occurs(src, k, CALL) && Includes(src, CALL);
        StripKeepsPlace(raw, k, CALL);
        assert Occurs(raw, k, CALL) && Includes(raw, CALL);
      }
      NoCallNoOffence(raw, rules, k + 1);
    }
  }

  lemma CallStartsItself(src: string, j: nat)
    ensures Occurs(src, j, CALL) ==> src[j] == CALL[0]
  {
    if Occurs(src, j, CALL) {
      assert src[j..j + |CALL|][0] == CALL[0];
    }
  }

  /** No call starts within the identifier of another one. */
  lemma NoCallInside(raw: string, src: string, k: nat, next: nat, rules: Rules)
    requires k < |raw| == |src| && CalleeAt(src, k) != "" && next == k + |CalleeAt(src, k)|
    ensures OffencesFrom(raw, src, k, rules) == OffenceAt(raw, src, k, rules) + OffencesFrom(raw, src, next, rules)
  {
    var callee := CalleeAt(src, k);
    assert next <= |src|;
    forall j | k + 1 <= j < next
      ensures CalleeAt(src, j) == ""
    {
      assert src[j] == src[k..next][j - k] == callee[j - k] != CALL[0];
      CallStartsItself(src, j);
    }
    SkipNone(raw, src, k + 1, next, rules);
  }

  lemma SkipOne(raw: string, src: string, k: nat, rules: Rules)
    requires k < |raw| == |src| && CalleeAt(src, k) == ""
    ensures OffencesFrom(raw, src, k, rules) == OffencesFrom(raw, src, k + 1, rules)
  {
  }

  lemma {:induction false} SkipNone(raw: string, src: string, k: nat, next: nat, rules: Rules)
    requires k <= next <= |raw| == |src| && forall j | k <= j < next :: CalleeAt(src, j) == ""
    ensures OffencesFrom(raw, src, k, rules) == OffencesFrom(raw, src, next, rules)
    decreases next - k
  {
    if k == next {
    } else {
      SkipOne(raw, src, k, rules);
      SkipNone(raw, src, k + 1, next, rules);
    }
  }
}
