/** What a source is made of, and what stripping makes of it: letters, literals and comments, whatever
    the scanner does to find them. The forms know no regular expression literals, as the scanner does not. */
module SourceForms {
  import opened Text
  import opened CallBodies
  import opened CallForms
  import opened CommentStripper
  import opened Wrappers

  /** A source from its start: letters, block and line comments and literals, and at its end perhaps a
      comment or a literal that is not closed. */
  datatype Source =
    | Finish
    | Letter(c: char, rest: Source)
    | Remark(text: string, rest: Source)
    | LineRemark(text: string, rest: Source)
    | Quotation(quote: char, inside: Inside, rest: Source)
    | OpenRemark(text: string)
    | OpenQuotation(quote: char, text: string)

  function Written(p: Source): string {
    match p
    case Finish => ""
    case Letter(c, rest) => [c] + Written(rest)
    case Remark(text, rest) => "/*" + (text + ("*/" + Written(rest)))
    case LineRemark(text, rest) => "//" + (text + Written(rest))
    case Quotation(quote, inside, rest) => [quote] + (PrintInside(inside) + ([quote] + Written(rest)))
    case OpenRemark(text) => "/*" + text
    case OpenQuotation(quote, text) => [quote] + text
  }

  function Blanks(b: string): string {
    if b == "" then "" else [Blank(b[0])] + Blanks(b[1..])
  }

  /** The same with the text of the comments blanked. */
  function Bare(p: Source): string {
    match p
    case Finish => ""
    case Letter(c, rest) => [c] + Bare(rest)
    case Remark(text, rest) => "/*" + (Blanks(text) + ("*/" + Bare(rest)))
    case LineRemark(text, rest) => "//" + (Blanks(text) + Bare(rest))
    case Quotation(quote, inside, rest) => [quote] + (PrintInside(inside) + ([quote] + Bare(rest)))
    case OpenRemark(text) => "/*" + Blanks(text)
    case OpenQuotation(quote, text) => [quote] + text
  }

  ghost predicate NoBlockEnd(text: string) {
    forall k | 0 <= k < |text| :: !Pair(text, k, '*', '/')
  }

  /** The literal opened before `j` with `quote` ends at `e`, interpolations passed over in a template. */
  ghost predicate EndsAt(s: string, j: nat, e: nat, quote: char) {
    QuotedTo(s, j, e, quote, quote == '`')
  }

  ghost predicate StartsWith(s: string, c: char) {
    s != "" && s[0] == c
  }

  /** Each part ends where it is said to end, and none could be taken for another. */
  ghost predicate WellFormed(p: Source) {
    match p
    case Finish => true
    case Letter(c, rest) =>
      && !IsQuote(c) && WellFormed(rest)
      && (c == '/' ==> !StartsWith(Written(rest), '/') && !StartsWith(Written(rest), '*'))
    case Remark(text, rest) => NoBlockEnd(text) && WellFormed(rest)
    case LineRemark(text, rest) =>
      Free(text, NEWLINE) && WellFormed(rest) && (Written(rest) == "" || StartsWith(Written(rest), NEWLINE))
    case Quotation(quote, inside, rest) =>
      IsQuote(quote) && Encloses(inside, quote, quote == '`') && WellFormed(rest)
    case OpenRemark(text) => NoBlockEnd(text)
    case OpenQuotation(quote, text) => IsQuote(quote) && forall e: nat :: !EndsAt(text, 0, e, quote)
  }

  ghost predicate IsSource(p: Source, s: string) {
    WellFormed(p) && Written(p) == s
  }

  /** The `k`-th character is in the text of a comment. */
  ghost predicate InComment(p: Source, k: int) {
    match p
    case Finish => false
    case Letter(_, rest) => InComment(rest, k - 1)
    case Remark(text, rest) => 2 <= k < 2 + |text| || InComment(rest, k - |text| - 4)
    case LineRemark(text, rest) => 2 <= k < 2 + |text| || InComment(rest, k - |text| - 2)
    case Quotation(_, inside, rest) => InComment(rest, k - |PrintInside(inside)| - 2)
    case OpenRemark(text) => 2 <= k < 2 + |text|
    case OpenQuotation(_, _) => false
  }

  lemma {:induction false} InCommentWithin(p: Source, k: int)
    ensures InComment(p, k) ==> 0 <= k < |Written(p)|
  {
    match p
    case Letter(_, rest) => InCommentWithin(rest, k - 1);
    case Remark(text, rest) => InCommentWithin(rest, k - |text| - 4);
    case LineRemark(text, rest) => InCommentWithin(rest, k - |text| - 2);
    case Quotation(_, inside, rest) => InCommentWithin(rest, k - |PrintInside(inside)| - 2);
    case _ =>
  }

  // ---------- the scanner passes each form ----------

  /** `e` is the first end of a block comment from `j` on, or the end of the text. */
  ghost predicate BlockEndsAt(s: string, j: nat, e: nat) {
    j <= e <= |s| && (e < |s| ==> Pair(s, e, '*', '/')) && forall x | j <= x < e :: !Pair(s, x, '*', '/')
  }

  lemma {:induction false} BlockPassed(s: string, j: nat, e: nat, k: nat)
    requires BlockEndsAt(s, j, e) && j <= k < |s|
    ensures Commented(s, j, Block, k) == (k < e || (e + 2 <= k && Commented(s, e + 2, Code, k)))
    decreases e - j
  {
    if j == e || j == k {
    } else {
      BlockPassed(s, j + 1, e, k);
    }
  }

  ghost predicate LineEndsAt(s: string, j: nat, e: nat) {
    j <= e <= |s| && (e < |s| ==> s[e] == NEWLINE) && forall x | j <= x < e :: s[x] != NEWLINE
  }

  lemma {:induction false} LinePassed(s: string, j: nat, e: nat, k: nat)
    requires LineEndsAt(s, j, e) && j <= k < |s|
    ensures Commented(s, j, Line, k) == (k < e || Commented(s, e, Code, k))
    decreases e - j
  {
    if j == e || j == k {
    } else {
      LinePassed(s, j + 1, e, k);
    }
  }

  /** A literal that starts at `i` and ends at `e` is passed without blanking anything. */
  lemma QuotationPassed(s: string, i: nat, e: nat, k: nat)
    requires i < |s| && IsQuote(s[i]) && EndsAt(s, i + 1, e, s[i]) && i <= k < |s|
    ensures Commented(s, i, Code, k) == (e < k && Commented(s, e + 1, Code, k))
  {
    assert Scan(s, i, Code) == Step([s[i]], i + 1, Quoted(s[i]));
    if s[i] == '`' {
      TemplateCloseIsEnd(s, i + 1, e);
      if i < k { TemplateScanned(s, i + 1, k); }
    } else {
      LiteralCloseIsEnd(s, i + 1, s[i], e);
      if i < k { LiteralScanned(s, i + 1, s[i], k); }
    }
  }

  lemma OpenQuotationPassed(s: string, i: nat, text: string, k: nat)
    requires i < |s| && IsQuote(s[i]) && i <= k < |s| && text == s[i + 1..]
    requires forall e: nat :: !EndsAt(text, 0, e, s[i])
    ensures !Commented(s, i, Code, k)
  {
    var close := if s[i] == '`' then TemplateClose(s, i + 1) else Closed(s, i + 1, s[i]);
    assert Scan(s, i, Code) == Step([s[i]], i + 1, Quoted(s[i]));
    if close.Some? {
      TemplateCloseIsEnd(s, i + 1, close.value);
      LiteralCloseIsEnd(s, i + 1, s[i], close.value);
      EndInRest(s, i + 1, close.value, s[i]);
      assert false;
    } else if i < k {
      if s[i] == '`' {
        TemplateScanned(s, i + 1, k);
      } else {
        LiteralScanned(s, i + 1, s[i], k);
      }
    }
  }

  lemma EndInText(s: string, j: nat, e: nat, quote: char) returns (t: Inside)
    requires j <= |s| && EndsAt(s[j..], 0, e, quote)
    ensures Encloses(t, quote, quote == '`') && Holds(s, j, PrintInside(t)) && e == |PrintInside(t)|
    ensures j + e < |s| && s[j + e] == quote
  {
    var template := quote == '`';
    t :| Encloses(t, quote, template) && Holds(s[j..], 0, PrintInside(t)) && e == 0 + |PrintInside(t)|;
    HoldsIs(s[j..], 0, PrintInside(t));
    HoldsIs(s, j, PrintInside(t));
    assert s[j..j + e] == s[j..][..e];
  }

  function Closed(s: string, j: nat, quote: char): Option<nat>
    requires j <= |s|
  {
    if LiteralClose(s, j, quote) < |s| then Some(LiteralClose(s, j, quote)) else None
  }

  lemma EndInRest(s: string, j: nat, e: nat, quote: char)
    requires j <= |s| && EndsAt(s, j, e, quote)
    ensures j <= e && EndsAt(s[j..], 0, e - j, quote)
  {
    var template := quote == '`';
    var t :| Encloses(t, quote, template) && Holds(s, j, PrintInside(t)) && e == j + |PrintInside(t)|;
    HoldsIs(s, j, PrintInside(t));
    HoldsIs(s[j..], 0, PrintInside(t));
    assert s[j..][0..0 + |PrintInside(t)|] == s[j..e];
  }

  // ---------- what is blanked is what stands in comments ----------

  /** The form `p` stands at `i` and goes on to the end. */
  ghost predicate RestIs(s: string, i: nat, p: Source) {
    Holds(s, i, Written(p)) && i + |Written(p)| == |s|
  }

  lemma {:induction false} CommentedIffInComment(s: string, i: nat, p: Source, k: nat)
    requires WellFormed(p) && RestIs(s, i, p) && i <= k < |s|
    ensures Commented(s, i, Code, k) <==> InComment(p, k - i)
    decreases p, 0
  {
    match p
    case Finish =>
    case Letter(c, rest) =>
      HoldsParts(s, i, [c], Written(rest));
      LetterScanned(s, i, c, Written(rest));
      if i < k { CommentedIffInComment(s, i + 1, rest, k); } else { InCommentWithin(rest, -1); }
    case Remark(text, rest) => RemarkRead(s, i, text, rest, k);
    case LineRemark(text, rest) => LineRemarkRead(s, i, text, rest, k);
    case Quotation(quote, inside, rest) => QuotationRead(s, i, quote, inside, rest, k);
    case OpenRemark(text) =>
      HoldsParts(s, i, "/*", text);
      PairsHold(s, i + 2, text);
      assert BlockEndsAt(s, i + 2, |s|);
      if i + 2 <= k { BlockPassed(s, i + 2, |s|, k); }
    case OpenQuotation(quote, text) =>
      HoldsParts(s, i, [quote], text);
      HoldsIs(s, i + 1, text);
      assert s[i + 1..] == text;
      OpenQuotationPassed(s, i, text, k);
  }

  lemma LetterScanned(s: string, i: nat, c: char, rest: string)
    requires i < |s| && s[i] == c && Holds(s, i + 1, rest) && i + 1 + |rest| == |s| && !IsQuote(c)
    requires c == '/' ==> !StartsWith(rest, '/') && !StartsWith(rest, '*')
    ensures Scan(s, i, Code) == Step([c], i + 1, Code)
  {
  }

  /** Pairs of characters in a part of a text are those of the part. */
  lemma PairsHold(s: string, j: nat, text: string)
    requires Holds(s, j, text) && NoBlockEnd(text)
    ensures forall x | j <= x < j + |text| :: x + 1 == j + |text| || !Pair(s, x, '*', '/')
  {
    HoldsIs(s, j, text);
    forall x | j <= x < j + |text| && x + 1 < j + |text|
      ensures !Pair(s, x, '*', '/')
    {
      assert s[x] == s[j..j + |text|][x - j] && s[x + 1] == s[j..j + |text|][x - j + 1];
      assert !Pair(text, x - j, '*', '/');
    }
  }

  lemma RemarkParts(s: string, i: nat, text: string, rest: string)
    requires NoBlockEnd(text) && Holds(s, i, "/*" + (text + ("*/" + rest)))
    ensures Pair(s, i, '/', '*') && BlockEndsAt(s, i + 2, i + 2 + |text|)
    ensures i + 2 + |text| + 2 <= |s| && Holds(s, i + 2 + |text| + 2, rest)
  {
    HoldsParts(s, i, "/*", text + ("*/" + rest));
    HoldsParts(s, i + 2, text, "*/" + rest);
    HoldsParts(s, i + 2 + |text|, "*/", rest);
    PairsHold(s, i + 2, text);
  }

  lemma {:induction false} RemarkRead(s: string, i: nat, text: string, rest: Source, k: nat)
    requires WellFormed(Remark(text, rest)) && RestIs(s, i, Remark(text, rest)) && i <= k < |s|
    ensures Commented(s, i, Code, k) <==> InComment(Remark(text, rest), k - i)
    decreases rest, 1
  {
    var e := i + 2 + |text|;
    RemarkParts(s, i, text, Written(rest));
    if i + 2 <= k { BlockPassed(s, i + 2, e, k); }
    if e + 2 <= k {
      CommentedIffInComment(s, e + 2, rest, k);
    } else {
      InCommentWithin(rest, k - (e + 2));
    }
  }

  lemma {:induction false} LineRemarkRead(s: string, i: nat, text: string, rest: Source, k: nat)
    requires WellFormed(LineRemark(text, rest)) && RestIs(s, i, LineRemark(text, rest)) && i <= k < |s|
    ensures Commented(s, i, Code, k) <==> InComment(LineRemark(text, rest), k - i)
    decreases rest, 1
  {
    var e := i + 2 + |text|;
    HoldsParts(s, i, "//", text + Written(rest));
    HoldsParts(s, i + 2, text, Written(rest));
    forall x | i + 2 <= x < e
      ensures s[x] != NEWLINE
    {
      HoldsAt(s, i + 2, text, x - (i + 2));
      assert text[x - (i + 2)] in text;
    }
    assert LineEndsAt(s, i + 2, e);
    if i + 2 <= k { LinePassed(s, i + 2, e, k); }
    if e <= k {
      CommentedIffInComment(s, e, rest, k);
    } else {
      InCommentWithin(rest, k - e);
    }
  }

  lemma QuotationParts(s: string, i: nat, quote: char, inside: Inside, rest: string)
    requires Encloses(inside, quote, quote == '`') && Holds(s, i, [quote] + (PrintInside(inside) + ([quote] + rest)))
    ensures var e := i + 1 + |PrintInside(inside)|;
            i < |s| && s[i] == quote && EndsAt(s, i + 1, e, quote) && Holds(s, e + 1, rest)
  {
    GroupParts(s, i, PrintInside(inside), rest, quote, quote);
  }

  lemma {:induction false} QuotationRead(s: string, i: nat, quote: char, inside: Inside, rest: Source, k: nat)
    requires WellFormed(Quotation(quote, inside, rest)) && RestIs(s, i, Quotation(quote, inside, rest)) && i <= k < |s|
    ensures Commented(s, i, Code, k) <==> InComment(Quotation(quote, inside, rest), k - i)
    decreases rest, 1
  {
    var e := i + 1 + |PrintInside(inside)|;
    QuotationParts(s, i, quote, inside, Written(rest));
    QuotationPassed(s, i, e, k);
    if e < k {
      CommentedIffInComment(s, e + 1, rest, k);
    } else {
      InCommentWithin(rest, k - (e + 1));
    }
  }

  /** What stripping blanks in a source is exactly the text of its comments. */
  lemma BlankedIffInComment(p: Source, s: string, k: nat)
    requires IsSource(p, s) && k < |s|
    ensures |Strip(s)| == |s| && Strip(s)[k] == if InComment(p, k) then Blank(s[k]) else s[k]
    ensures Commented(s, 0, Code, k) <==> InComment(p, k)
  {
    HoldsWhole(s);
    CommentedIffInComment(s, 0, p, k);
    CommentedIsBlanked(s, 0, Code, k);
  }

  lemma {:induction false} BlanksAt(b: string, k: nat)
    ensures |Blanks(b)| == |b| && (k < |b| ==> Blanks(b)[k] == Blank(b[k]))
  {
    if b == "" {
    } else {
      BlanksAt(b[1..], if k == 0 then 0 else k - 1);
    }
  }

  /** The `k`-th character is blanked if it is in a comment, and else it is what is written. */
  ghost predicate BareAlike(p: Source, k: int) {
    var bare, text := Bare(p), Written(p);
    && |bare| == |text|
    && (0 <= k < |text| ==> bare[k] == if InComment(p, k) then Blank(text[k]) else text[k])
  }

  lemma {:induction false} BareAt(p: Source, k: int)
    ensures BareAlike(p, k)
    decreases p
  {
    match p
    case Finish =>
    case Letter(c, rest) =>
      BareAt(rest, k - 1);
      LetterBare(c, rest, k);
    case Remark(text, rest) =>
      BareAt(rest, k - |text| - 4);
      RemarkBare(text, rest, k);
    case LineRemark(text, rest) =>
      BareAt(rest, k - |text| - 2);
      LineRemarkBare(text, rest, k);
    case Quotation(quote, inside, rest) =>
      BareAt(rest, k - |PrintInside(inside)| - 2);
      QuotationBare(quote, inside, rest, k);
    case OpenRemark(text) => BlanksAt(text, if 2 <= k then k - 2 else 0);
    case OpenQuotation(_, _) =>
  }

  lemma LetterBare(c: char, rest: Source, k: int)
    requires BareAlike(rest, k - 1)
    ensures BareAlike(Letter(c, rest), k)
  {
    InCommentWithin(rest, k - 1);
  }

  lemma RemarkBare(text: string, rest: Source, k: int)
    requires BareAlike(rest, k - |text| - 4)
    ensures BareAlike(Remark(text, rest), k)
  {
    BlanksAt(text, if 2 <= k then k - 2 else 0);
    InCommentWithin(rest, k - |text| - 4);
    if 0 <= k {
      InFour("/*", text, "*/", Written(rest), k);
      InFour("/*", Blanks(text), "*/", Bare(rest), k);
    }
  }

  lemma LineRemarkBare(text: string, rest: Source, k: int)
    requires BareAlike(rest, k - |text| - 2)
    ensures BareAlike(LineRemark(text, rest), k)
  {
    BlanksAt(text, if 2 <= k then k - 2 else 0);
    InCommentWithin(rest, k - |text| - 2);
  }

  lemma QuotationBare(quote: char, inside: Inside, rest: Source, k: int)
    requires BareAlike(rest, k - |PrintInside(inside)| - 2)
    ensures var p := Quotation(quote, inside, rest); BareAlike(p, k)
  {
    InCommentWithin(rest, k - |PrintInside(inside)| - 2);
    if 0 <= k {
      InFour([quote], PrintInside(inside), [quote], Written(rest), k);
      InFour([quote], PrintInside(inside), [quote], Bare(rest), k);
    }
  }

  lemma InFour(a: string, b: string, c: string, d: string, k: nat)
    ensures var s, m, n := a + (b + (c + d)), |a| + |b|, |a| + |b| + |c|;
            && |s| == n + |d|
            && (k < |a| ==> s[k] == a[k])
            && (|a| <= k < m ==> s[k] == b[k - |a|])
            && (m <= k < n ==> s[k] == c[k - m])
            && (n <= k < |s| ==> s[k] == d[k - n])
  {
  }

  /** Stripping a source leaves everything but the text of its comments. */
  lemma StrippedIsBare(p: Source)
    requires WellFormed(p)
    ensures Strip(Written(p)) == Bare(p)
  {
    var s := Written(p);
    StripBlanks(s);
    BareAt(p, 0);
    forall k | 0 <= k < |s|
      ensures Strip(s)[k] == Bare(p)[k]
    {
      BlankedIffInComment(p, s, k);
      BareAt(p, k);
    }
  }

  // ---------- every text is a source ----------

  function BlockEnd(s: string, j: nat): (e: nat)
    requires j <= |s|
    ensures BlockEndsAt(s, j, e)
    decreases |s| - j
  {
    if j == |s| || Pair(s, j, '*', '/') then j else BlockEnd(s, j + 1)
  }

  function LineEnd(s: string, j: nat): (e: nat)
    requires j <= |s|
    ensures LineEndsAt(s, j, e)
    decreases |s| - j
  {
    if j == |s| || s[j] == NEWLINE then j else LineEnd(s, j + 1)
  }

  lemma {:induction false} SourceFrom(s: string, i: nat) returns (p: Source)
    requires i <= |s|
    ensures WellFormed(p) && RestIs(s, i, p)
    decreases |s| - i, 1
  {
    if i == |s| {
      p := Finish;
    } else if Pair(s, i, '/', '*') {
      p := RemarkFrom(s, i);
    } else if Pair(s, i, '/', '/') {
      p := LineRemarkFrom(s, i);
    } else if IsQuote(s[i]) {
      p := QuotationFrom(s, i);
    } else {
      var rest := SourceFrom(s, i + 1);
      p := Letter(s[i], rest);
      FirstOfRest(s, i + 1, Written(rest));
      HoldsJoin(s, i, [s[i]], Written(rest));
    }
  }

  lemma TextBeforeEnd(s: string, j: nat, e: nat)
    requires BlockEndsAt(s, j, e)
    ensures NoBlockEnd(s[j..e]) && Holds(s, j, s[j..e])
  {
    HoldsIs(s, j, s[j..e]);
    forall k | 0 <= k < e - j
      ensures !Pair(s[j..e], k, '*', '/')
    {
      assert !Pair(s, j + k, '*', '/');
    }
  }

  lemma RemarkHolds(s: string, i: nat, text: string, rest: string)
    requires Pair(s, i, '/', '*') && Holds(s, i + 2, text) && Pair(s, i + 2 + |text|, '*', '/')
    requires Holds(s, i + 2 + |text| + 2, rest)
    ensures Holds(s, i, "/*" + (text + ("*/" + rest)))
  {
    HoldsJoin(s, i + 2 + |text|, "*/", rest);
    HoldsJoin(s, i + 2, text, "*/" + rest);
    HoldsJoin(s, i, "/*", text + ("*/" + rest));
  }

  lemma {:induction false} RemarkFrom(s: string, i: nat) returns (p: Source)
    requires Pair(s, i, '/', '*')
    ensures WellFormed(p) && RestIs(s, i, p)
    decreases |s| - i, 0
  {
    var e := BlockEnd(s, i + 2);
    var text := s[i + 2..e];
    TextBeforeEnd(s, i + 2, e);
    if e == |s| {
      p := OpenRemark(text);
      HoldsJoin(s, i, "/*", text);
    } else {
      var rest := SourceFrom(s, e + 2);
      p := Remark(text, rest);
      RemarkHolds(s, i, text, Written(rest));
    }
  }

  lemma {:induction false} LineRemarkFrom(s: string, i: nat) returns (p: Source)
    requires Pair(s, i, '/', '/')
    ensures WellFormed(p) && RestIs(s, i, p)
    decreases |s| - i, 0
  {
    var e := LineEnd(s, i + 2);
    var text := s[i + 2..e];
    var rest := SourceFrom(s, e);
    p := LineRemark(text, rest);
    HoldsIs(s, i + 2, text);
    FirstOfRest(s, e, Written(rest));
    HoldsJoin(s, i + 2, text, Written(rest));
    HoldsJoin(s, i, "//", text + Written(rest));
  }

  lemma {:induction false} QuotationFrom(s: string, i: nat) returns (p: Source)
    requires i < |s| && IsQuote(s[i])
    ensures WellFormed(p) && RestIs(s, i, p)
    decreases |s| - i, 0
  {
    var quote, text := s[i], s[i + 1..];
    if e: nat :| EndsAt(text, 0, e, quote) {
      var t := EndInText(s, i + 1, e, quote);
      var rest := SourceFrom(s, i + 1 + e + 1);
      p := Quotation(quote, t, rest);
      GroupHolds(s, i, PrintInside(t), Written(rest), quote, quote);
    } else {
      p := OpenQuotation(quote, text);
      HoldsIs(s, i + 1, text);
      HoldsJoin(s, i, [quote], text);
    }
  }

  /** Every text is a source, with its comments at places that are the same however it is read. */
  lemma EveryTextIsSource(s: string) returns (p: Source)
    ensures IsSource(p, s)
    ensures forall q: Source, k: int :: IsSource(q, s) ==> (InComment(q, k) <==> InComment(p, k))
  {
    p := SourceFrom(s, 0);
    HoldsIs(s, 0, Written(p));
    forall q: Source, k: int | IsSource(q, s)
      ensures InComment(q, k) <==> InComment(p, k)
    {
      InCommentWithin(p, k);
      InCommentWithin(q, k);
      if 0 <= k < |s| {
        BlankedIffInComment(p, s, k);
        BlankedIffInComment(q, s, k);
      }
    }
  }

  /** The `k`-th character is in the text of a comment of `s`. */
  ghost predicate CommentAt(s: string, k: nat) {
    exists p: Source :: IsSource(p, s) && InComment(p, k)
  }

  lemma CommentAtIs(s: string, k: nat)
    requires k < |s|
    ensures CommentAt(s, k) <==> Commented(s, 0, Code, k)
    ensures |Strip(s)| == |s| && Strip(s)[k] == if CommentAt(s, k) then Blank(s[k]) else s[k]
  {
    var p := EveryTextIsSource(s);
    BlankedIffInComment(p, s, k);
  }

  // ---------- what becomes of a comment and of a literal ----------

  /** Code without quotes and comments that either can follow directly. */
  ghost predicate PlainCode(a: string) {
    && (forall k | 0 <= k < |a| :: !IsQuote(a[k]) && !Pair(a, k, '/', '/') && !Pair(a, k, '/', '*'))
    && (a != "" ==> a[|a| - 1] != '/')
  }

  function Letters(a: string, p: Source): Source {
    if a == "" then p else Letter(a[0], Letters(a[1..], p))
  }

  lemma {:induction false} LettersInFront(a: string, p: Source)
    requires PlainCode(a) && WellFormed(p)
    ensures WellFormed(Letters(a, p)) && Written(Letters(a, p)) == a + Written(p) && Bare(Letters(a, p)) == a + Bare(p)
  {
    if a == "" {
    } else {
      PlainTail(a);
      LettersInFront(a[1..], p);
      LetterInFront(a, Letters(a[1..], p), Written(p), Bare(p));
    }
  }

  lemma PlainTail(a: string)
    requires PlainCode(a) && a != ""
    ensures PlainCode(a[1..])
  {
    var b := a[1..];
    assert forall k | 0 <= k < |b| :: b[k] == a[k + 1];
    assert forall k | 0 <= k < |b| :: Pair(b, k, '/', '/') == Pair(a, k + 1, '/', '/');
    assert forall k | 0 <= k < |b| :: Pair(b, k, '/', '*') == Pair(a, k + 1, '/', '*');
  }

  lemma LetterInFront(a: string, p: Source, text: string, bare: string)
    requires PlainCode(a) && a != "" && WellFormed(p) && Written(p) == a[1..] + text && Bare(p) == a[1..] + bare
    ensures var q := Letter(a[0], p); WellFormed(q) && Written(q) == a + text && Bare(q) == a + bare
  {
    assert a == [a[0]] + a[1..] && !Pair(a, 0, '/', '/') && !Pair(a, 0, '/', '*');
    assert |a| > 1 ==> Written(p)[0] == a[1];
  }

  lemma LawOf(a: string, p: Source)
    requires PlainCode(a) && WellFormed(p)
    ensures Strip(a + Written(p)) == a + Bare(p)
  {
    LettersInFront(a, p);
    StrippedIsBare(Letters(a, p));
  }

  /** A block comment keeps its ends, has everything between blanked but for newlines, and the code in
      front and behind is treated as if it were not there. */
  lemma BlockCommentLaw(a: string, b: string, c: string)
    requires PlainCode(a) && NoBlockEnd(b)
    ensures Strip(a + ("/*" + (b + ("*/" + c)))) == a + ("/*" + (Blanks(b) + ("*/" + Strip(c))))
  {
    var rest := EveryTextIsSource(c);
    StrippedIsBare(rest);
    LawOf(a, Remark(b, rest));
  }

  /** A line comment keeps its slashes and is blanked up to the end of its line, whatever is in it. */
  lemma LineCommentLaw(a: string, b: string, c: string)
    requires PlainCode(a) && Free(b, NEWLINE) && (c == "" || c[0] == NEWLINE)
    ensures Strip(a + ("//" + (b + c))) == a + ("//" + (Blanks(b) + Strip(c)))
  {
    var rest := EveryTextIsSource(c);
    StrippedIsBare(rest);
    LawOf(a, LineRemark(b, rest));
  }

  /** A literal is copied with all its escapes, interpolations, comments and calls. */
  lemma LiteralLaw(a: string, quote: char, inside: Inside, c: string)
    requires PlainCode(a) && IsQuote(quote) && Encloses(inside, quote, quote == '`')
    ensures var literal := PrintInside(inside);
            Strip(a + ([quote] + (literal + ([quote] + c)))) == a + ([quote] + (literal + ([quote] + Strip(c))))
  {
    var rest := EveryTextIsSource(c);
    StrippedIsBare(rest);
    LawOf(a, Quotation(quote, inside, rest));
  }

  /** A literal from its first quote at `i` to its last at `e`. */
  ghost predicate HasLiteral(p: Source, i: int, e: int) {
    match p
    case Letter(_, rest) => HasLiteral(rest, i - 1, e - 1)
    case Remark(text, rest) => HasLiteral(rest, i - |text| - 4, e - |text| - 4)
    case LineRemark(text, rest) => HasLiteral(rest, i - |text| - 2, e - |text| - 2)
    case Quotation(_, inside, rest) =>
      var n := |PrintInside(inside)|;
      (i == 0 && e == n + 1) || HasLiteral(rest, i - n - 2, e - n - 2)
    case _ => false
  }

  ghost predicate LiteralAt(s: string, i: nat, e: nat) {
    exists p: Source :: IsSource(p, s) && HasLiteral(p, i, e)
  }

  lemma {:induction false} LiteralHasNoComment(p: Source, i: int, e: int, k: int)
    requires HasLiteral(p, i, e) && i <= k <= e
    ensures 0 <= i && e < |Written(p)| && !InComment(p, k)
  {
    match p
    case Letter(_, rest) => LiteralHasNoComment(rest, i - 1, e - 1, k - 1);
    case Remark(text, rest) => LiteralHasNoComment(rest, i - |text| - 4, e - |text| - 4, k - |text| - 4);
    case LineRemark(text, rest) => LiteralHasNoComment(rest, i - |text| - 2, e - |text| - 2, k - |text| - 2);
    case Quotation(_, inside, rest) =>
      var n := |PrintInside(inside)|;
      InCommentWithin(rest, k - n - 2);
      if !(i == 0 && e == n + 1) {
        LiteralHasNoComment(rest, i - n - 2, e - n - 2, k - n - 2);
      }
  }

  /** No character of a literal is in a comment. */
  lemma LiteralIsNoComment(s: string, i: nat, e: nat, k: nat)
    requires LiteralAt(s, i, e) && i <= k <= e
    ensures e < |s| && !CommentAt(s, k)
  {
    var p: Source :| IsSource(p, s) && HasLiteral(p, i, e);
    LiteralHasNoComment(p, i, e, k);
    BlankedIffInComment(p, s, k);
    CommentAtIs(s, k);
  }

  lemma {:induction false} LettersComment(a: string, p: Source, k: int)
    ensures InComment(Letters(a, p), k) == InComment(p, k - |a|)
  {
    if a == "" {
    } else {
      LettersComment(a[1..], p, k - 1);
    }
  }

  /** What stands behind two slashes behind plain code is in a comment. */
  lemma LineRemarkIsComment(a: string, text: string, k: nat)
    requires PlainCode(a) && Free(text, NEWLINE) && k < |text|
    ensures CommentAt(a + ("//" + text), |a| + 2 + k)
  {
    var line := LineRemark(text, Finish);
    var p := Letters(a, line);
    assert text + "" == text;
    LettersInFront(a, line);
    LettersComment(a, line, |a| + 2 + k);
    assert IsSource(p, a + ("//" + text));
  }

  function Plains(text: string): Inside {
    if text == "" then End else Plain(text[0], Plains(text[1..]))
  }

  lemma {:induction false} PlainsPrinted(text: string, quote: char)
    requires forall k | 0 <= k < |text| :: text[k] != quote && text[k] != '\\'
    ensures PrintInside(Plains(text)) == text && Encloses(Plains(text), quote, false)
  {
    if text == "" {
    } else {
      PlainsPrinted(text[1..], quote);
    }
  }

  /** Text between straight quotes is a literal. */
  lemma TextIsLiteral(quote: char, text: string)
    requires IsStraightQuote(quote) && forall k | 0 <= k < |text| :: text[k] != quote && text[k] != '\\'
    ensures LiteralAt([quote] + (text + [quote]), 0, |text| + 1)
  {
    PlainsPrinted(text, quote);
    var p := Quotation(quote, Plains(text), Finish);
    assert Written(Finish) == "" && [quote] + "" == [quote];
    assert Written(p) == [quote] + (text + ([quote] + Written(Finish)));
    assert IsSource(p, [quote] + (text + [quote])) && HasLiteral(p, 0, |text| + 1);
  }
}
