/** What the searches for the body of a raw SQL call find: brackets that match, a template and a list of
    arguments, with what can stand in them. */
module CallForms {
  import opened Text
  import opened CommentStripper
  import opened Wrappers

  // ---------- skipping over text ----------

  /** The position after the bracket that closes the generics, or the end. */
  function SkipGenerics(s: string, i: nat, depth: int): (j: nat)
    requires i <= |s|
    ensures i <= j <= |s|
    decreases |s| - i
  {
    if i == |s| then i
    else
      var d := if s[i] == '<' then depth + 1 else if s[i] == '>' then depth - 1 else depth;
      if s[i] == '>' && d == 0 then i + 1 else SkipGenerics(s, i + 1, d)
  }

  /** The position after the brace that closes an interpolation `depth` braces deep, or the end. */
  function InterpEnd(s: string, j: nat, depth: nat): (e: nat)
    requires j <= |s|
    ensures j <= e <= |s|
    decreases |s| - j
  {
    if j == |s| || depth == 0 then j
    else InterpEnd(s, j + 1, if s[j] == '{' then depth + 1 else if s[j] == '}' then depth - 1 else depth)
  }

  /** The position of the backtick that closes a template. */
  function TemplateClose(s: string, j: nat): (e: Option<nat>)
    requires j <= |s|
    ensures e.Some? ==> j <= e.value < |s| && s[e.value] == '`'
    decreases |s| - j
  {
    if j == |s| then None
    else if s[j] == '\\' then TemplateClose(s, Min(j + 2, |s|))
    else if Pair(s, j, '$', '{') then TemplateClose(s, InterpEnd(s, j + 2, 1))
    else if s[j] == '`' then Some(j)
    else TemplateClose(s, j + 1)
  }

  /** The position of the quote that closes a literal, or the end. */
  function LiteralClose(s: string, j: nat, quote: char): (e: nat)
    requires j <= |s|
    ensures j <= e <= |s|
    decreases |s| - j
  {
    if j == |s| then j
    else if s[j] == '\\' then LiteralClose(s, Min(j + 2, |s|), quote)
    else if s[j] == quote then j
    else LiteralClose(s, j + 1, quote)
  }

  /** The position of the parenthesis that closes an argument list `depth` parentheses deep. */
  function ParenClose(s: string, j: nat, depth: nat): (e: Option<nat>)
    requires j <= |s| && depth > 0
    ensures e.Some? ==> j <= e.value < |s| && s[e.value] == ')'
    decreases |s| - j
  {
    if j == |s| then None
    else if s[j] == '(' then ParenClose(s, j + 1, depth + 1)
    else if s[j] == ')' then if depth == 1 then Some(j) else ParenClose(s, j + 1, depth - 1)
    else if IsQuote(s[j]) then ParenClose(s, Min(LiteralClose(s, j + 1, s[j]) + 1, |s|), depth)
    else ParenClose(s, j + 1, depth)
  }

  /** Where the body of a call starts: past white space and optional generics. */
  function Opener(s: string, start: nat): (i: nat)
    requires start <= |s|
    ensures start <= i <= |s|
  {
    var i := SkipSpace(s, start);
    if i < |s| && s[i] == '<' then SkipSpace(s, SkipGenerics(s, i, 0)) else i
  }

  datatype Body = Body(text: string, endIndex: nat)

  /** The text of a template or of an argument list, with the position after it. */
  function Captured(s: string, start: nat): Option<Body>
    requires start <= |s|
  {
    BodyFrom(s, Opener(s, start))
  }

  /** The body that opens at `i`. */
  function BodyFrom(s: string, i: nat): Option<Body>
    requires i <= |s|
  {
    if i == |s| || (s[i] != '`' && s[i] != '(') then None
    else
      var e := if s[i] == '`' then TemplateClose(s, i + 1) else ParenClose(s, i + 1, 1);
      if e.None? then None else Some(Body(s[i + 1..e.value], e.value + 1))
  }

  // ---------- what can stand between brackets ----------

  /** Text in which the brackets match. */
  datatype Nested = Done | Char(c: char, rest: Nested) | Group(inner: Nested, after: Nested)

  function Print(n: Nested, open: char, close: char): string {
    match n
    case Done => ""
    case Char(c, rest) => [c] + Print(rest, open, close)
    case Group(inner, after) => [open] + (Print(inner, open, close) + ([close] + Print(after, open, close)))
  }

  ghost predicate Matching(n: Nested, open: char, close: char) {
    match n
    case Done => true
    case Char(c, rest) => c != open && c != close && Matching(rest, open, close)
    case Group(inner, after) => Matching(inner, open, close) && Matching(after, open, close)
  }

  /** The bracket opened before `j` is closed at `e`: between them all brackets match. */
  ghost predicate ClosesAt(s: string, j: nat, e: nat, open: char, close: char) {
    e < |s| && s[e] == close &&
    exists n :: Matching(n, open, close) && Holds(s, j, Print(n, open, close)) && e == j + |Print(n, open, close)|
  }

  /** The position of the bracket that closes the outermost of `depth` open ones. */
  function BracketClose(s: string, j: nat, depth: nat, open: char, close: char): Option<nat>
    requires j <= |s| && depth > 0 && open != close
    decreases |s| - j
  {
    if j == |s| then None
    else if s[j] == open then BracketClose(s, j + 1, depth + 1, open, close)
    else if s[j] == close then if depth == 1 then Some(j) else BracketClose(s, j + 1, depth - 1, open, close)
    else BracketClose(s, j + 1, depth, open, close)
  }

  lemma GroupParts(s: string, j: nat, p: string, q: string, open: char, close: char)
    requires Holds(s, j, [open] + (p + ([close] + q)))
    ensures j < |s| && s[j] == open && Holds(s, j + 1, p)
    ensures j + 1 + |p| < |s| && s[j + 1 + |p|] == close && Holds(s, j + 1 + |p| + 1, q)
  {
    HoldsParts(s, j, [open], p + ([close] + q));
    HoldsParts(s, j + 1, p, [close] + q);
    HoldsParts(s, j + 1 + |p|, [close], q);
  }

  lemma {:induction false} NestedPassed(s: string, j: nat, n: Nested, depth: nat, open: char, close: char)
    requires depth > 0 && open != close && Matching(n, open, close) && Holds(s, j, Print(n, open, close))
    ensures BracketClose(s, j, depth, open, close) ==
            BracketClose(s, j + |Print(n, open, close)|, depth, open, close)
    decreases n
  {
    match n
    case Done =>
    case Char(c, rest) =>
      HoldsParts(s, j, [c], Print(rest, open, close));
      NestedPassed(s, j + 1, rest, depth, open, close);
    case Group(inner, after) =>
      var p, q := Print(inner, open, close), Print(after, open, close);
      GroupParts(s, j, p, q, open, close);
      NestedPassed(s, j + 1, inner, depth + 1, open, close);
      NestedPassed(s, j + 1 + |p| + 1, after, depth, open, close);
  }

  /** What is read up to the bracket that closes the innermost open one. */
  lemma {:induction false} NestedParsed(s: string, j: nat, depth: nat, open: char, close: char)
    returns (n: Nested, k: nat)
    requires j <= |s| && depth > 0 && open != close && BracketClose(s, j, depth, open, close).Some?
    ensures Matching(n, open, close) && Holds(s, j, Print(n, open, close)) && k == j + |Print(n, open, close)|
    ensures k < |s| && s[k] == close
    ensures BracketClose(s, j, depth, open, close) ==
            if depth == 1 then Some(k) else BracketClose(s, k + 1, depth - 1, open, close)
    decreases |s| - j
  {
    if s[j] == close {
      n, k := Done, j;
    } else if s[j] == open {
      var inner, m := NestedParsed(s, j + 1, depth + 1, open, close);
      var after, e := NestedParsed(s, m + 1, depth, open, close);
      n, k := Group(inner, after), e;
      GroupHolds(s, j, Print(inner, open, close), Print(after, open, close), open, close);
    } else {
      var rest, e := NestedParsed(s, j + 1, depth, open, close);
      n, k := Char(s[j], rest), e;
      HoldsJoin(s, j, [s[j]], Print(rest, open, close));
    }
  }

  lemma GroupHolds(s: string, j: nat, p: string, q: string, open: char, close: char)
    requires j < |s| && s[j] == open && Holds(s, j + 1, p)
    requires j + 1 + |p| < |s| && s[j + 1 + |p|] == close && Holds(s, j + 1 + |p| + 1, q)
    ensures Holds(s, j, [open] + (p + ([close] + q)))
  {
    HoldsJoin(s, j + 1 + |p|, [close], q);
    HoldsJoin(s, j + 1, p, [close] + q);
    HoldsJoin(s, j, [open], p + ([close] + q));
  }

  /** The bracket that the count finds is the one that matches, and it finds one if there is one. */
  lemma BracketCloseIsMatch(s: string, j: nat, e: nat, open: char, close: char)
    requires j <= |s| && open != close
    ensures BracketClose(s, j, 1, open, close) == Some(e) <==> ClosesAt(s, j, e, open, close)
  {
    if BracketClose(s, j, 1, open, close) == Some(e) {
      var n, k := NestedParsed(s, j, 1, open, close);
    }
    if ClosesAt(s, j, e, open, close) {
      var n :| Matching(n, open, close) && Holds(s, j, Print(n, open, close)) && e == j + |Print(n, open, close)|;
      NestedPassed(s, j, n, 1, open, close);
    }
  }

  /** Behind the bracket that was found, or at the end of the text. */
  function Behind(s: string, close: Option<nat>): nat {
    if close.Some? then close.value + 1 else |s|
  }

  lemma {:induction false} InterpEndIs(s: string, j: nat, depth: nat)
    requires j <= |s| && depth > 0
    ensures InterpEnd(s, j, depth) == Behind(s, BracketClose(s, j, depth, '{', '}'))
    decreases |s| - j
  {
    if j == |s| {
    } else {
      if s[j] == '{' {
        InterpEndIs(s, j + 1, depth + 1);
      } else if s[j] != '}' {
        InterpEndIs(s, j + 1, depth);
      } else if depth > 1 {
        InterpEndIs(s, j + 1, depth - 1);
      }
    }
  }

  lemma {:induction false} SkipGenericsIs(s: string, i: nat, depth: nat)
    requires i <= |s| && depth > 0
    ensures SkipGenerics(s, i, depth) == Behind(s, BracketClose(s, i, depth, '<', '>'))
    decreases |s| - i
  {
    if i == |s| {
    } else {
      if s[i] == '<' {
        SkipGenericsIs(s, i + 1, depth + 1);
      } else if s[i] != '>' {
        SkipGenericsIs(s, i + 1, depth);
      } else if depth > 1 {
        SkipGenericsIs(s, i + 1, depth - 1);
      }
    }
  }

  /** An interpolation ends behind the brace that matches its own, and with the text if there is none. */
  lemma InterpolationEnds(s: string, j: nat, e: nat)
    requires j <= |s|
    ensures ClosesAt(s, j, e, '{', '}') ==> InterpEnd(s, j, 1) == e + 1
    ensures InterpEnd(s, j, 1) == e + 1 <= |s| ==> ClosesAt(s, j, e, '{', '}') || e + 1 == |s|
  {
    InterpEndIs(s, j, 1);
    BracketCloseIsMatch(s, j, e, '{', '}');
  }

  /** The generics opened at `i` are closed at `e`. */
  ghost predicate GenericsTo(s: string, i: nat, e: nat) {
    i < |s| && s[i] == '<' && ClosesAt(s, i + 1, e, '<', '>')
  }

  /** Generics end behind the bracket that matches their own, and with the text if there is none. */
  lemma GenericsEnd(s: string, i: nat, e: nat)
    requires i < |s| && s[i] == '<'
    ensures GenericsTo(s, i, e) ==> SkipGenerics(s, i, 0) == e + 1
    ensures SkipGenerics(s, i, 0) == e + 1 <= |s| ==> GenericsTo(s, i, e) || e + 1 == |s|
  {
    SkipGenericsIs(s, i + 1, 1);
    BracketCloseIsMatch(s, i + 1, e, '<', '>');
  }

  // ---------- what can stand in a literal and in a template ----------

  /** The inside of a literal: characters, escapes and, in a template, interpolations. */
  datatype Inside =
    | End
    | Plain(c: char, rest: Inside)
    | Escape(c: char, rest: Inside)
    | Hole(code: Nested, rest: Inside)

  function PrintInside(t: Inside): string {
    match t
    case End => ""
    case Plain(c, rest) => [c] + PrintInside(rest)
    case Escape(c, rest) => ['\\', c] + PrintInside(rest)
    case Hole(code, rest) => ['$', '{'] + (Print(code, '{', '}') + (['}'] + PrintInside(rest)))
  }

  /** Nothing in it ends the literal, and only a template has holes. */
  ghost predicate Encloses(t: Inside, quote: char, template: bool) {
    match t
    case End => true
    case Plain(c, rest) =>
      c != quote && c != '\\' && Encloses(rest, quote, template)
      && (template && c == '$' ==> PrintInside(rest) == "" || PrintInside(rest)[0] != '{')
    case Escape(_, rest) => Encloses(rest, quote, template)
    case Hole(code, rest) => template && Matching(code, '{', '}') && Encloses(rest, quote, template)
  }

  /** The literal opened before `j` with `quote` ends at `e`. */
  ghost predicate QuotedTo(s: string, j: nat, e: nat, quote: char, template: bool) {
    e < |s| && s[e] == quote &&
    exists t :: Encloses(t, quote, template) && Holds(s, j, PrintInside(t)) && e == j + |PrintInside(t)|
  }

  lemma {:induction false} LiteralPassed(s: string, j: nat, t: Inside, quote: char)
    requires quote != '\\' && Encloses(t, quote, false) && Holds(s, j, PrintInside(t))
    ensures LiteralClose(s, j, quote) == LiteralClose(s, j + |PrintInside(t)|, quote)
    decreases t
  {
    match t
    case End =>
    case Plain(c, rest) =>
      HoldsParts(s, j, [c], PrintInside(rest));
      LiteralPassed(s, j + 1, rest, quote);
    case Escape(c, rest) =>
      HoldsParts(s, j, ['\\', c], PrintInside(rest));
      LiteralPassed(s, j + 2, rest, quote);
    case Hole(_, _) =>
  }

  lemma {:induction false} LiteralParsed(s: string, j: nat, quote: char) returns (t: Inside)
    requires quote != '\\' && j <= |s| && LiteralClose(s, j, quote) < |s|
    ensures Encloses(t, quote, false) && Holds(s, j, PrintInside(t))
    ensures LiteralClose(s, j, quote) == j + |PrintInside(t)| && s[LiteralClose(s, j, quote)] == quote
    decreases |s| - j
  {
    if s[j] == '\\' {
      var rest := LiteralParsed(s, j + 2, quote);
      t := Escape(s[j + 1], rest);
      HoldsJoin(s, j, ['\\', s[j + 1]], PrintInside(rest));
    } else if s[j] == quote {
      t := End;
    } else {
      var rest := LiteralParsed(s, j + 1, quote);
      t := Plain(s[j], rest);
      HoldsJoin(s, j, [s[j]], PrintInside(rest));
    }
  }

  /** The end that is found for a literal is its end, and one is found if there is one. */
  lemma LiteralCloseIsEnd(s: string, j: nat, quote: char, e: nat)
    requires quote != '\\' && j <= |s|
    ensures LiteralClose(s, j, quote) == e < |s| <==> QuotedTo(s, j, e, quote, false)
  {
    if LiteralClose(s, j, quote) == e < |s| {
      var t := LiteralParsed(s, j, quote);
    }
    if QuotedTo(s, j, e, quote, false) {
      var t :| Encloses(t, quote, false) && Holds(s, j, PrintInside(t)) && e == j + |PrintInside(t)|;
      LiteralPassed(s, j, t, quote);
    }
  }

  lemma {:induction false} TemplatePassed(s: string, j: nat, t: Inside)
    requires Encloses(t, '`', true) && Holds(s, j, PrintInside(t))
    requires j + |PrintInside(t)| < |s| && s[j + |PrintInside(t)|] == '`'
    ensures TemplateClose(s, j) == Some(j + |PrintInside(t)|)
    decreases t
  {
    match t
    case End =>
    case Plain(c, rest) =>
      HoldsParts(s, j, [c], PrintInside(rest));
      FirstOfRest(s, j + 1, PrintInside(rest));
      TemplatePassed(s, j + 1, rest);
    case Escape(c, rest) =>
      HoldsParts(s, j, ['\\', c], PrintInside(rest));
      TemplatePassed(s, j + 2, rest);
    case Hole(code, rest) =>
      HoleSteppedOver(s, j, code, PrintInside(rest));
      TemplatePassed(s, j + 2 + |Print(code, '{', '}')| + 1, rest);
  }

  lemma HoleSteppedOver(s: string, j: nat, code: Nested, rest: string)
    requires Matching(code, '{', '}') && Holds(s, j, ['$', '{'] + (Print(code, '{', '}') + (['}'] + rest)))
    ensures var next := j + 2 + |Print(code, '{', '}')| + 1;
            next <= |s| && Holds(s, next, rest) && TemplateClose(s, j) == TemplateClose(s, next)
  {
    var p := Print(code, '{', '}');
    HoldsParts(s, j, ['$', '{'], p + (['}'] + rest));
    HoldsParts(s, j + 2, p, ['}'] + rest);
    HoldsParts(s, j + 2 + |p|, ['}'], rest);
    assert ClosesAt(s, j + 2, j + 2 + |p|, '{', '}');
    InterpolationEnds(s, j + 2, j + 2 + |p|);
  }

  lemma FirstOfRest(s: string, j: nat, p: string)
    requires Holds(s, j, p)
    ensures p != "" ==> s[j] == p[0]
  {
  }

  lemma {:induction false} TemplateParsed(s: string, j: nat) returns (t: Inside)
    requires j <= |s| && TemplateClose(s, j).Some?
    ensures Encloses(t, '`', true) && Holds(s, j, PrintInside(t))
    ensures TemplateClose(s, j) == Some(j + |PrintInside(t)|)
    decreases |s| - j
  {
    if s[j] == '\\' {
      var rest := TemplateParsed(s, j + 2);
      t := Escape(s[j + 1], rest);
      HoldsJoin(s, j, ['\\', s[j + 1]], PrintInside(rest));
    } else if Pair(s, j, '$', '{') {
      t := HoleParsed(s, j);
    } else if s[j] == '`' {
      t := End;
    } else {
      var rest := TemplateParsed(s, j + 1);
      t := Plain(s[j], rest);
      HoldsJoin(s, j, [s[j]], PrintInside(rest));
      FirstOfRest(s, j + 1, PrintInside(rest));
    }
  }

  lemma {:induction false} HoleParsed(s: string, j: nat) returns (t: Inside)
    requires j <= |s| && Pair(s, j, '$', '{') && TemplateClose(s, j).Some?
    ensures Encloses(t, '`', true) && Holds(s, j, PrintInside(t))
    ensures TemplateClose(s, j) == Some(j + |PrintInside(t)|)
    decreases |s| - j, 0
  {
    var e := InterpEnd(s, j + 2, 1);
    InterpEndIs(s, j + 2, 1);
    assert e < |s|;
    var code, k := NestedParsed(s, j + 2, 1, '{', '}');
    var rest := TemplateParsed(s, e);
    t := Hole(code, rest);
    HoldsJoin(s, k, ['}'], PrintInside(rest));
    HoldsJoin(s, j + 2, Print(code, '{', '}'), ['}'] + PrintInside(rest));
    HoldsJoin(s, j, ['$', '{'], Print(code, '{', '}') + (['}'] + PrintInside(rest)));
  }

  /** The backtick that is found is the one that ends the template, and one is found if there is one. */
  lemma TemplateCloseIsEnd(s: string, j: nat, e: nat)
    requires j <= |s|
    ensures TemplateClose(s, j) == Some(e) <==> QuotedTo(s, j, e, '`', true)
  {
    if TemplateClose(s, j) == Some(e) {
      var t := TemplateParsed(s, j);
    }
    if QuotedTo(s, j, e, '`', true) {
      var t :| Encloses(t, '`', true) && Holds(s, j, PrintInside(t)) && e == j + |PrintInside(t)|;
      TemplatePassed(s, j, t);
    }
  }

  // ---------- what can stand in a list of arguments ----------

  /** The inside of a list of arguments: characters, parentheses that match, and whole literals. */
  datatype Args = NoMore | Other(c: char, rest: Args) | Parens(inner: Args, rest: Args)
                | Literal(quote: char, inside: Inside, rest: Args)

  function PrintArgs(a: Args): string {
    match a
    case NoMore => ""
    case Other(c, rest) => [c] + PrintArgs(rest)
    case Parens(inner, rest) => ['('] + (PrintArgs(inner) + ([')'] + PrintArgs(rest)))
    case Literal(quote, inside, rest) => [quote] + (PrintInside(inside) + ([quote] + PrintArgs(rest)))
  }

  ghost predicate Listed(a: Args) {
    match a
    case NoMore => true
    case Other(c, rest) => c != '(' && c != ')' && !IsQuote(c) && Listed(rest)
    case Parens(inner, rest) => Listed(inner) && Listed(rest)
    case Literal(quote, inside, rest) => IsQuote(quote) && Encloses(inside, quote, false) && Listed(rest)
  }

  /** The list of arguments opened before `j` ends at `e`. */
  ghost predicate ListedTo(s: string, j: nat, e: nat) {
    e < |s| && s[e] == ')' && exists a :: Listed(a) && Holds(s, j, PrintArgs(a)) && e == j + |PrintArgs(a)|
  }

  lemma {:induction false} ArgsPassed(s: string, j: nat, a: Args, depth: nat)
    requires depth > 0 && Listed(a) && Holds(s, j, PrintArgs(a))
    ensures ParenClose(s, j, depth) == ParenClose(s, j + |PrintArgs(a)|, depth)
    decreases a, 1
  {
    match a
    case NoMore =>
    case Other(c, rest) =>
      HoldsParts(s, j, [c], PrintArgs(rest));
      OtherSteppedOver(s, j, depth);
      ArgsPassed(s, j + 1, rest, depth);
    case Parens(inner, rest) => ParensPassed(s, j, inner, rest, depth);
    case Literal(quote, inside, rest) =>
      LiteralSteppedOver(s, j, quote, inside, PrintArgs(rest), depth);
      ArgsPassed(s, j + 1 + |PrintInside(inside)| + 1, rest, depth);
  }

  lemma {:induction false} ParensPassed(s: string, j: nat, inner: Args, rest: Args, depth: nat)
    requires depth > 0 && Listed(inner) && Listed(rest) && Holds(s, j, PrintArgs(Parens(inner, rest)))
    ensures ParenClose(s, j, depth) == ParenClose(s, j + |PrintArgs(Parens(inner, rest))|, depth)
    decreases Parens(inner, rest), 0
  {
    var p, q := PrintArgs(inner), PrintArgs(rest);
    GroupParts(s, j, p, q, '(', ')');
    ArgsPassed(s, j + 1, inner, depth + 1);
    ArgsPassed(s, j + 1 + |p| + 1, rest, depth);
  }

  lemma OtherSteppedOver(s: string, j: nat, depth: nat)
    requires depth > 0 && j < |s| && s[j] != '(' && s[j] != ')' && !IsQuote(s[j])
    ensures ParenClose(s, j, depth) == ParenClose(s, j + 1, depth)
  {
  }

  lemma LiteralSteppedOver(s: string, j: nat, quote: char, inside: Inside, q: string, depth: nat)
    requires depth > 0 && IsQuote(quote) && Encloses(inside, quote, false)
    requires Holds(s, j, [quote] + (PrintInside(inside) + ([quote] + q)))
    ensures var next := j + 1 + |PrintInside(inside)| + 1;
            Holds(s, next, q) && ParenClose(s, j, depth) == ParenClose(s, next, depth)
  {
    var p := PrintInside(inside);
    GroupParts(s, j, p, q, quote, quote);
    LiteralPassed(s, j + 1, inside, quote);
    ParenStepsOver(s, j, j + 1 + |p|, depth);
  }

  lemma ParenStepsOver(s: string, j: nat, e: nat, depth: nat)
    requires depth > 0 && j < e < |s| && IsQuote(s[j]) && LiteralClose(s, j + 1, s[j]) == e
    ensures ParenClose(s, j, depth) == ParenClose(s, e + 1, depth)
  {
  }

  lemma {:induction false} ArgsParsed(s: string, j: nat, depth: nat) returns (a: Args, k: nat)
    requires j <= |s| && depth > 0 && ParenClose(s, j, depth).Some?
    ensures Listed(a) && Holds(s, j, PrintArgs(a)) && k == j + |PrintArgs(a)| < |s| && s[k] == ')'
    ensures ParenClose(s, j, depth) == if depth == 1 then Some(k) else ParenClose(s, k + 1, depth - 1)
    decreases |s| - j, 1
  {
    if s[j] == ')' {
      a, k := NoMore, j;
    } else if s[j] == '(' {
      a, k := ParensParsed(s, j, depth);
    } else if IsQuote(s[j]) {
      a, k := LiteralArgParsed(s, j, depth);
    } else {
      var rest, e := ArgsParsed(s, j + 1, depth);
      a, k := Other(s[j], rest), e;
      HoldsJoin(s, j, [s[j]], PrintArgs(rest));
    }
  }

  lemma {:induction false} ParensParsed(s: string, j: nat, depth: nat) returns (a: Args, k: nat)
    requires j < |s| && depth > 0 && s[j] == '(' && ParenClose(s, j, depth).Some?
    ensures Listed(a) && Holds(s, j, PrintArgs(a)) && k == j + |PrintArgs(a)| < |s| && s[k] == ')'
    ensures ParenClose(s, j, depth) == if depth == 1 then Some(k) else ParenClose(s, k + 1, depth - 1)
    decreases |s| - j, 0
  {
    var inner, m := ArgsParsed(s, j + 1, depth + 1);
    var rest, e := ArgsParsed(s, m + 1, depth);
    a, k := Parens(inner, rest), e;
    GroupHolds(s, j, PrintArgs(inner), PrintArgs(rest), '(', ')');
  }

  lemma {:induction false} LiteralArgParsed(s: string, j: nat, depth: nat) returns (a: Args, k: nat)
    requires j < |s| && depth > 0 && IsQuote(s[j]) && ParenClose(s, j, depth).Some?
    ensures Listed(a) && Holds(s, j, PrintArgs(a)) && k == j + |PrintArgs(a)| < |s| && s[k] == ')'
    ensures ParenClose(s, j, depth) == if depth == 1 then Some(k) else ParenClose(s, k + 1, depth - 1)
    decreases |s| - j, 0
  {
    var quote := s[j];
    var e := LiteralClose(s, j + 1, quote);
    assert e < |s|;
    var inside := LiteralParsed(s, j + 1, quote);
    ParenStepsOver(s, j, e, depth);
    var rest, m := ArgsParsed(s, e + 1, depth);
    a, k := Literal(quote, inside, rest), m;
    GroupHolds(s, j, PrintInside(inside), PrintArgs(rest), quote, quote);
  }

  /** The parenthesis that is found is the one that ends the list, and one is found if there is one. */
  lemma ParenCloseIsEnd(s: string, j: nat, e: nat)
    requires j <= |s|
    ensures ParenClose(s, j, 1) == Some(e) <==> ListedTo(s, j, e)
  {
    if ParenClose(s, j, 1) == Some(e) {
      var a, k := ArgsParsed(s, j, 1);
    }
    if ListedTo(s, j, e) {
      var a :| Listed(a) && Holds(s, j, PrintArgs(a)) && e == j + |PrintArgs(a)|;
      ArgsPassed(s, j, a, 1);
    }
  }

  // ---------- a whole call ----------

  ghost predicate AllSpace(s: string, i: nat, j: nat) {
    i <= j <= |s| && forall k | i <= k < j :: IsSpace(s[k])
  }

  /** From `start` to `i` there is white space, perhaps with generics in it. */
  ghost predicate HeadTo(s: string, start: nat, i: nat) {
    AllSpace(s, start, i) || exists k: nat, e: nat :: GenericsBetween(s, start, k, e, i)
  }

  ghost predicate GenericsBetween(s: string, start: nat, k: nat, e: nat, i: nat) {
    AllSpace(s, start, k) && GenericsTo(s, k, e) && AllSpace(s, e + 1, i)
  }

  /** Behind `start` stand white space, perhaps generics, and at `i` a template or a list of arguments that
      ends at `e`. */
  ghost predicate CallAt(s: string, start: nat, i: nat, e: nat) {
    && HeadTo(s, start, i) && i < e < |s|
    && ((s[i] == '`' && QuotedTo(s, i + 1, e, '`', true)) || (s[i] == '(' && ListedTo(s, i + 1, e)))
  }

  lemma {:induction false} SkipSpaceIs(s: string, i: nat, j: nat)
    requires AllSpace(s, i, j) && (j < |s| ==> !IsSpace(s[j]))
    ensures SkipSpace(s, i) == j
    decreases j - i
  {
    if i >= j {
    } else {
      SkipSpaceIs(s, i + 1, j);
    }
  }

  /** The opener is where the head ends, if anything but white space follows. */
  lemma OpenerIsHead(s: string, start: nat, i: nat)
    requires start <= |s| && i < |s| && (s[i] == '`' || s[i] == '(')
    ensures Opener(s, start) == i <==> HeadTo(s, start, i)
  {
    var k := SkipSpace(s, start);
    SkippedIsSpace(s, start);
    if AllSpace(s, start, i) {
      SkipSpaceIs(s, start, i);
    } else if HeadTo(s, start, i) {
      var g: nat, e: nat :| GenericsBetween(s, start, g, e, i);
      SkipSpaceIs(s, start, g);
      GenericsEnd(s, g, e);
      SkipSpaceIs(s, e + 1, i);
    }
    if Opener(s, start) == i && s[k] == '<' {
      var e := SkipGenerics(s, k, 0) - 1;
      GenericsEnd(s, k, e);
      SkippedIsSpace(s, e + 1);
      assert GenericsBetween(s, start, k, e, i);
    }
  }

  /** What is captured is exactly the inside of the template or of the list of arguments of a call, and
      there is something to capture exactly where there is one. */
  lemma CapturedIsBody(s: string, start: nat, i: nat, e: nat)
    requires start <= |s| && i < e < |s|
    ensures Opener(s, start) == i && Captured(s, start) == Some(Body(s[i + 1..e], e + 1)) <==> CallAt(s, start, i, e)
  {
    if s[i] == '`' || s[i] == '(' {
      OpenerIsHead(s, start, i);
      TemplateCloseIsEnd(s, i + 1, e);
      ParenCloseIsEnd(s, i + 1, e);
    }
    if Opener(s, start) == i {
      CapturedTo(s, start, i, e);
    }
  }

  lemma CapturedTo(s: string, start: nat, i: nat, e: nat)
    requires start <= |s| && i < e < |s| && Opener(s, start) == i
    ensures Captured(s, start) == Some(Body(s[i + 1..e], e + 1)) <==>
            (s[i] == '`' && TemplateClose(s, i + 1) == Some(e)) || (s[i] == '(' && ParenClose(s, i + 1, 1) == Some(e))
  {
  }

  /** `body` is what stands in the only call behind `start`, and nothing if there is none. */
  ghost predicate IsBodyAt(body: Option<Body>, s: string, start: nat) {
    && (body.Some? <==> exists i: nat, e: nat :: CallAt(s, start, i, e))
    && forall i: nat, e: nat | CallAt(s, start, i, e) :: body == Some(Body(s[i + 1..e], e + 1))
  }

  /** Exactly the body of the call is captured, and nothing where there is no call. */
  lemma CaptureFindsCall(s: string, start: nat)
    requires start <= |s|
    ensures IsBodyAt(Captured(s, start), s, start)
  {
    if Captured(s, start).Some? {
      var i, e := Opener(s, start), Captured(s, start).value.endIndex - 1;
      CapturedIsBody(s, start, i, e);
    }
    forall i: nat, e: nat | CallAt(s, start, i, e)
      ensures Captured(s, start) == Some(Body(s[i + 1..e], e + 1))
    {
      CapturedIsBody(s, start, i, e);
    }
  }

  lemma ParenCloseFindsEnd(s: string, j: nat)
    requires j <= |s|
    ensures forall e: nat :: ParenClose(s, j, 1) == Some(e) <==> ListedTo(s, j, e)
  {
    forall e: nat
      ensures ParenClose(s, j, 1) == Some(e) <==> ListedTo(s, j, e)
    {
      ParenCloseIsEnd(s, j, e);
    }
  }

  lemma TemplateCloseFindsEnd(s: string, j: nat)
    requires j <= |s|
    ensures forall e: nat :: TemplateClose(s, j) == Some(e) <==> QuotedTo(s, j, e, '`', true)
  {
    forall e: nat
      ensures TemplateClose(s, j) == Some(e) <==> QuotedTo(s, j, e, '`', true)
    {
      TemplateCloseIsEnd(s, j, e);
    }
  }

  lemma LiteralCloseFindsEnd(s: string, j: nat, quote: char)
    requires j <= |s| && quote != '\\'
    ensures forall e: nat :: LiteralClose(s, j, quote) == e < |s| <==> QuotedTo(s, j, e, quote, false)
  {
    forall e: nat
      ensures LiteralClose(s, j, quote) == e < |s| <==> QuotedTo(s, j, e, quote, false)
    {
      LiteralCloseIsEnd(s, j, quote, e);
    }
  }

  lemma GenericsFindEnd(s: string, i: nat)
    requires i < |s| && s[i] == '<'
    ensures forall e: nat :: GenericsTo(s, i, e) ==> SkipGenerics(s, i, 0) == e + 1
    ensures SkipGenerics(s, i, 0) == |s| || exists e: nat :: GenericsTo(s, i, e)
  {
    forall e: nat
      ensures GenericsTo(s, i, e) ==> SkipGenerics(s, i, 0) == e + 1
    {
      GenericsEnd(s, i, e);
    }
    GenericsEnd(s, i, SkipGenerics(s, i, 0) - 1);
  }

  lemma InterpolationFindsEnd(s: string, j: nat)
    requires j <= |s|
    ensures forall e: nat :: ClosesAt(s, j, e, '{', '}') ==> InterpEnd(s, j, 1) == e + 1
    ensures InterpEnd(s, j, 1) == |s| || exists e: nat :: ClosesAt(s, j, e, '{', '}')
  {
    forall e: nat
      ensures ClosesAt(s, j, e, '{', '}') ==> InterpEnd(s, j, 1) == e + 1
    {
      InterpolationEnds(s, j, e);
    }
    InterpEndIs(s, j, 1);
    if InterpEnd(s, j, 1) < |s| {
      InterpolationEnds(s, j, InterpEnd(s, j, 1) - 1);
    }
  }
}
