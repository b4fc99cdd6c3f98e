/** The two readers of call arguments in the key audits: one reads the first argument, the other all. */
module ArgReader {
  import opened Text
  import opened CommentStripper
  import opened Wrappers

  /** Open brackets; the literal the reader is in, if any; and the interpolations open in it. */
  datatype State = State(depth: nat, quote: Option<char>, templateDepth: nat)

  const START: State := State(0, None, 0)

  /** One step: past so many characters in a new state, or stop at the end of an argument. */
  datatype Move = Go(next: nat, state: State) | Stop

  predicate Opens(c: char) {
    c == '(' || c == '[' || c == '{'
  }

  predicate Closes(c: char) {
    c == ')' || c == ']' || c == '}'
  }

  predicate Ends(c: char) {
    Closes(c) || c == ','
  }

  /** Interpolations are open only inside a literal. */
  predicate Sane(st: State) {
    st.quote.None? ==> st.templateDepth == 0
  }

  function Next(s: string, i: nat, st: State): (move: Move)
    requires i < |s|
    ensures move.Go? ==> i < move.next <= |s|
    ensures move.Stop? ==> st.quote.None? && st.depth == 0 && Ends(s[i])
    ensures move.Go? && Sane(st) ==> Sane(move.state)
  {
    var c := s[i];
    if st.quote.Some? then
      if c == '\\' then Go(Min(i + 2, |s|), st)
      else if st.quote.value == '`' && Pair(s, i, '$', '{') then Go(i + 2, st.(templateDepth := st.templateDepth + 1))
      else if st.templateDepth > 0 && c == '}' then Go(i + 1, st.(templateDepth := st.templateDepth - 1))
      else if st.templateDepth == 0 && c == st.quote.value then Go(i + 1, st.(quote := None))
      else Go(i + 1, st)
    else if IsQuote(c) then Go(i + 1, st.(quote := Some(c)))
    else if Opens(c) then Go(i + 1, st.(depth := st.depth + 1))
    else if Closes(c) then if st.depth == 0 then Stop else Go(i + 1, st.(depth := st.depth - 1))
    else if c == ',' && st.depth == 0 then Stop
    else Go(i + 1, st)
  }

  /** The position of the comma or bracket that ends the argument the reader is in. */
  function Delim(s: string, i: nat, st: State): (d: Option<nat>)
    requires i <= |s|
    ensures d.Some? ==> i <= d.value < |s| && Ends(s[d.value])
    decreases |s| - i
  {
    if i == |s| then None
    else
      match Next(s, i, st)
      case Stop => Some(i)
      case Go(next, to) => Delim(s, next, to)
  }

  /** The argument that starts at `i`, if it ends. */
  function FirstArg(s: string, i: nat): Option<string>
    requires i <= |s|
  {
    var d := Delim(s, i, START);
    if d.None? then None else Some(Trim(s[i..d.value]))
  }

  function NonEmpty(arg: string): seq<string> {
    if arg == "" then [] else [arg]
  }

  /** The arguments from `i` on, when `have` were read before. */
  function ArgsFrom(s: string, i: nat, max: nat, have: nat): seq<string>
    requires i <= |s|
    decreases |s| - i, 1
  {
    var d := Delim(s, i, START);
    if d.None? then [] else NonEmpty(Trim(s[i..d.value])) + ArgsAfter(s, i, d.value, max, have)
  }

  /** The arguments after the one from `i` to its end `d`. */
  function ArgsAfter(s: string, i: nat, d: nat, max: nat, have: nat): seq<string>
    requires i <= d < |s|
    decreases |s| - i, 0
  {
    var read := have + |NonEmpty(Trim(s[i..d]))|;
    if s[d] != ',' || read >= max then [] else ArgsFrom(s, d + 1, max, read)
  }

  // ---------- what an argument is ----------

  /** The inside of a literal: characters, escapes and, in a template, interpolations, which may hold others. */
  datatype Content =
    | End
    | Plain(c: char, rest: Content)
    | Escape(c: char, rest: Content)
    | Hole(inner: Content, rest: Content)

  /** An argument: signs, groups in brackets and whole literals. */
  datatype Argument =
    | Nothing
    | Sign(c: char, rest: Argument)
    | Group(open: char, inner: Argument, close: char, rest: Argument)
    | Literal(quote: char, content: Content, rest: Argument)

  function PrintContent(t: Content): string {
    match t
    case End => ""
    case Plain(c, rest) => [c] + PrintContent(rest)
    case Escape(c, rest) => ['\\', c] + PrintContent(rest)
    case Hole(inner, rest) => ['$', '{'] + (PrintContent(inner) + (['}'] + PrintContent(rest)))
  }

  function PrintArgument(a: Argument): string {
    match a
    case Nothing => ""
    case Sign(c, rest) => [c] + PrintArgument(rest)
    case Group(open, inner, close, rest) => [open] + (PrintArgument(inner) + ([close] + PrintArgument(rest)))
    case Literal(quote, content, rest) => [quote] + (PrintContent(content) + ([quote] + PrintArgument(rest)))
  }

  /** Nothing in it ends the literal, or the hole it is the inside of; only a template has holes. */
  ghost predicate Held(t: Content, quote: char, hole: bool) {
    match t
    case End => true
    case Plain(c, rest) =>
      && c != '\\' && c != (if hole then '}' else quote) && Held(rest, quote, hole)
      && (quote == '`' && c == '$' ==> PrintContent(rest) == "" || PrintContent(rest)[0] != '{')
    case Escape(_, rest) => Held(rest, quote, hole)
    case Hole(inner, rest) => quote == '`' && Held(inner, quote, true) && Held(rest, quote, hole)
  }

  /** A comma stands only within brackets. A group may be closed by any closing bracket. */
  ghost predicate Shaped(a: Argument, nested: bool) {
    match a
    case Nothing => true
    case Sign(c, rest) => !IsQuote(c) && !Opens(c) && !Closes(c) && (c == ',' ==> nested) && Shaped(rest, nested)
    case Group(open, inner, close, rest) =>
      Opens(open) && Closes(close) && Shaped(inner, true) && Shaped(rest, nested)
    case Literal(quote, content, rest) => IsQuote(quote) && Held(content, quote, false) && Shaped(rest, nested)
  }

  /** From `i` to `e` stands an argument, and at `e` what ends it. */
  ghost predicate ArgTo(s: string, i: nat, e: nat) {
    e < |s| && Ends(s[e]) &&
    exists a :: Shaped(a, false) && Holds(s, i, PrintArgument(a)) && e == i + |PrintArgument(a)|
  }

  /** In a literal, `d` holes deep. */
  function Within(depth: nat, quote: char, d: nat): State {
    State(depth, Some(quote), d)
  }

  function Outside(depth: nat): State {
    State(depth, None, 0)
  }

  lemma EnclosedParts(s: string, j: nat, open: string, p: string, close: char, q: string)
    requires Holds(s, j, open + (p + ([close] + q)))
    ensures var e := j + |open| + |p|;
            Holds(s, j, open) && Holds(s, j + |open|, p) && e < |s| && s[e] == close && Holds(s, e + 1, q)
  {
    HoldsParts(s, j, open, p + ([close] + q));
    HoldsParts(s, j + |open|, p, [close] + q);
    HoldsParts(s, j + |open| + |p|, [close], q);
  }

  lemma EnclosedHolds(s: string, j: nat, open: string, p: string, close: char, q: string)
    requires Holds(s, j, open) && Holds(s, j + |open|, p)
    requires var e := j + |open| + |p|; e < |s| && s[e] == close && Holds(s, e + 1, q)
    ensures Holds(s, j, open + (p + ([close] + q)))
  {
    HoldsJoin(s, j + |open| + |p|, [close], q);
    HoldsJoin(s, j + |open|, p, [close] + q);
    HoldsJoin(s, j, open, p + ([close] + q));
  }

  lemma Goes(s: string, i: nat, st: State, next: nat, to: State)
    requires i < |s| && Next(s, i, st) == Go(next, to)
    ensures Delim(s, i, st) == Delim(s, next, to)
  {
  }

  /** A literal's content is read from end to end. */
  lemma {:induction false} ContentPassed(s: string, j: nat, t: Content, depth: nat, quote: char, d: nat)
    requires IsQuote(quote) && Held(t, quote, d > 0) && Holds(s, j, PrintContent(t))
    requires j + |PrintContent(t)| < |s| && s[j + |PrintContent(t)|] != '{'
    ensures Delim(s, j, Within(depth, quote, d)) == Delim(s, j + |PrintContent(t)|, Within(depth, quote, d))
    decreases t, 1
  {
    match t
    case End =>
    case Plain(c, rest) =>
      HoldsParts(s, j, [c], PrintContent(rest));
      FirstIs(s, j + 1, PrintContent(rest));
      Goes(s, j, Within(depth, quote, d), j + 1, Within(depth, quote, d));
      ContentPassed(s, j + 1, rest, depth, quote, d);
    case Escape(c, rest) =>
      HoldsParts(s, j, ['\\', c], PrintContent(rest));
      Goes(s, j, Within(depth, quote, d), j + 2, Within(depth, quote, d));
      ContentPassed(s, j + 2, rest, depth, quote, d);
    case Hole(inner, rest) =>
      HoleParts(s, j, inner, rest);
      HolePassed(s, j, inner, depth, d);
      ContentPassed(s, j + 2 + |PrintContent(inner)| + 1, rest, depth, quote, d);
  }

  lemma {:induction false} HolePassed(s: string, j: nat, inner: Content, depth: nat, d: nat)
    requires Held(inner, '`', true) && Pair(s, j, '$', '{') && Holds(s, j + 2, PrintContent(inner))
    requires var e := j + 2 + |PrintContent(inner)|; e < |s| && s[e] == '}'
    ensures Delim(s, j, Within(depth, '`', d)) == Delim(s, j + 2 + |PrintContent(inner)| + 1, Within(depth, '`', d))
    decreases inner, 2
  {
    var e := j + 2 + |PrintContent(inner)|;
    Goes(s, j, Within(depth, '`', d), j + 2, Within(depth, '`', d + 1));
    ContentPassed(s, j + 2, inner, depth, '`', d + 1);
    Goes(s, e, Within(depth, '`', d + 1), e + 1, Within(depth, '`', d));
  }

  lemma HoleParts(s: string, j: nat, inner: Content, rest: Content)
    requires Holds(s, j, PrintContent(Hole(inner, rest)))
    ensures var e := j + 2 + |PrintContent(inner)|;
            && Pair(s, j, '$', '{') && Holds(s, j + 2, PrintContent(inner))
            && e < |s| && s[e] == '}' && Holds(s, e + 1, PrintContent(rest))
            && j + |PrintContent(Hole(inner, rest))| == e + 1 + |PrintContent(rest)|
  {
    EnclosedParts(s, j, ['$', '{'], PrintContent(inner), '}', PrintContent(rest));
    HoldsAt(s, j, ['$', '{'], 0);
    HoldsAt(s, j, ['$', '{'], 1);
  }

  lemma FirstIs(s: string, j: nat, p: string)
    requires Holds(s, j, p)
    ensures p != "" ==> s[j] == p[0]
  {
  }

  /** An argument is read from end to end. */
  lemma {:induction false} ArgumentPassed(s: string, j: nat, a: Argument, depth: nat)
    requires Shaped(a, depth > 0) && Holds(s, j, PrintArgument(a))
    ensures Delim(s, j, Outside(depth)) == Delim(s, j + |PrintArgument(a)|, Outside(depth))
    decreases a, 1
  {
    match a
    case Nothing =>
    case Sign(c, rest) => SignPassed(s, j, c, rest, depth);
    case Group(open, inner, close, rest) => GroupPassed(s, j, a, depth);
    case Literal(quote, content, rest) =>
      LiteralPassed(s, j, quote, content, PrintArgument(rest), depth);
      ArgumentPassed(s, j + 1 + |PrintContent(content)| + 1, rest, depth);
  }

  lemma {:induction false} SignPassed(s: string, j: nat, c: char, rest: Argument, depth: nat)
    requires Shaped(Sign(c, rest), depth > 0) && Holds(s, j, [c] + PrintArgument(rest))
    ensures Delim(s, j, Outside(depth)) == Delim(s, j + 1 + |PrintArgument(rest)|, Outside(depth))
    decreases rest, 2
  {
    HoldsParts(s, j, [c], PrintArgument(rest));
    Goes(s, j, Outside(depth), j + 1, Outside(depth));
    ArgumentPassed(s, j + 1, rest, depth);
  }

  lemma {:induction false} GroupPassed(s: string, j: nat, a: Argument, depth: nat)
    requires a.Group? && Shaped(a, depth > 0) && Holds(s, j, PrintArgument(a))
    ensures Delim(s, j, Outside(depth)) == Delim(s, j + |PrintArgument(a)|, Outside(depth))
    decreases a, 0
  {
    var p := PrintArgument(a.inner);
    var e := j + 1 + |p|;
    EnclosedParts(s, j, [a.open], p, a.close, PrintArgument(a.rest));
    Goes(s, j, Outside(depth), j + 1, Outside(depth + 1));
    ArgumentPassed(s, j + 1, a.inner, depth + 1);
    Goes(s, e, Outside(depth + 1), e + 1, Outside(depth));
    ArgumentPassed(s, e + 1, a.rest, depth);
  }

  lemma LiteralPassed(s: string, j: nat, quote: char, content: Content, rest: string, depth: nat)
    requires IsQuote(quote) && Held(content, quote, false)
    requires Holds(s, j, [quote] + (PrintContent(content) + ([quote] + rest)))
    ensures var next := j + 1 + |PrintContent(content)| + 1;
            Holds(s, next, rest) && Delim(s, j, Outside(depth)) == Delim(s, next, Outside(depth))
  {
    var p := PrintContent(content);
    var e := j + 1 + |p|;
    EnclosedParts(s, j, [quote], p, quote, rest);
    Goes(s, j, Outside(depth), j + 1, Within(depth, quote, 0));
    ContentPassed(s, j + 1, content, depth, quote, 0);
    Goes(s, e, Within(depth, quote, 0), e + 1, Outside(depth));
  }

  /** `t` stands at `j` up to the quote, or to the brace, at `k` that ends it, where the reader leaves the
      literal or the hole. */
  ghost predicate ContentEnds(s: string, j: nat, t: Content, k: nat, depth: nat, quote: char, d: nat) {
    && Held(t, quote, d > 0) && Holds(s, j, PrintContent(t)) && k == j + |PrintContent(t)| < |s|
    && s[k] == (if d > 0 then '}' else quote)
    && Delim(s, j, Within(depth, quote, d)) ==
       Delim(s, k + 1, if d > 0 then Within(depth, quote, d - 1) else Outside(depth))
  }

  /** What is read of a literal up to the quote, or to the brace, that ends it. */
  lemma {:induction false} ContentParsed(s: string, j: nat, depth: nat, quote: char, d: nat)
    returns (t: Content, k: nat)
    requires j <= |s| && IsQuote(quote) && (d > 0 ==> quote == '`') && Delim(s, j, Within(depth, quote, d)).Some?
    ensures ContentEnds(s, j, t, k, depth, quote, d)
    decreases |s| - j, 1
  {
    if s[j] == '\\' {
      t, k := EscapeParsed(s, j, depth, quote, d);
    } else if quote == '`' && Pair(s, j, '$', '{') {
      t, k := HoleParsed(s, j, depth, d);
    } else if s[j] == (if d > 0 then '}' else quote) {
      t, k := End, j;
    } else {
      t, k := PlainParsed(s, j, depth, quote, d);
    }
  }

  lemma {:induction false} EscapeParsed(s: string, j: nat, depth: nat, quote: char, d: nat)
    returns (t: Content, k: nat)
    requires j < |s| && s[j] == '\\' && IsQuote(quote) && (d > 0 ==> quote == '`')
    requires Delim(s, j, Within(depth, quote, d)).Some?
    ensures ContentEnds(s, j, t, k, depth, quote, d)
    decreases |s| - j, 0
  {
    Goes(s, j, Within(depth, quote, d), Min(j + 2, |s|), Within(depth, quote, d));
    var rest;
    rest, k := ContentParsed(s, j + 2, depth, quote, d);
    t := Escape(s[j + 1], rest);
    HoldsJoin(s, j, ['\\', s[j + 1]], PrintContent(rest));
  }

  lemma {:induction false} PlainParsed(s: string, j: nat, depth: nat, quote: char, d: nat)
    returns (t: Content, k: nat)
    requires j < |s| && s[j] != '\\' && IsQuote(quote) && (d > 0 ==> quote == '`')
    requires !(quote == '`' && Pair(s, j, '$', '{')) && s[j] != if d > 0 then '}' else quote
    requires Delim(s, j, Within(depth, quote, d)).Some?
    ensures ContentEnds(s, j, t, k, depth, quote, d)
    decreases |s| - j, 0
  {
    Goes(s, j, Within(depth, quote, d), j + 1, Within(depth, quote, d));
    var rest;
    rest, k := ContentParsed(s, j + 1, depth, quote, d);
    t := Plain(s[j], rest);
    FirstIs(s, j + 1, PrintContent(rest));
    HoldsJoin(s, j, [s[j]], PrintContent(rest));
  }

  lemma {:induction false} HoleParsed(s: string, j: nat, depth: nat, d: nat) returns (t: Content, k: nat)
    requires Pair(s, j, '$', '{') && Delim(s, j, Within(depth, '`', d)).Some?
    ensures ContentEnds(s, j, t, k, depth, '`', d)
    decreases |s| - j, 0
  {
    Goes(s, j, Within(depth, '`', d), j + 2, Within(depth, '`', d + 1));
    var inner, m := ContentParsed(s, j + 2, depth, '`', d + 1);
    var rest;
    rest, k := ContentParsed(s, m + 1, depth, '`', d);
    t := Hole(inner, rest);
    EnclosedHolds(s, j, ['$', '{'], PrintContent(inner), '}', PrintContent(rest));
  }

  /** `a` stands at `j` up to what ends it at `k`: the end of the argument, or the bracket that closes its group. */
  ghost predicate ArgumentEnds(s: string, j: nat, a: Argument, k: nat, depth: nat) {
    && Shaped(a, depth > 0) && Holds(s, j, PrintArgument(a)) && k == j + |PrintArgument(a)| < |s|
    && (depth == 0 ==> Ends(s[k]) && Delim(s, j, Outside(depth)) == Some(k))
    && (depth > 0 ==> Closes(s[k]) && Delim(s, j, Outside(depth)) == Delim(s, k + 1, Outside(depth - 1)))
  }

  /** What is read up to the end of an argument, or within brackets up to the one that closes them. */
  lemma {:induction false} ArgumentParsed(s: string, j: nat, depth: nat) returns (a: Argument, k: nat)
    requires j <= |s| && Delim(s, j, Outside(depth)).Some?
    ensures ArgumentEnds(s, j, a, k, depth)
    decreases |s| - j, 1
  {
    if IsQuote(s[j]) {
      a, k := LiteralParsed(s, j, depth);
    } else if Opens(s[j]) {
      a, k := GroupParsed(s, j, depth);
    } else if Closes(s[j]) || (s[j] == ',' && depth == 0) {
      a, k := Nothing, j;
    } else {
      Goes(s, j, Outside(depth), j + 1, Outside(depth));
      var rest;
      rest, k := ArgumentParsed(s, j + 1, depth);
      a := Sign(s[j], rest);
      HoldsJoin(s, j, [s[j]], PrintArgument(rest));
    }
  }

  lemma {:induction false} GroupParsed(s: string, j: nat, depth: nat) returns (a: Argument, k: nat)
    requires j < |s| && Opens(s[j]) && Delim(s, j, Outside(depth)).Some?
    ensures ArgumentEnds(s, j, a, k, depth)
    decreases |s| - j, 0
  {
    Goes(s, j, Outside(depth), j + 1, Outside(depth + 1));
    var inner, m := ArgumentParsed(s, j + 1, depth + 1);
    var rest;
    rest, k := ArgumentParsed(s, m + 1, depth);
    a := Group(s[j], inner, s[m], rest);
    GroupEnds(s, j, inner, m, rest, k, depth);
  }

  lemma GroupEnds(s: string, j: nat, inner: Argument, m: nat, rest: Argument, k: nat, depth: nat)
    requires j < |s| && Opens(s[j]) && Delim(s, j, Outside(depth)) == Delim(s, j + 1, Outside(depth + 1))
    requires ArgumentEnds(s, j + 1, inner, m, depth + 1) && ArgumentEnds(s, m + 1, rest, k, depth)
    ensures ArgumentEnds(s, j, Group(s[j], inner, s[m], rest), k, depth)
  {
    EnclosedHolds(s, j, [s[j]], PrintArgument(inner), s[m], PrintArgument(rest));
  }

  lemma {:induction false} LiteralParsed(s: string, j: nat, depth: nat) returns (a: Argument, k: nat)
    requires j < |s| && IsQuote(s[j]) && Delim(s, j, Outside(depth)).Some?
    ensures ArgumentEnds(s, j, a, k, depth)
    decreases |s| - j, 0
  {
    Goes(s, j, Outside(depth), j + 1, Within(depth, s[j], 0));
    var content, m := ContentParsed(s, j + 1, depth, s[j], 0);
    var rest;
    rest, k := ArgumentParsed(s, m + 1, depth);
    a := Literal(s[j], content, rest);
    EnclosedHolds(s, j, [s[j]], PrintContent(content), s[j], PrintArgument(rest));
  }

  /** The comma or bracket at which the reader stops is the one that ends the argument, and it stops at
      one if there is one. */
  lemma DelimIsEnd(s: string, i: nat, e: nat)
    requires i <= |s|
    ensures Delim(s, i, START) == Some(e) <==> ArgTo(s, i, e)
  {
    if Delim(s, i, START) == Some(e) {
      var a, k := ArgumentParsed(s, i, 0);
    }
    if ArgTo(s, i, e) {
      var a :| Shaped(a, false) && Holds(s, i, PrintArgument(a)) && e == i + |PrintArgument(a)|;
      ArgumentPassed(s, i, a, 0);
    }
  }

  /** `arg` is the text of the one argument that starts at `i`, trimmed, and nothing if none ends there. */
  ghost predicate IsFirstArg(arg: Option<string>, s: string, i: nat) {
    && (arg.Some? <==> exists e: nat :: ArgTo(s, i, e))
    && forall e: nat | ArgTo(s, i, e) :: i <= e && arg == Some(Trim(s[i..e]))
  }

  lemma FirstArgIs(s: string, i: nat)
    requires i <= |s|
    ensures IsFirstArg(FirstArg(s, i), s, i)
  {
    var d := Delim(s, i, START);
    if d.Some? {
      DelimIsEnd(s, i, d.value);
    }
    forall e: nat | ArgTo(s, i, e)
      ensures d == Some(e)
    {
      DelimIsEnd(s, i, e);
    }
  }

  ghost predicate NoArgAt(s: string, i: nat) {
    forall e: nat :: !ArgTo(s, i, e)
  }

  /** `args` are the arguments from `i` on, trimmed and the empty ones left out, until one is not ended by
      a comma or, with the `have` before, there are `max`. */
  ghost predicate AreArgs(args: seq<string>, s: string, i: nat, max: nat, have: nat)
    decreases |s| - i, 1
  {
    (args == [] && NoArgAt(s, i)) || exists e: nat :: ArgTo(s, i, e) && AreArgsTo(args, s, i, e, max, have)
  }

  /** The first of them, which ends at `e`, and those after it. */
  ghost predicate AreArgsTo(args: seq<string>, s: string, i: nat, e: nat, max: nat, have: nat)
    decreases |s| - i, 0
  {
    i <= e < |s| &&
    var here := NonEmpty(Trim(s[i..e]));
    if s[e] == ',' && have + |here| < max
    then here <= args && AreArgs(args[|here|..], s, e + 1, max, have + |here|)
    else args == here
  }

  lemma {:induction false} ArgsFromAre(s: string, i: nat, max: nat, have: nat)
    requires i <= |s|
    ensures AreArgs(ArgsFrom(s, i, max, have), s, i, max, have)
    decreases |s| - i
  {
    var d := Delim(s, i, START);
    if d.None? {
      forall e: nat
        ensures !ArgTo(s, i, e)
      {
        DelimIsEnd(s, i, e);
      }
    } else {
      var e := d.value;
      var here := NonEmpty(Trim(s[i..e]));
      DelimIsEnd(s, i, e);
      if s[e] == ',' && have + |here| < max {
        ArgsFromAre(s, e + 1, max, have + |here|);
      }
      FirstOfArgs(s, i, e, max, have);
    }
  }

  lemma FirstOfArgs(s: string, i: nat, e: nat, max: nat, have: nat)
    requires i <= e < |s| && Delim(s, i, START) == Some(e)
    requires var n := |NonEmpty(Trim(s[i..e]))|;
             s[e] == ',' && have + n < max ==> AreArgs(ArgsFrom(s, e + 1, max, have + n), s, e + 1, max, have + n)
    ensures AreArgsTo(ArgsFrom(s, i, max, have), s, i, e, max, have)
  {
    var here := NonEmpty(Trim(s[i..e]));
    if s[e] == ',' && have + |here| < max {
      var rest := ArgsFrom(s, e + 1, max, have + |here|);
      assert (here + rest)[|here|..] == rest;
    }
  }

  // ---------- white space ----------

  lemma {:induction false} DelimSkipsSpace(s: string, i: nat)
    requires i <= |s|
    ensures Delim(s, i, START) == Delim(s, SkipSpace(s, i), START)
    decreases |s| - i
  {
    if i >= |s| || !IsSpace(s[i]) {
    } else {
      assert Next(s, i, START) == Go(i + 1, START);
      DelimSkipsSpace(s, i + 1);
    }
  }

  /** White space in front of an argument changes nothing. */
  lemma ArgSkipsSpace(s: string, i: nat)
    requires i <= |s|
    ensures FirstArg(s, i) == FirstArg(s, SkipSpace(s, i))
  {
    var j := SkipSpace(s, i);
    SkippedIsSpace(s, i);
    DelimSkipsSpace(s, i);
    var d := Delim(s, j, START);
    if d.Some? {
      TrimSkips(s[i..d.value], j - i);
      assert s[i..d.value][j - i..] == s[j..d.value];
    }
  }

  lemma ArgsSkipSpace(s: string, i: nat, max: nat, have: nat)
    requires i <= |s|
    ensures ArgsFrom(s, i, max, have) == ArgsFrom(s, SkipSpace(s, i), max, have)
  {
    ArgSkipsSpace(s, i);
    DelimSkipsSpace(s, i);
  }

  // ---------- the readers ----------

  method ReadFirstArg(text: string, start: nat) returns (arg: Option<string>)
    requires start <= |text|
    ensures arg == FirstArg(text, start) && IsFirstArg(arg, text, start)
  {
    FirstArgIs(text, start);
    var i := SkipSpaces(text, start);
    ArgSkipsSpace(text, start);
    if i >= |text| {
      return None;
    }
    var argStart := i;
    var state := START;
    while i < |text|
      invariant argStart <= i <= |text| && Delim(text, i, state) == Delim(text, argStart, START)
    {
      var move := Next(text, i, state);
      if move.Stop? {
        return Some(Trim(text[argStart..i]));
      }
      i, state := move.next, move.state;
    }
    arg := None;
  }

  /** Appends the argument that ends at `d`; says whether the list is complete with it. */
  method AddToken(text: string, i: nat, d: nat, max: nat, out: seq<string>, ghost all: seq<string>)
    returns (now: seq<string>, full: bool)
    requires i <= d < |text| && Delim(text, i, START) == Some(d) && out + ArgsFrom(text, i, max, |out|) == all
    ensures full ==> now == all
    ensures !full ==> text[d] == ',' && now + ArgsFrom(text, d + 1, max, |now|) == all
  {
    var tok := Trim(text[i..d]);
    now := out;
    if tok != "" {
      now := now + [tok];
    }
    full := text[d] != ',' || |now| >= max;
    assert now == out + NonEmpty(tok);
  }

  method ReadArgsList(text: string, start: nat, max: nat) returns (out: seq<string>)
    requires start <= |text|
    ensures out == ArgsFrom(text, start, max, 0) && AreArgs(out, text, start, max, 0)
  {
    ArgsFromAre(text, start, max, 0);
    out := ReadArgs(text, start, max);
  }

  method ReadArgs(text: string, start: nat, max: nat) returns (out: seq<string>)
    requires start <= |text|
    ensures out == ArgsFrom(text, start, max, 0)
  {
    out := [];
    ghost var all := ArgsFrom(text, start, max, 0);
    var i: nat := SkipSpaces(text, start);
    ArgsSkipSpace(text, start, max, 0);
    if i >= |text| {
      return;
    }
    var argStart: nat := i;
    var state := START;
    while i < |text|
      invariant 0 <= argStart <= i <= |text| && Sane(state)
      invariant Delim(text, i, state) == Delim(text, argStart, START)
      invariant out + ArgsFrom(text, argStart, max, |out|) == all
    {
      var move := Next(text, i, state);
      if move.Stop? {
        var full;
        out, full := AddToken(text, argStart, i, max, out, all);
        if full {
          return;
        }
        argStart := i + 1;
        i := i + 1;
      } else {
        i, state := move.next, move.state;
      }
    }
  }

  // ---------- the two readers agree ----------

  lemma {:induction false} LimitIsRelative(s: string, i: nat, max: nat, have: nat, max': nat, have': nat)
    requires i <= |s| && max - have == max' - have'
    ensures ArgsFrom(s, i, max, have) == ArgsFrom(s, i, max', have')
    decreases |s| - i
  {
    var d := Delim(s, i, START);
    if d.None? {
    } else {
      var n := |NonEmpty(Trim(s[i..d.value]))|;
      LimitIsRelative(s, d.value + 1, max, have + n, max', have' + n);
    }
  }

  /** The list reader is the first-argument reader, applied again after each comma, with the empty
      arguments left out and a limit on the rest. */
  lemma ListIteratesFirst(s: string, i: nat, max: nat)
    requires i <= |s| && max > 0
    ensures FirstArg(s, i) == None ==> ArgsFrom(s, i, max, 0) == []
    ensures FirstArg(s, i).Some? ==>
              var here, d := NonEmpty(FirstArg(s, i).value), Delim(s, i, START).value;
              ArgsFrom(s, i, max, 0) ==
              here + if s[d] == ',' && |here| < max then ArgsFrom(s, d + 1, max - |here|, 0) else []
  {
    var d := Delim(s, i, START);
    if d.Some? {
      var n := |NonEmpty(Trim(s[i..d.value]))|;
      if n <= max {
        LimitIsRelative(s, d.value + 1, max, n, max - n, 0);
      }
    }
  }

  /** A first argument that is not empty heads the list, whatever the limit. */
  lemma FirstHeadsList(s: string, i: nat, max: nat)
    requires i <= |s| && FirstArg(s, i).Some? && FirstArg(s, i).value != ""
    ensures ArgsFrom(s, i, max, 0) != [] && ArgsFrom(s, i, max, 0)[0] == FirstArg(s, i).value
  {
  }

  /** Every element is trimmed and non-empty, and there are never more than the limit, except that a
      limit of zero still lets one through. */
  lemma {:induction false} ListIsClean(s: string, i: nat, max: nat, have: nat)
    requires i <= |s| && have <= max
    ensures forall a <- ArgsFrom(s, i, max, have) :: a != "" && Trimmed(a)
    ensures |ArgsFrom(s, i, max, have)| <= if max == have then 1 else max - have
    decreases |s| - i
  {
    var d := Delim(s, i, START);
    if d.None? {
    } else {
      TrimIsTrimmed(s[i..d.value]);
      var here := NonEmpty(Trim(s[i..d.value]));
      if s[d.value] == ',' && have + |here| < max {
        ListIsClean(s, d.value + 1, max, have + |here|);
      }
    }
  }

  /** The list stays within its limit exactly when the limit is not zero or there is no first argument. */
  lemma LimitKeptIff(s: string, i: nat, max: nat)
    requires i <= |s|
    ensures |ArgsFrom(s, i, max, 0)| <= max <==> max > 0 || FirstArg(s, i) in {None, Some("")}
  {
    ListIsClean(s, i, max, 0);
  }

  /** With a limit of zero the list can be longer than the limit. */
  lemma ZeroLimitLetsOneThrough()
    ensures ArgsFrom("a)", 0, 0, 0) == ["a"]
  {
    var s := "a)";
    assert Delim(s, 1, START) == Some(1);
    assert Delim(s, 0, START) == Some(1);
    assert s[0..1] == "a";
    assert TrimLeft("a") == "a" && TrimRight("a") == "a";
  }

  // ---------- reading back a printed argument list ----------

  /** The arguments as a call writes them, up to and including the closing parenthesis. */
  function Print(args: seq<string>): string
    requires args != []
  {
    args[0] + if |args| == 1 then ")" else "," + Print(args[1..])
  }

  /** The first `n` arguments, trimmed. */
  function FirstTrimmed(args: seq<string>, n: nat): seq<string>
    decreases n
  {
    if args == [] || n == 0 then [] else [Trim(args[0])] + FirstTrimmed(args[1..], n - 1)
  }

  lemma TrimmedStep(args: seq<string>, n: nat)
    requires args != [] && n > 0
    ensures FirstTrimmed(args, n) == [Trim(args[0])] + FirstTrimmed(args[1..], n - 1)
    ensures |args| == 1 || n == 1 ==> FirstTrimmed(args, n) == [Trim(args[0])]
  {
  }

  /** What lies where in a printed argument list. */
  lemma PrintLayout(args: seq<string>, text: string, i: nat)
    requires args != [] && Holds(text, i, Print(args))
    ensures var a := args[0];
            && Holds(text, i, a) && i + |a| < |text|
            && text[i + |a|] == (if |args| == 1 then ')' else ',')
            && (|args| > 1 ==> Holds(text, i + |a| + 1, Print(args[1..])))
  {
    var a := args[0];
    if |args| == 1 {
      HoldsParts(text, i, a, ")");
    } else {
      var q := Print(args[1..]);
      HoldsParts(text, i, a, "," + q);
      HoldsParts(text, i + |a|, ",", q);
    }
  }

  lemma OneIsRead(a: string, text: string, i: nat, max: nat, have: nat)
    requires IsArgument(a) && Trim(a) != "" && Holds(text, i, a)
    requires i + |a| < |text| && text[i + |a|] in {',', ')'}
    ensures text[i + |a|] == ',' && have + 1 < max ==>
              ArgsFrom(text, i, max, have) == [Trim(a)] + ArgsFrom(text, i + |a| + 1, max, have + 1)
    ensures text[i + |a|] == ')' || have + 1 >= max ==> ArgsFrom(text, i, max, have) == [Trim(a)]
  {
    assert ArgTo(text, i, i + |a|);
    DelimIsEnd(text, i, i + |a|);
    HoldsIs(text, i, a);
    ArgsFirst(text, i, i + |a|, max, have);
  }

  ghost predicate IsArgument(text: string) {
    exists a :: Shaped(a, false) && PrintArgument(a) == text
  }

  /** Arguments a call can hold, none of them only white space. */
  ghost predicate Readable(args: seq<string>) {
    forall k | 0 <= k < |args| :: IsArgument(args[k]) && Trim(args[k]) != ""
  }

  /** Reading a printed argument list gives the arguments back, trimmed, as far as the limit goes. */
  lemma {:induction false} ReadsBack(args: seq<string>, text: string, i: nat, max: nat, have: nat)
    requires args != [] && Readable(args) && have < max && Holds(text, i, Print(args))
    ensures i <= |text|
    ensures ArgsFrom(text, i, max, have) == FirstTrimmed(args, max - have)
    decreases |args|
  {
    if |args| == 1 || have + 1 >= max {
    } else {
      PrintLayout(args, text, i);
      ReadsBack(args[1..], text, i + |args[0]| + 1, max, have + 1);
    }
    ReadsBackStep(args, text, i, max, have);
  }

  lemma ReadsBackStep(args: seq<string>, text: string, i: nat, max: nat, have: nat)
    requires args != [] && IsArgument(args[0]) && Trim(args[0]) != ""
    requires have < max && Holds(text, i, Print(args))
    requires var next := i + |args[0]| + 1;
             |args| > 1 && have + 1 < max ==>
               next <= |text| && ArgsFrom(text, next, max, have + 1) == FirstTrimmed(args[1..], max - have - 1)
    ensures i <= |text|
    ensures ArgsFrom(text, i, max, have) == FirstTrimmed(args, max - have)
  {
    PrintLayout(args, text, i);
    OneIsRead(args[0], text, i, max, have);
    TrimmedStep(args, max - have);
  }

  lemma ArgsFirst(s: string, i: nat, d: nat, max: nat, have: nat)
    requires i <= d < |s| && Delim(s, i, START) == Some(d) && Trim(s[i..d]) != ""
    ensures ArgsFrom(s, i, max, have) ==
            [Trim(s[i..d])] + if s[d] == ',' && have + 1 < max then ArgsFrom(s, d + 1, max, have + 1) else []
  {
  }
}
