/** Strings as the scripts see them: white space, trimming, splitting on a separator and joining. */
module Text {

  const NEWLINE: char := '\n'

  /** The characters matched by `\s` and removed by `trim`. */
  predicate IsSpace(c: char) {
    || c == ' ' || c == '\t' || c == '\n' || c == '\r' || c == '\U{000B}' || c == '\U{000C}'
    || c == '\U{00A0}' || c == '\U{1680}' || '\U{2000}' <= c <= '\U{200A}' || c == '\U{2028}'
    || c == '\U{2029}' || c == '\U{202F}' || c == '\U{205F}' || c == '\U{3000}' || c == '\U{FEFF}'
  }

  predicate IsStraightQuote(c: char) {
    c == '\'' || c == '"'
  }

  function Min(a: nat, b: nat): nat {
    if a <= b then a else b
  }

  function TrimLeft(s: string): string {
    if s != [] && IsSpace(s[0]) then TrimLeft(s[1..]) else s
  }

  function TrimRight(s: string): string {
    if s != [] && IsSpace(s[|s| - 1]) then TrimRight(s[..|s| - 1]) else s
  }

  function Trim(s: string): string {
    TrimRight(TrimLeft(s))
  }

  /** No white space at either end. */
  predicate Trimmed(s: string) {
    s != [] ==> !IsSpace(s[0]) && !IsSpace(s[|s| - 1])
  }

  /** The parts of `s` between separators; there is always at least one. */
  function Split(s: string, sep: char): (parts: seq<string>)
    ensures parts != []
  {
    if s == [] then [[]]
    else
      var rest := Split(s[1..], sep);
      if s[0] == sep then [[]] + rest else [[s[0]] + rest[0]] + rest[1..]
  }

  function Join(parts: seq<string>, sep: char): string
    requires parts != []
  {
    if |parts| == 1 then parts[0] else parts[0] + [sep] + Join(parts[1..], sep)
  }

  predicate Free(s: string, sep: char) {
    sep !in s
  }

  ghost predicate AllFree(parts: seq<string>, sep: char) {
    forall part <- parts :: Free(part, sep)
  }

  predicate EndsWith(s: string, tail: string) {
    |tail| <= |s| && s[|s| - |tail|..] == tail
  }

  predicate Includes(s: string, part: string) {
    exists i: nat | i <= |s| :: Occurs(s, i, part)
  }

  /** `s` has `part` at `i`. */
  predicate Occurs(s: string, i: nat, part: string) {
    i + |part| <= |s| && s[i..i + |part|] == part
  }

  /** The same character by character, for proofs along `part`. */
  ghost predicate Holds(s: string, i: nat, part: string): (holds: bool)
    ensures holds ==> i + |part| <= |s|
    decreases |part|
  {
    if part == "" then i <= |s| else i < |s| && s[i] == part[0] && Holds(s, i + 1, part[1..])
  }

  lemma {:induction false} HoldsIs(s: string, i: nat, part: string)
    ensures Holds(s, i, part) <==> Occurs(s, i, part)
    decreases |part|
  {
    if part == "" {
    } else {
      HoldsIs(s, i + 1, part[1..]);
      assert part == [part[0]] + part[1..];
      if i + |part| <= |s| {
        assert s[i..i + |part|] == [s[i]] + s[i + 1..i + |part|];
      }
    }
  }

  lemma HoldsAt(s: string, i: nat, part: string, k: nat)
    requires Holds(s, i, part) && k < |part|
    ensures s[i + k] == part[k]
  {
    HoldsIs(s, i, part);
    assert s[i..i + |part|][k] == s[i + k];
  }

  lemma HoldsWhole(s: string)
    ensures Holds(s, 0, s)
  {
    HoldsIs(s, 0, s);
  }

  lemma HoldsParts(s: string, i: nat, a: string, b: string)
    requires Holds(s, i, a + b)
    ensures Holds(s, i, a) && Holds(s, i + |a|, b)
  {
    HoldsIs(s, i, a + b);
    HoldsIs(s, i, a);
    HoldsIs(s, i + |a|, b);
    var t := s[i..i + |a + b|];
    assert s[i..i + |a|] == t[..|a|] && s[i + |a|..i + |a| + |b|] == t[|a|..];
  }

  lemma HoldsJoin(s: string, i: nat, a: string, b: string)
    requires Holds(s, i, a) && Holds(s, i + |a|, b)
    ensures Holds(s, i, a + b)
  {
    HoldsIs(s, i, a);
    HoldsIs(s, i + |a|, b);
    HoldsIs(s, i, a + b);
    assert s[i..i + |a + b|] == s[i..i + |a|] + s[i + |a|..i + |a| + |b|];
  }

  // ---------- splitting and joining ----------

  lemma {:induction false} JoinSplit(s: string, sep: char)
    ensures AllFree(Split(s, sep), sep)
    ensures Join(Split(s, sep), sep) == s
  {
    if s == [] {
    } else {
      JoinSplit(s[1..], sep);
      var rest := Split(s[1..], sep);
      var parts := Split(s, sep);
      if s[0] == sep {
        assert parts[1..] == rest;
      } else {
        assert parts[1..] == rest[1..];
        assert Free(rest[0], sep) && s == [s[0]] + s[1..];
        forall part | part in parts
          ensures Free(part, sep)
        {
          if part != parts[0] {
            assert part in rest[1..];
          }
        }
      }
    }
  }

  lemma {:induction false} SplitFree(s: string, sep: char)
    requires Free(s, sep)
    ensures Split(s, sep) == [s]
  {
    if s == [] {
    } else {
      assert s == [s[0]] + s[1..];
      SplitFree(s[1..], sep);
    }
  }

  lemma {:induction false} SplitAppend(a: string, b: string, sep: char)
    ensures Split(a + [sep] + b, sep) == Split(a, sep) + Split(b, sep)
  {
    var s := a + [sep] + b;
    if a == [] {
      assert s[1..] == b;
    } else {
      var ra, rb := Split(a[1..], sep), Split(b, sep);
      assert s[1..] == a[1..] + [sep] + b;
      SplitAppend(a[1..], b, sep);
      assert s[0] == a[0];
      SplitHead(a[0], ra, rb);
    }
  }

  lemma SplitHead(c: char, ra: seq<string>, rb: seq<string>)
    requires ra != []
    ensures [[]] + (ra + rb) == ([[]] + ra) + rb
    ensures [[c] + (ra + rb)[0]] + (ra + rb)[1..] == ([[c] + ra[0]] + ra[1..]) + rb
  {
  }

  lemma {:induction false} SplitJoin(parts: seq<string>, sep: char)
    requires parts != [] && AllFree(parts, sep)
    ensures Split(Join(parts, sep), sep) == parts
  {
    SplitFree(parts[0], sep);
    if |parts| == 1 {
    } else {
      SplitJoin(parts[1..], sep);
      SplitAppend(parts[0], Join(parts[1..], sep), sep);
    }
  }

  lemma {:induction false} JoinAppend(a: seq<string>, b: seq<string>, sep: char)
    requires a != [] && b != []
    ensures Join(a + b, sep) == Join(a, sep) + [sep] + Join(b, sep)
  {
    assert (a + b)[0] == a[0] && (a + b)[1..] == a[1..] + b;
    if |a| == 1 {
    } else {
      JoinAppend(a[1..], b, sep);
    }
  }

  // ---------- trimming ----------

  lemma {:induction false} TrimLeftStart(s: string)
    ensures TrimLeft(s) != [] ==> !IsSpace(TrimLeft(s)[0])
    ensures |TrimLeft(s)| <= |s| && TrimLeft(s) == s[|s| - |TrimLeft(s)|..]
  {
    if s == [] || !IsSpace(s[0]) {
    } else {
      TrimLeftStart(s[1..]);
    }
  }

  lemma {:induction false} TrimRightEnd(s: string)
    ensures TrimRight(s) != [] ==> !IsSpace(TrimRight(s)[|TrimRight(s)| - 1])
    ensures TrimRight(s) <= s
  {
    if s == [] || !IsSpace(s[|s| - 1]) {
    } else {
      TrimRightEnd(s[..|s| - 1]);
    }
  }

  lemma TrimIsTrimmed(s: string)
    ensures Trimmed(Trim(s))
    ensures Trim(Trim(s)) == Trim(s)
  {
    TrimLeftStart(s);
    TrimRightEnd(TrimLeft(s));
    assert TrimLeft(Trim(s)) == Trim(s);
  }

  /** The first position from `i` on that is not white space. */
  function SkipSpace(s: string, i: nat): (j: nat)
    requires i <= |s|
    ensures i <= j <= |s| && (j < |s| ==> !IsSpace(s[j]))
    decreases |s| - i
  {
    if i < |s| && IsSpace(s[i]) then SkipSpace(s, i + 1) else i
  }

  lemma {:induction false} SkippedIsSpace(s: string, i: nat)
    requires i <= |s|
    ensures forall k | i <= k < SkipSpace(s, i) :: IsSpace(s[k])
    decreases |s| - i
  {
    if i >= |s| || !IsSpace(s[i]) {
    } else {
      SkippedIsSpace(s, i + 1);
    }
  }

  method SkipSpaces(s: string, start: nat) returns (i: nat)
    requires start <= |s|
    ensures i == SkipSpace(s, start)
  {
    i := start;
    while i < |s| && IsSpace(s[i])
      invariant start <= i <= |s| && SkipSpace(s, i) == SkipSpace(s, start)
    {
      i := i + 1;
    }
  }

  /** Leading white space does not matter to trimming. */
  lemma {:induction false} TrimSkips(s: string, k: nat)
    requires k <= |s| && forall j | 0 <= j < k :: IsSpace(s[j])
    ensures Trim(s) == Trim(s[k..])
  {
    if k > 0 {
      assert s[1..][k - 1..] == s[k..];
      TrimSkips(s[1..], k - 1);
    } else {
      assert s[0..] == s;
    }
  }
}
