/** Line numbers and the lines above a position, read off the text by moving an index. */
module LineScan {
  import opened Text
  import opened Sequences
  import opened Sorting
  import opened CommentStripper

  /** The line a position is on, counting from one: how many parts the text before it has. */
  function LineOf(src: string, offset: nat): nat {
    |Split(src[..Min(offset, |src|)], NEWLINE)|
  }

  /** The whole lines before the line of a position. */
  function LinesAbove(src: string, offset: nat): seq<string>
    requires offset <= |src|
  {
    var parts := Split(src[..offset], NEWLINE);
    parts[..|parts| - 1]
  }

  function Take<T>(s: seq<T>, n: nat): seq<T> {
    s[..Min(n, |s|)]
  }

  function NonBlank(): string -> bool {
    line => Trim(line) != ""
  }

  /** At most `n` of the non-blank lines, the last one first. */
  function LastNonBlank(lines: seq<string>, n: nat): seq<string> {
    Take(Reversed(Filter(lines, NonBlank())), n)
  }

  // ---------- splitting at the end ----------

  lemma SplitSnoc(s: string, c: char)
    ensures c == NEWLINE ==> Split(s + [c], NEWLINE) == Split(s, NEWLINE) + [""]
    ensures c != NEWLINE ==> |Split(s + [c], NEWLINE)| == |Split(s, NEWLINE)|
  {
    if c == NEWLINE {
      SplitAppend(s, "", NEWLINE);
      assert s + [NEWLINE] + "" == s + [c];
    } else {
      SplitGrow(s, c);
    }
  }

  lemma {:induction false} SplitGrow(s: string, c: char)
    requires c != NEWLINE
    ensures |Split(s + [c], NEWLINE)| == |Split(s, NEWLINE)|
  {
    if s != [] {
      SplitGrow(s[1..], c);
      assert (s + [c])[1..] == s[1..] + [c];
    } else {
      assert (s + [c])[1..] == [];
    }
  }

  method LineNumberAt(src: string, offset: nat) returns (line: nat)
    ensures line == LineOf(src, offset)
  {
    line := 1;
    var i := 0;
    while i < offset && i < |src|
      invariant i <= Min(offset, |src|) && line == |Split(src[..i], NEWLINE)|
    {
      assert src[..i + 1] == src[..i] + [src[i]];
      SplitSnoc(src[..i], src[i]);
      if src[i] == NEWLINE {
        line := line + 1;
      }
      i := i + 1;
    }
  }

  /** The lines of the text before `begin`, where `begin` starts a line. */
  function LinesBefore(src: string, begin: nat): seq<string>
    requires begin <= |src|
  {
    if begin == 0 then [] else Split(src[..begin - 1], NEWLINE)
  }

  /** The last line of the text before `end`, if it starts at `begin`. */
  lemma LastLine(src: string, begin: nat, end: nat)
    requires begin <= end <= |src| && Free(src[begin..end], NEWLINE) && (begin > 0 ==> src[begin - 1] == NEWLINE)
    ensures Split(src[..end], NEWLINE) == LinesBefore(src, begin) + [src[begin..end]]
  {
    SplitFree(src[begin..end], NEWLINE);
    if begin == 0 {
      assert src[0..end] == src[..end];
    } else {
      SplitAppend(src[..begin - 1], src[begin..end], NEWLINE);
      assert src[..end] == src[..begin - 1] + [NEWLINE] + src[begin..end];
    }
  }

  lemma LastNonBlankSnoc(lines: seq<string>, line: string, n: nat)
    requires n > 0
    ensures LastNonBlank(lines + [line], n) ==
            if NonBlank()(line) then [line] + LastNonBlank(lines, n - 1) else LastNonBlank(lines, n)
  {
    FilterAppend(lines, [line], NonBlank());
    ReversedAppend(Filter(lines, NonBlank()), Filter([line], NonBlank()));
    if NonBlank()(line) {
      assert Filter([line], NonBlank()) == [line];
      assert Reversed([line]) == [line];
    } else {
      assert Filter(lines, NonBlank()) + [] == Filter(lines, NonBlank());
    }
  }

  lemma {:induction false} ReversedAppend<T>(a: seq<T>, b: seq<T>)
    ensures Reversed(a + b) == Reversed(b) + Reversed(a)
  {
    if a == [] {
      assert a + b == b;
    } else {
      assert (a + b)[1..] == a[1..] + b;
      ReversedAppend(a[1..], b);
    }
  }

  /** The start of the line that ends at `end`. */
  method StartOfLine(src: string, end: nat) returns (begin: nat)
    requires end <= |src|
    ensures begin <= end && Free(src[begin..end], NEWLINE) && (begin > 0 ==> src[begin - 1] == NEWLINE)
  {
    begin := end;
    while begin > 0 && src[begin - 1] != NEWLINE
      invariant begin <= end && Free(src[begin..end], NEWLINE)
    {
      begin := begin - 1;
      assert src[begin..end] == [src[begin]] + src[begin + 1..end];
    }
  }

  /** Up to `maxLines` non-blank lines above the line of `offset`, the closest first. */
  method PreviousNonBlankLines(src: string, offset: nat, maxLines: nat) returns (out: seq<string>)
    requires offset <= |src|
    ensures out == LastNonBlank(LinesAbove(src, offset), maxLines)
  {
    var begin: nat := StartOfLine(src, offset);
    LastLine(src, begin, offset);
    out := [];
    ghost var goal := LastNonBlank(LinesBefore(src, begin), maxLines);
    while begin > 0 && |out| < maxLines
      invariant 0 <= begin <= |src| && |out| <= maxLines
      invariant out + LastNonBlank(LinesBefore(src, begin), maxLines - |out|) == goal
    {
      out, begin := PreviousLine(src, begin, out, maxLines);
    }
  }

  /** One step up: the line that ends before `begin` is added unless it is blank. */
  method PreviousLine(src: string, begin: nat, out: seq<string>, maxLines: nat)
    returns (now: seq<string>, above: nat)
    requires 0 < begin <= |src| && |out| < maxLines
    ensures above < begin && |now| <= maxLines
    ensures now + LastNonBlank(LinesBefore(src, above), maxLines - |now|) ==
            out + LastNonBlank(LinesBefore(src, begin), maxLines - |out|)
  {
    var end := begin - 1;
    above := StartOfLine(src, end);
    var text := src[above..end];
    LineStep(src, above, end, out, maxLines);
    now := if NonBlank()(text) then out + [text] else out;
  }

  lemma LineStep(src: string, begin: nat, end: nat, out: seq<string>, n: nat)
    requires begin <= end < |src| && Free(src[begin..end], NEWLINE) && (begin > 0 ==> src[begin - 1] == NEWLINE)
    requires |out| < n
    ensures var now := if NonBlank()(src[begin..end]) then out + [src[begin..end]] else out;
            now + LastNonBlank(LinesBefore(src, begin), n - |now|) ==
            out + LastNonBlank(LinesBefore(src, end + 1), n - |out|)
  {
    LineBefore(src, begin, end);
    AddLine(LinesBefore(src, begin), src[begin..end], out, n);
  }

  lemma LineBefore(src: string, begin: nat, end: nat)
    requires begin <= end < |src| && Free(src[begin..end], NEWLINE) && (begin > 0 ==> src[begin - 1] == NEWLINE)
    ensures LinesBefore(src, end + 1) == LinesBefore(src, begin) + [src[begin..end]]
  {
    LastLine(src, begin, end);
  }

  lemma AddLine(lines: seq<string>, text: string, out: seq<string>, n: nat)
    requires |out| < n
    ensures var now := if NonBlank()(text) then out + [text] else out;
            now + LastNonBlank(lines, n - |now|) == out + LastNonBlank(lines + [text], n - |out|)
  {
    LastNonBlankSnoc(lines, text, n - |out|);
    if NonBlank()(text) {
      var rest := LastNonBlank(lines, n - |out| - 1);
      assert (out + [text]) + rest == out + ([text] + rest);
    }
  }

  // ---------- stripped and raw text ----------

  lemma {:induction false} BlankedSameLines(raw: string, out: string)
    requires Blanked(raw, out)
    ensures |Split(out, NEWLINE)| == |Split(raw, NEWLINE)|
  {
    if raw == [] {
    } else {
      BlankedSameLines(raw[1..], out[1..]);
    }
  }

  /** A position is on the same line of a source and of the source without its comments. */
  lemma StrippedLineIsRawLine(raw: string, offset: nat)
    ensures LineOf(Strip(raw), offset) == LineOf(raw, offset)
  {
    StripBlanks(raw);
    var n := Min(offset, |raw|);
    BlankedSameLines(raw[..n], Strip(raw)[..n]);
  }
}
