/** Moving an import out of the multi-line import it was put into by mistake. */
module ImportRepair {
  import opened ImportBlocks
  import opened Text
  import opened Wrappers

  // ---------- kinds of lines ----------

  /** The first place from `i` on where one of `stops` stands, or the end. */
  function Find(s: string, i: nat, stops: string): (j: nat)
    requires i <= |s|
    ensures i <= j <= |s| && (j < |s| ==> s[j] in stops)
    decreases |s| - i
  {
    if i < |s| && s[i] !in stops then Find(s, i + 1, stops) else i
  }

  /** The rest of the line names a module: `from "x"`, perhaps with a semicolon. */
  predicate FromAt(s: string, i: nat)
    requires i <= |s|
  {
    var f := SkipSpace(s, i);
    Occurs(s, f, "from") &&
    var q := SkipSpace(s, f + 4);
    q < |s| && IsStraightQuote(s[q]) &&
    var e := Find(s, q + 1, "'\"");
    q + 1 < e < |s| && (e + 1 == |s| || (e + 2 == |s| && s[e + 1] == ';'))
  }

  /** `import {`, and nothing else. */
  predicate IsOpening(line: string) {
    var s := Trim(line);
    Occurs(s, 0, "import") &&
    var b := SkipSpace(s, 6);
    b + 1 == |s| && s[b] == '{'
  }

  /** `} from "x"`. */
  predicate IsClosing(line: string) {
    var s := Trim(line);
    s != "" && s[0] == '}' && FromAt(s, 1)
  }

  /** `import { x } from "y"`. */
  predicate IsOneLineImport(line: string) {
    var s := Trim(line);
    Occurs(s, 0, "import") &&
    var b := SkipSpace(s, 6);
    b < |s| && s[b] == '{' &&
    var c := Find(s, b + 1, "}");
    b + 1 < c < |s| && FromAt(s, c + 1)
  }

  lemma KindsAreDisjoint(line: string)
    ensures !(IsOpening(line) && IsClosing(line))
    ensures !(IsOpening(line) && IsOneLineImport(line))
    ensures !(IsClosing(line) && IsOneLineImport(line))
  {
    var s := Trim(line);
    if Occurs(s, 0, "import") {
      assert s[0..6][0] == 'i';
    }
  }

  lemma TrimKeepsKind(line: string)
    ensures IsOpening(Trim(line)) <==> IsOpening(line)
    ensures IsClosing(Trim(line)) <==> IsClosing(line)
    ensures IsOneLineImport(Trim(line)) <==> IsOneLineImport(line)
  {
    TrimIsTrimmed(line);
  }

  function KindOf(line: string): Kind {
    if IsOpening(line) then Opening
    else if IsClosing(line) then Closing
    else if IsOneLineImport(line) then Whole
    else Other
  }

  /** The kind of a line answers all three tests, and white space at its ends does not change it. */
  lemma KindIsRight(line: string)
    ensures KindOf(line) == Opening <==> IsOpening(line)
    ensures KindOf(line) == Closing <==> IsClosing(line)
    ensures KindOf(line) == Whole <==> IsOneLineImport(line)
    ensures KindOf(Trim(line)) == KindOf(line)
  {
    KindsAreDisjoint(line);
    TrimKeepsKind(line);
  }

  function KindsOf(lines: seq<string>): (kinds: Kinds)
    ensures |kinds| == |lines|
  {
    if lines == [] then [] else [KindOf(lines[0])] + KindsOf(lines[1..])
  }

  lemma {:induction false} KindsAt(lines: seq<string>, i: nat)
    requires i < |lines|
    ensures KindsOf(lines)[i] == KindOf(lines[i])
  {
    if i == 0 {
    } else {
      KindsAt(lines[1..], i - 1);
    }
  }

  /** The line to move, and behind which line. */
  function FaultIn(lines: seq<string>): (found: Option<Fault>)
    ensures found.Some? ==> found.value.bad < found.value.end < |lines|
    ensures found.Some? ==> IsFault(KindsOf(lines), found.value)
  {
    Start(KindsOf(lines))
  }

  /** The lines after one run. */
  function Repair(lines: seq<string>): seq<string> {
    var found := FaultIn(lines);
    if found.None? then lines else Moved(lines, found.value, Trim(lines[found.value.bad]))
  }

  /** How many lines stand within a multi-line import that they do not belong to. */
  function MisplacedLines(lines: seq<string>): nat {
    Count(KindsOf(lines), |lines|)
  }

  // ---------- the program ----------

  method FindFault(lines: seq<string>) returns (badIdx: int, importEndIdx: int)
    ensures badIdx == -1 || importEndIdx == -1 <==> FaultIn(lines).None?
    ensures badIdx != -1 && importEndIdx != -1 ==>
              badIdx >= 0 && importEndIdx >= 0 && FaultIn(lines) == Some(Fault(badIdx, importEndIdx))
  {
    ghost var kinds := KindsOf(lines);
    ghost var goal := Locate(kinds, 0, false, None);
    var inMultiLineImport := false;
    badIdx, importEndIdx := -1, -1;
    var i := 0;
    while i < |lines|
      invariant 0 <= i <= |lines| && -1 <= badIdx
      invariant inMultiLineImport ==> importEndIdx == -1
      invariant !inMultiLineImport ==> badIdx == -1
      invariant goal == Locate(kinds, i, inMultiLineImport, Index(badIdx))
    {
      var line := lines[i];
      KindIsRight(line);
      KindsAt(lines, i);
      if inMultiLineImport {
        if IsOneLineImport(line) {
          badIdx := i;
        }
        if IsClosing(line) {
          importEndIdx := i;
          inMultiLineImport := false;
          if badIdx != -1 {
            return;
          }
        }
      } else if IsOpening(line) {
        inMultiLineImport := true;
        badIdx, importEndIdx := -1, -1;
      }
      i := i + 1;
    }
  }

  /** An index as the scan keeps it, with -1 for none. */
  function Index(i: int): Option<nat>
    requires i >= -1
  {
    if i == -1 then None else Some(i)
  }

  /** One run over a file: its new text, and whether it was changed. */
  method RepairFile(text: string) returns (repaired: string, changed: bool)
    ensures changed <==> FaultIn(Split(text, NEWLINE)).Some?
    ensures !changed ==> repaired == text
    ensures Split(repaired, NEWLINE) == Repair(Split(text, NEWLINE))
  {
    var lines := Split(text, NEWLINE);
    var badIdx, importEndIdx := FindFault(lines);
    if badIdx == -1 || importEndIdx == -1 {
      return text, false;
    }
    ghost var was := lines;
    var removed := lines[badIdx];
    lines := lines[..badIdx] + lines[badIdx + 1..];
    lines := lines[..importEndIdx] + [Trim(removed)] + lines[importEndIdx..];
    SplicesMove(was, Fault(badIdx, importEndIdx));
    RepairKeepsLines(text);
    SplitJoin(lines, NEWLINE);
    repaired, changed := Join(lines, NEWLINE), true;
  }

  /** Taking the line out and putting it in again, as two splices. */
  lemma SplicesMove(lines: seq<string>, at: Fault)
    requires at.bad < at.end < |lines|
    ensures var less := lines[..at.bad] + lines[at.bad + 1..];
            less[..at.end] + [Trim(lines[at.bad])] + less[at.end..] == Moved(lines, at, Trim(lines[at.bad]))
  {
    var less := lines[..at.bad] + lines[at.bad + 1..];
    assert less[..at.end] == lines[..at.bad] + lines[at.bad + 1..at.end + 1];
    assert less[at.end..] == lines[at.end + 1..];
  }

  lemma RepairKeepsLines(text: string)
    ensures Repair(Split(text, NEWLINE)) != [] && AllFree(Repair(Split(text, NEWLINE)), NEWLINE)
  {
    var lines := Split(text, NEWLINE);
    JoinSplit(text, NEWLINE);
    var found := FaultIn(lines);
    if found.Some? {
      TrimFree(lines[found.value.bad], NEWLINE);
      MovedFree(lines, found.value, Trim(lines[found.value.bad]));
    }
  }

  lemma TrimFree(s: string, c: char)
    requires Free(s, c)
    ensures Free(Trim(s), c)
  {
    TrimLeftStart(s);
    TrimRightEnd(TrimLeft(s));
    assert forall d <- TrimLeft(s) :: d in s;
  }

  lemma MovedFree(lines: seq<string>, at: Fault, line: string)
    requires AllFree(lines, NEWLINE) && Free(line, NEWLINE) && at.bad < at.end < |lines|
    ensures AllFree(Moved(lines, at, line), NEWLINE)
  {
    var m := Moved(lines, at, line);
    MovedAt(lines, at, line);
    forall part | part in m
      ensures Free(part, NEWLINE)
    {
      var i :| 0 <= i < |m| && m[i] == part;
      assert i != at.end ==> part == lines[Origin(at, i)];
    }
  }

  // ---------- what a run does ----------

  /** The moved line ends up, trimmed, right behind the end of the import it stood in, and all other
      lines keep their text and order. */
  lemma MovesOneLine(lines: seq<string>)
    requires FaultIn(lines).Some?
    ensures var at, after := FaultIn(lines).value, Repair(lines);
            && IsOneLineImport(lines[at.bad]) && IsClosing(lines[at.end])
            && |after| == |lines|
            && after[at.end] == Trim(lines[at.bad]) && after[at.end - 1] == lines[at.end]
            && after[..at.end] + after[at.end + 1..] == lines[..at.bad] + lines[at.bad + 1..]
  {
    var at := FaultIn(lines).value;
    var line := Trim(lines[at.bad]);
    KindIsRight(lines[at.bad]);
    KindIsRight(lines[at.end]);
    KindsAt(lines, at.bad);
    KindsAt(lines, at.end);
    MovedAt(lines, at, line);
    MovedParts(lines, at, line);
  }

  lemma MovedParts(lines: seq<string>, at: Fault, line: string)
    requires at.bad < at.end < |lines|
    ensures var m := Moved(lines, at, line);
            m[..at.end] + m[at.end + 1..] == lines[..at.bad] + lines[at.bad + 1..]
  {
    var m := Moved(lines, at, line);
    assert m[..at.end] == lines[..at.bad] + lines[at.bad + 1..at.end + 1];
    assert m[at.end + 1..] == lines[at.end + 1..];
  }

  function Trims(lines: seq<string>): multiset<string> {
    if lines == [] then multiset{} else multiset{Trim(lines[0])} + Trims(lines[1..])
  }

  lemma {:induction false} TrimsAppend(a: seq<string>, b: seq<string>)
    ensures Trims(a + b) == Trims(a) + Trims(b)
  {
    if a == [] {
      assert a + b == b;
    } else {
      assert (a + b)[1..] == a[1..] + b;
      TrimsAppend(a[1..], b);
    }
  }

  /** Up to white space at the ends of lines nothing is lost or added. */
  lemma RepairKeepsText(lines: seq<string>)
    ensures Trims(Repair(lines)) == Trims(lines)
  {
    var found := FaultIn(lines);
    if found.Some? {
      MovedTrims(lines, found.value);
    }
  }

  lemma MovedTrims(lines: seq<string>, at: Fault)
    requires at.bad < at.end < |lines|
    ensures Trims(Moved(lines, at, Trim(lines[at.bad]))) == Trims(lines)
  {
    var a, m, z := lines[..at.bad], lines[at.bad + 1..at.end + 1], lines[at.end + 1..];
    var line := lines[at.bad];
    FourParts(lines, at, Trim(line));
    TrimsOfFour(a, [line], m, z);
    TrimsOfFour(a, m, [Trim(line)], z);
    TrimsOfOne(line);
  }

  lemma FourParts(lines: seq<string>, at: Fault, moved: string)
    requires at.bad < at.end < |lines|
    ensures var a, m, z := lines[..at.bad], lines[at.bad + 1..at.end + 1], lines[at.end + 1..];
            && lines == a + ([lines[at.bad]] + (m + z))
            && Moved(lines, at, moved) == a + (m + ([moved] + z))
  {
  }

  lemma TrimsOfOne(line: string)
    ensures Trims([Trim(line)]) == Trims([line])
  {
    TrimIsTrimmed(line);
  }

  lemma TrimsOfFour(a: seq<string>, b: seq<string>, c: seq<string>, d: seq<string>)
    ensures Trims(a + (b + (c + d))) == Trims(a) + Trims(b) + Trims(c) + Trims(d)
  {
    TrimsAppend(a, b + (c + d));
    TrimsAppend(b, c + d);
    TrimsAppend(c, d);
  }

  // ---------- how often it has to be run ----------

  lemma KindsMoved(lines: seq<string>, at: Fault)
    requires at.bad < at.end < |lines|
    ensures KindsOf(Moved(lines, at, Trim(lines[at.bad]))) == Moved(KindsOf(lines), at, KindOf(lines[at.bad]))
  {
    var line := lines[at.bad];
    var after, kinds := Moved(lines, at, Trim(line)), Moved(KindsOf(lines), at, KindOf(line));
    MovedAt(lines, at, Trim(line));
    MovedAt(KindsOf(lines), at, KindOf(line));
    KindIsRight(line);
    forall i | 0 <= i < |lines|
      ensures KindsOf(after)[i] == kinds[i]
    {
      KindsAt(after, i);
      if i != at.end {
        KindsAt(lines, Origin(at, i));
      }
    }
  }

  /** A run that changes something leaves exactly one misplaced line less. */
  lemma RepairMovesOne(lines: seq<string>)
    ensures FaultIn(lines).Some? <==> MisplacedLines(lines) > 0
    ensures MisplacedLines(Repair(lines)) == if FaultIn(lines).Some? then MisplacedLines(lines) - 1 else 0
    ensures FaultIn(lines).None? ==> Repair(lines) == lines
  {
    OneLess(KindsOf(lines));
    if FaultIn(lines).Some? {
      KindsAt(lines, FaultIn(lines).value.bad);
      KindsMoved(lines, FaultIn(lines).value);
    }
  }

  /** The lines after `n` runs. */
  function Runs(lines: seq<string>, n: nat): seq<string> {
    if n == 0 then lines else Repair(Runs(lines, n - 1))
  }

  lemma {:induction false} RunsCount(lines: seq<string>, n: nat)
    ensures MisplacedLines(Runs(lines, n)) == if n <= MisplacedLines(lines) then MisplacedLines(lines) - n else 0
  {
    if n == 0 {
    } else {
      RunsCount(lines, n - 1);
      RunsDrop(lines, n, MisplacedLines(Runs(lines, n - 1)), MisplacedLines(lines));
    }
  }

  lemma RunsOnce(lines: seq<string>, n: nat)
    requires n > 0
    ensures Runs(lines, n) == Repair(Runs(lines, n - 1))
  {
  }

  lemma RunsDrop(lines: seq<string>, n: nat, before: nat, all: nat)
    requires n > 0 && before == MisplacedLines(Runs(lines, n - 1)) == if n - 1 <= all then all - (n - 1) else 0
    ensures MisplacedLines(Runs(lines, n)) == if n <= all then all - n else 0
  {
    RunsOnce(lines, n);
    RepairMovesOne(Runs(lines, n - 1));
  }

  lemma {:induction false} RunsText(lines: seq<string>, n: nat)
    ensures Trims(Runs(lines, n)) == Trims(lines)
  {
    if n == 0 {
    } else {
      var before := Runs(lines, n - 1);
      RunsText(lines, n - 1);
      RepairKeepsText(before);
      RunsOnce(lines, n);
    }
  }

  /** As many runs as there are misplaced lines, and no fewer, repair a file for good; every line is
      still there, up to white space at its ends. */
  lemma RunsSettle(lines: seq<string>, n: nat)
    ensures n < MisplacedLines(lines) <==> Runs(lines, n + 1) != Runs(lines, n)
    ensures n >= MisplacedLines(lines) <==> FaultIn(Runs(lines, n)).None?
    ensures Trims(Runs(lines, n)) == Trims(lines)
  {
    RunsCount(lines, n);
    RunsCount(lines, n + 1);
    RunsText(lines, n);
    RepairMovesOne(Runs(lines, n));
  }
}
