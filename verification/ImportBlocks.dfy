/** Multi-line imports among the lines of a file, known by their kind alone, and the misplaced lines in them. */
module ImportBlocks {
  import opened Wrappers

  /** Opens a multi-line import, closes one, is a whole import, or none of these. */
  datatype Kind = Opening | Closing | Whole | Other

  type Kinds = seq<Kind>

  /** Line `i` stands within a multi-line import. */
  predicate Inside(kinds: Kinds, i: nat)
    requires i <= |kinds|
  {
    i > 0 && Goes(Inside(kinds, i - 1), kinds[i - 1])
  }

  /** After a line of this kind we are within a multi-line import. */
  predicate Goes(inside: bool, kind: Kind) {
    if inside then kind != Closing else kind == Opening
  }

  /** Some line from `i` up to `j` ends a multi-line import. */
  predicate ClosesWithin(kinds: Kinds, i: nat, j: nat)
    requires i <= j <= |kinds|
  {
    exists k | i <= k < j :: kinds[k] == Closing
  }

  /** A whole import within a multi-line import. */
  predicate Strays(kinds: Kinds, i: nat)
    requires i < |kinds|
  {
    Inside(kinds, i) && kinds[i] == Whole
  }

  /** A stray import whose surrounding import is closed later. */
  predicate Misplaced(kinds: Kinds, i: nat)
    requires i < |kinds|
  {
    Strays(kinds, i) && ClosesWithin(kinds, i, |kinds|)
  }

  /** How many of the first `n` lines are misplaced. */
  function Count(kinds: Kinds, n: nat): (c: nat)
    requires n <= |kinds|
    ensures c <= n
  {
    if n == 0 then 0 else Count(kinds, n - 1) + if Misplaced(kinds, n - 1) then 1 else 0
  }

  // ---------- the scan ----------

  /** The line to move and the end of the import it stands in. */
  datatype Fault = Fault(bad: nat, end: nat)

  function Locate(kinds: Kinds, i: nat, inside: bool, bad: Option<nat>): Option<Fault>
    requires i <= |kinds|
    decreases |kinds| - i
  {
    if i == |kinds| then None
    else
      var b := if inside && kinds[i] == Whole then Some(i) else bad;
      if inside && kinds[i] == Closing && b.Some? then Some(Fault(b.value, i))
      else Locate(kinds, i + 1, Goes(inside, kinds[i]), if !inside && kinds[i] == Opening then None else b)
  }

  /** `at` is the last misplaced line of the first multi-line import that has one, and where that ends. */
  ghost predicate IsFault(kinds: Kinds, at: Fault) {
    && at.bad < at.end < |kinds|
    && Strays(kinds, at.bad) && kinds[at.end] == Closing && !ClosesWithin(kinds, at.bad, at.end)
    && (forall j | at.bad < j < at.end :: !Strays(kinds, j))
    && forall j | 0 <= j < at.bad && Strays(kinds, j) :: !ClosesWithin(kinds, j, at.end)
  }

  /** What the scan knows before line `i`. */
  ghost predicate Scanned(kinds: Kinds, i: nat, inside: bool, bad: Option<nat>) {
    && i <= |kinds| && inside == Inside(kinds, i)
    && (!inside ==> bad.None?)
    && (bad.Some? ==> bad.value < i && Strays(kinds, bad.value))
    && forall j | 0 <= j < i && Strays(kinds, j) ::
         bad.Some? && j <= bad.value && !ClosesWithin(kinds, j, i)
  }

  lemma ScannedStep(kinds: Kinds, i: nat, inside: bool, bad: Option<nat>)
    requires i < |kinds| && Scanned(kinds, i, inside, bad)
    requires inside && kinds[i] == Closing ==> bad.None?
    ensures var b := if inside && kinds[i] == Whole then Some(i) else bad;
            Scanned(kinds, i + 1, Goes(inside, kinds[i]), b)
  {
    forall j | 0 <= j < i && Strays(kinds, j)
      ensures kinds[i] != Closing ==> !ClosesWithin(kinds, j, i + 1)
    {
      assert !ClosesWithin(kinds, j, i);
    }
  }

  /** The scan finds a fault exactly when there is a misplaced line. */
  lemma {:induction false} LocateFinds(kinds: Kinds, i: nat, inside: bool, bad: Option<nat>)
    requires Scanned(kinds, i, inside, bad)
    ensures var found := Locate(kinds, i, inside, bad);
            if found.Some? then IsFault(kinds, found.value)
            else forall j | 0 <= j < |kinds| :: !Misplaced(kinds, j)
    decreases |kinds| - i
  {
    if i == |kinds| || (inside && kinds[i] == Closing && bad.Some?) {
    } else {
      ScannedStep(kinds, i, inside, bad);
      LocateFinds(kinds, i + 1, Goes(inside, kinds[i]), if inside && kinds[i] == Whole then Some(i) else bad);
    }
  }

  function Start(kinds: Kinds): (found: Option<Fault>)
    ensures found.Some? ==> IsFault(kinds, found.value)
    ensures found.None? ==> forall j | 0 <= j < |kinds| :: !Misplaced(kinds, j)
  {
    LocateFinds(kinds, 0, false, None);
    Locate(kinds, 0, false, None)
  }

  /** Everything once the bad line is taken out and `x` put in behind the end. */
  function Moved<T>(s: seq<T>, at: Fault, x: T): seq<T>
    requires at.bad < at.end < |s|
  {
    s[..at.bad] + s[at.bad + 1..at.end + 1] + [x] + s[at.end + 1..]
  }

  /** Where a line after the move was before it. */
  function Origin(at: Fault, i: nat): nat {
    if i < at.bad then i else if i < at.end then i + 1 else if i == at.end then at.bad else i
  }

  lemma MovedAt<T>(s: seq<T>, at: Fault, x: T)
    requires at.bad < at.end < |s|
    ensures |Moved(s, at, x)| == |s|
    ensures forall i | 0 <= i < |s| :: Moved(s, at, x)[i] == if i == at.end then x else s[Origin(at, i)]
  {
  }

  // ---------- what the move does to the count ----------

  lemma {:induction false} InsideAgrees(a: Kinds, b: Kinds, from: nat, i: nat)
    requires from <= i <= |a| && |a| == |b| && Inside(a, from) == Inside(b, from)
    requires forall k | from <= k < i :: a[k] == b[k]
    ensures Inside(a, i) == Inside(b, i)
    decreases i
  {
    if from == i {
    } else {
      InsideAgrees(a, b, from, i - 1);
    }
  }

  /** Until it is closed a multi-line import goes on. */
  lemma {:induction false} StaysInside(kinds: Kinds, i: nat, j: nat)
    requires i <= j <= |kinds| && Inside(kinds, i)
    requires forall k | i <= k < j :: kinds[k] != Closing
    ensures Inside(kinds, j)
    decreases j
  {
    if i == j {
    } else {
      StaysInside(kinds, i, j - 1);
    }
  }

  lemma MovedWithin(kinds: Kinds, at: Fault, i: nat)
    requires IsFault(kinds, at) && at.bad <= i < at.end
    ensures Inside(Moved(kinds, at, Whole), i) && Inside(kinds, i + 1)
  {
    var m := Moved(kinds, at, Whole);
    MovedAt(kinds, at, Whole);
    InsideAgrees(m, kinds, 0, at.bad);
    assert forall k | at.bad <= k < i :: m[k] == kinds[k + 1];
    StaysInside(m, at.bad, i);
    StaysInside(kinds, at.bad, i + 1);
  }

  lemma MovedBehind(kinds: Kinds, at: Fault, i: nat)
    requires IsFault(kinds, at) && at.end < i <= |kinds|
    ensures var m := Moved(kinds, at, Whole);
            |m| == |kinds| && !Inside(m, at.end) && Inside(m, i) == Inside(kinds, i)
  {
    var m := Moved(kinds, at, Whole);
    MovedAt(kinds, at, Whole);
    MovedWithin(kinds, at, at.end - 1);
    assert m[at.end - 1] == Closing && m[at.end] == Whole;
    assert !Inside(m, at.end);
    assert !Inside(m, at.end + 1) && !Inside(kinds, at.end + 1);
    InsideAgrees(m, kinds, at.end + 1, i);
  }

  /** The moved line is outside, and every other line is inside if it was. */
  lemma InsideMoved(kinds: Kinds, at: Fault, i: nat)
    requires IsFault(kinds, at) && i < |kinds|
    ensures |Moved(kinds, at, Whole)| == |kinds|
    ensures Inside(Moved(kinds, at, Whole), i) == (i != at.end && Inside(kinds, Origin(at, i)))
  {
    MovedAt(kinds, at, Whole);
    if i < at.bad {
      InsideAgrees(Moved(kinds, at, Whole), kinds, 0, i);
    } else if i < at.end {
      MovedWithin(kinds, at, i);
    } else {
      MovedBehind(kinds, at, if i == at.end then i + 1 else i);
    }
  }

  lemma ClosesMoved(kinds: Kinds, at: Fault, i: nat)
    requires IsFault(kinds, at) && i < |kinds| && i != at.end
    ensures |Moved(kinds, at, Whole)| == |kinds|
    ensures ClosesWithin(Moved(kinds, at, Whole), i, |kinds|) == ClosesWithin(kinds, Origin(at, i), |kinds|)
  {
    var m := Moved(kinds, at, Whole);
    MovedAt(kinds, at, Whole);
    if i < at.end {
      assert m[at.end - 1] == Closing == kinds[at.end];
    } else {
      assert forall k | i <= k < |kinds| :: m[k] == kinds[k];
    }
  }

  /** The moved line is no longer misplaced, and every other line is if it was. */
  lemma MisplacedMoved(kinds: Kinds, at: Fault, i: nat)
    requires IsFault(kinds, at) && i < |kinds|
    ensures |Moved(kinds, at, Whole)| == |kinds|
    ensures Misplaced(Moved(kinds, at, Whole), i) <==> i != at.end && Misplaced(kinds, Origin(at, i))
  {
    InsideMoved(kinds, at, i);
    MovedAt(kinds, at, Whole);
    if i != at.end {
      ClosesMoved(kinds, at, i);
    }
  }

  lemma {:induction false} CountMoved(kinds: Kinds, at: Fault, n: nat)
    requires IsFault(kinds, at) && n <= |kinds|
    ensures |Moved(kinds, at, Whole)| == |kinds|
    ensures Count(Moved(kinds, at, Whole), n) ==
            if n <= at.bad then Count(kinds, n)
            else if n <= at.end then Count(kinds, n + 1) - 1
            else Count(kinds, n) - 1
  {
    MovedAt(kinds, at, Whole);
    if n == 0 {
    } else {
      CountMoved(kinds, at, n - 1);
      MisplacedMoved(kinds, at, n - 1);
      assert Misplaced(kinds, at.bad);
    }
  }

  lemma {:induction false} NothingCounted(kinds: Kinds, n: nat)
    requires n <= |kinds| && forall j | 0 <= j < |kinds| :: !Misplaced(kinds, j)
    ensures Count(kinds, n) == 0
  {
    if n == 0 {
    } else {
      NothingCounted(kinds, n - 1);
    }
  }

  /** Moving the line leaves exactly one misplaced line less. */
  lemma OneLess(kinds: Kinds)
    ensures Start(kinds).Some? <==> Count(kinds, |kinds|) > 0
    ensures Start(kinds).Some? ==>
              var m := Moved(kinds, Start(kinds).value, Whole);
              |m| == |kinds| && Count(m, |m|) == Count(kinds, |kinds|) - 1
  {
    if Start(kinds).Some? {
      CountMoved(kinds, Start(kinds).value, |kinds|);
    } else {
      NothingCounted(kinds, |kinds|);
    }
  }
}
