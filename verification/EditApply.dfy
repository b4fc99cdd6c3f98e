/** Putting many insertions into a text, from the last offset to the first. */
module EditApply {
  import opened Sequences
  import opened Sorting

  datatype Edit = Edit(pos: nat, insert: string)

  /** The offsets lie in the text the edits were found in. */
  ghost predicate Fits(edits: seq<Edit>, text: string) {
    forall e <- edits :: e.pos <= |text|
  }

  /** The order of the sort: higher offsets first. */
  predicate HigherFirst(a: Edit, b: Edit) {
    a.pos >= b.pos
  }

  // ---------- what the edits ask for ----------

  /** All that is inserted at offset `k`: what was found last stands first. */
  function InsertedAt(edits: seq<Edit>, k: nat): string {
    if edits == [] then ""
    else InsertedAt(edits[1..], k) + if edits[0].pos == k then edits[0].insert else ""
  }

  /** The text from offset `k` on with every insertion at the offset it was found at. */
  function Woven(text: string, edits: seq<Edit>, k: nat): string
    requires k <= |text|
    decreases |text| - k
  {
    InsertedAt(edits, k) + if k == |text| then "" else [text[k]] + Woven(text, edits, k + 1)
  }

  /** What is left of `s`, the text from offset `k` on, without the insertions. */
  function Unwoven(s: string, edits: seq<Edit>, k: nat): string
    decreases |s|
  {
    var skip := |InsertedAt(edits, k)|;
    if |s| <= skip then "" else [s[skip]] + Unwoven(s[skip + 1..], edits, k + 1)
  }

  // ---------- the program ----------

  method ApplyEdits(text: string, edits: seq<Edit>) returns (updated: string)
    requires Fits(edits, text)
    ensures updated == Woven(text, edits, 0)
  {
    var sorted := Sort(edits, HigherFirst);
    HigherFirstSorts(edits, text);
    updated := text;
    WovenNothing(text, |text|);
    ghost var low: nat := |text|;
    var i := 0;
    while i < |sorted|
      invariant 0 <= i <= |sorted| && low <= |text|
      invariant forall j | i <= j < |sorted| :: sorted[j].pos <= low
      invariant forall e <- sorted[..i] :: e.pos >= low
      invariant updated == text[..low] + Woven(text, sorted[..i], low)
    {
      var e := sorted[i];
      NextInOrder(text, sorted, i, low);
      updated := updated[..e.pos] + e.insert + updated[e.pos..];
      low := e.pos;
      i := i + 1;
    }
    assert sorted[..i] == sorted;
    Lower(text, sorted, 0, low);
    SameWeave(text, sorted, edits);
  }

  /** One step of the loop. */
  lemma NextInOrder(text: string, sorted: seq<Edit>, i: nat, low: nat)
    requires i < |sorted| && sorted[i].pos <= low <= |text| && forall e <- sorted[..i] :: e.pos >= low
    ensures var e, updated := sorted[i], text[..low] + Woven(text, sorted[..i], low);
            && (forall d <- sorted[..i + 1] :: d.pos >= e.pos) && e.pos <= |updated|
            && updated[..e.pos] + e.insert + updated[e.pos..] == text[..e.pos] + Woven(text, sorted[..i + 1], e.pos)
  {
    OneMoreEdit(text, sorted[..i], sorted[i], low);
    assert sorted[..i + 1] == sorted[..i] + [sorted[i]];
  }

  lemma OneMoreEdit(text: string, done: seq<Edit>, e: Edit, low: nat)
    requires e.pos <= low <= |text| && forall d <- done :: d.pos >= low
    ensures var updated := text[..low] + Woven(text, done, low);
            e.pos <= |updated| &&
            updated[..e.pos] + e.insert + updated[e.pos..] == text[..e.pos] + Woven(text, done + [e], e.pos)
  {
    var a, b := text[..e.pos], Woven(text, done, e.pos);
    Lower(text, done, e.pos, low);
    NextEdit(text, done, e);
    assert (a + b)[..e.pos] == a && (a + b)[e.pos..] == b;
    FrontGrows(a, e.insert, b);
  }

  lemma HigherFirstSorts(edits: seq<Edit>, text: string)
    requires Fits(edits, text)
    ensures Sorted(Sort(edits, HigherFirst), HigherFirst) && Fits(Sort(edits, HigherFirst), text)
    ensures forall k :: InsertedAt(Sort(edits, HigherFirst), k) == InsertedAt(edits, k)
  {
    SortSorts(edits, HigherFirst);
    SameMembers(edits, HigherFirst);
    forall k
      ensures InsertedAt(Sort(edits, HigherFirst), k) == InsertedAt(edits, k)
    {
      SortStable(edits, HigherFirst, At(k));
      InsertedIsFiltered(Sort(edits, HigherFirst), k);
      InsertedIsFiltered(edits, k);
    }
  }

  function At(k: nat): Edit -> bool {
    (e: Edit) => e.pos == k
  }

  /** Only the edits at an offset count there. */
  lemma {:induction false} InsertedIsFiltered(edits: seq<Edit>, k: nat)
    ensures InsertedAt(edits, k) == InsertedAt(Filter(edits, At(k)), k)
  {
    if edits == [] {
    } else {
      InsertedIsFiltered(edits[1..], k);
      var rest := Filter(edits[1..], At(k));
      if edits[0].pos == k {
        assert ([edits[0]] + rest)[1..] == rest;
      }
    }
  }

  lemma {:induction false} NothingBelow(edits: seq<Edit>, k: nat)
    requires forall e <- edits :: e.pos != k
    ensures InsertedAt(edits, k) == ""
  {
    if edits == [] {
    } else {
      NothingBelow(edits[1..], k);
    }
  }

  lemma WovenNothing(text: string, k: nat)
    requires k <= |text|
    ensures text == text[..k] + Woven(text, [], k)
    decreases |text| - k
  {
    if k == |text| {
    } else {
      WovenNothing(text, k + 1);
      assert text[..k + 1] == text[..k] + [text[k]];
    }
  }

  /** Where nothing is inserted the text is just copied. */
  lemma {:induction false} Lower(text: string, edits: seq<Edit>, low: nat, high: nat)
    requires low <= high <= |text| && forall e <- edits :: e.pos >= high
    ensures text[..low] + Woven(text, edits, low) == text[..high] + Woven(text, edits, high)
    decreases high - low
  {
    if low == high {
    } else {
      Lower(text, edits, low + 1, high);
      NothingBelow(edits, low);
      OneFurther(text, low, Woven(text, edits, low + 1));
    }
  }

  lemma OneFurther(text: string, low: nat, rest: string)
    requires low < |text|
    ensures text[..low] + ("" + ([text[low]] + rest)) == text[..low + 1] + rest
  {
  }

  /** One more edit, at or before the offsets of all others, stands in front of them. */
  lemma NextEdit(text: string, edits: seq<Edit>, e: Edit)
    requires e.pos <= |text|
    ensures Woven(text, edits + [e], e.pos) == e.insert + Woven(text, edits, e.pos)
  {
    InsertedNext(edits, e);
    BehindNext(text, edits, e);
    FrontGrows(e.insert, InsertedAt(edits, e.pos), Behind(text, edits, e.pos));
  }

  lemma InsertedNext(edits: seq<Edit>, e: Edit)
    ensures InsertedAt(edits + [e], e.pos) == e.insert + InsertedAt(edits, e.pos)
  {
    InsertedAppend(edits, [e], e.pos);
  }

  lemma BehindNext(text: string, edits: seq<Edit>, e: Edit)
    requires e.pos <= |text|
    ensures Behind(text, edits + [e], e.pos) == Behind(text, edits, e.pos)
  {
    if e.pos < |text| {
      AbsentEdit(text, edits, e, e.pos + 1);
    }
  }

  /** What follows the insertions at offset `k`. */
  function Behind(text: string, edits: seq<Edit>, k: nat): (s: string)
    requires k <= |text|
    ensures Woven(text, edits, k) == InsertedAt(edits, k) + s
  {
    if k == |text| then "" else [text[k]] + Woven(text, edits, k + 1)
  }

  lemma FrontGrows(a: string, b: string, c: string)
    ensures (a + b) + c == a + (b + c)
  {
  }

  lemma {:induction false} AbsentEdit(text: string, edits: seq<Edit>, e: Edit, k: nat)
    requires e.pos < k <= |text|
    ensures Woven(text, edits + [e], k) == Woven(text, edits, k)
    decreases |text| - k
  {
    InsertedAbsent(edits, e, k);
    if k == |text| {
    } else {
      AbsentEdit(text, edits, e, k + 1);
      SameFurther(text, edits + [e], edits, k);
    }
  }

  lemma SameFurther(text: string, a: seq<Edit>, b: seq<Edit>, k: nat)
    requires k < |text| && InsertedAt(a, k) == InsertedAt(b, k) && Woven(text, a, k + 1) == Woven(text, b, k + 1)
    ensures Woven(text, a, k) == Woven(text, b, k)
  {
  }

  lemma InsertedAbsent(edits: seq<Edit>, e: Edit, k: nat)
    requires e.pos != k
    ensures InsertedAt(edits + [e], k) == InsertedAt(edits, k)
  {
    InsertedAppend(edits, [e], k);
  }

  lemma {:induction false} InsertedAppend(a: seq<Edit>, b: seq<Edit>, k: nat)
    ensures InsertedAt(a + b, k) == InsertedAt(b, k) + InsertedAt(a, k)
  {
    if a == [] {
      assert a + b == b;
    } else {
      assert (a + b)[1..] == a[1..] + b;
      InsertedAppend(a[1..], b, k);
    }
  }

  lemma {:induction false} SameWeaveFrom(text: string, a: seq<Edit>, b: seq<Edit>, k: nat)
    requires k <= |text| && forall j :: InsertedAt(a, j) == InsertedAt(b, j)
    ensures Woven(text, a, k) == Woven(text, b, k)
    decreases |text| - k
  {
    if k == |text| {
    } else {
      SameWeaveFrom(text, a, b, k + 1);
    }
  }

  lemma SameWeave(text: string, a: seq<Edit>, b: seq<Edit>)
    requires forall j :: InsertedAt(a, j) == InsertedAt(b, j)
    ensures Woven(text, a, 0) == Woven(text, b, 0)
  {
    SameWeaveFrom(text, a, b, 0);
  }

  // ---------- what the result is ----------

  /** Taking the insertions out again gives the text back. */
  lemma {:induction false} UnweaveWeave(text: string, edits: seq<Edit>, k: nat)
    requires k <= |text|
    ensures Unwoven(Woven(text, edits, k), edits, k) == text[k..]
    decreases |text| - k
  {
    var s, skip := Woven(text, edits, k), |InsertedAt(edits, k)|;
    if k == |text| {
    } else {
      UnweaveWeave(text, edits, k + 1);
      assert s[skip] == text[k] && s[skip + 1..] == Woven(text, edits, k + 1);
      assert text[k..] == [text[k]] + text[k + 1..];
    }
  }

  /** How much is inserted at offsets up to `k`. */
  function Added(edits: seq<Edit>, k: nat): nat {
    |InsertedAt(edits, k)| + if k == 0 then 0 else Added(edits, k - 1)
  }

  /** Every character of the text is still there, and right before it what was to be inserted there. */
  lemma InsertedInPlace(text: string, edits: seq<Edit>, k: nat)
    requires k <= |text|
    ensures var s, n := Woven(text, edits, 0), k + Added(edits, k);
            && |s| == |text| + Added(edits, |text|)
            && n <= |s| && s[n - |InsertedAt(edits, k)|..n] == InsertedAt(edits, k)
            && (k < |text| ==> n < |s| && s[n] == text[k])
  {
    WovenTail(text, edits, |text|);
    WovenTail(text, edits, k);
    var s, n, a := Woven(text, edits, 0), k + Added(edits, k), InsertedAt(edits, k);
    InTail(s, n - |a|, a, Behind(text, edits, k));
  }

  lemma InTail(s: string, m: nat, a: string, b: string)
    requires m <= |s| && s[m..] == a + b
    ensures m + |a| <= |s| && s[m..m + |a|] == a
    ensures b != "" ==> m + |a| < |s| && s[m + |a|] == b[0]
  {
    assert s[m..m + |a|] == s[m..][..|a|] == (a + b)[..|a|];
    if b != "" {
      assert s[m + |a|] == s[m..][|a|] == (a + b)[|a|];
    }
  }

  lemma {:induction false} WovenTail(text: string, edits: seq<Edit>, k: nat)
    requires k <= |text|
    ensures var s, n := Woven(text, edits, 0), k + Added(edits, k) - |InsertedAt(edits, k)|;
            0 <= n <= |s| && s[n..] == Woven(text, edits, k)
  {
    if k == 0 {
    } else {
      WovenTail(text, edits, k - 1);
      var s, n := Woven(text, edits, 0), k - 1 + Added(edits, k - 1) - |InsertedAt(edits, k - 1)|;
      var a, rest := InsertedAt(edits, k - 1), Woven(text, edits, k);
      TailStep(s, n, a, text[k - 1], rest);
    }
  }

  lemma TailStep(s: string, n: nat, a: string, c: char, rest: string)
    requires n <= |s| && s[n..] == a + ([c] + rest)
    ensures n + |a| + 1 <= |s| && s[n + |a| + 1..] == rest
  {
    assert s[n + |a| + 1..] == s[n..][|a| + 1..];
  }

  /** The insertions of these edits, one after the other. */
  function Inserts(edits: seq<Edit>): string {
    if edits == [] then "" else edits[0].insert + Inserts(edits[1..])
  }

  lemma {:induction false} InsertsNext(edits: seq<Edit>, e: Edit)
    ensures Inserts(edits + [e]) == Inserts(edits) + e.insert
  {
    if edits == [] {
      assert [e][1..] == [];
    } else {
      assert (edits + [e])[1..] == edits[1..] + [e];
      InsertsNext(edits[1..], e);
    }
  }

  lemma {:induction false} InsertedReversed(edits: seq<Edit>, k: nat)
    requires forall e <- edits :: e.pos == k
    ensures InsertedAt(edits, k) == Inserts(Reversed(edits))
  {
    if edits == [] {
    } else {
      InsertedReversed(edits[1..], k);
      InsertsNext(Reversed(edits[1..]), edits[0]);
    }
  }

  /** At every offset the edits found there, however many, end up in reverse order. */
  lemma TiesReverse(edits: seq<Edit>, k: nat)
    ensures InsertedAt(edits, k) == Inserts(Reversed(Filter(edits, At(k))))
  {
    InsertedIsFiltered(edits, k);
    FilterMembers(edits, At(k));
    InsertedReversed(Filter(edits, At(k)), k);
  }

  /** If all edits were found at one offset, their insertions stand there in reverse order. */
  lemma AllAtOneOffset(text: string, edits: seq<Edit>, p: nat)
    requires p <= |text| && forall e <- edits :: e.pos == p
    ensures Woven(text, edits, 0) == text[..p] + (Inserts(Reversed(edits)) + text[p..])
  {
    Lower(text, edits, 0, p);
    assert text[..0] == "";
    InsertedReversed(edits, p);
    BehindAll(text, edits, p);
  }

  lemma BehindAll(text: string, edits: seq<Edit>, p: nat)
    requires p <= |text| && forall e <- edits :: e.pos == p
    ensures Behind(text, edits, p) == text[p..]
  {
    if p < |text| {
      CopiedBehind(text, edits, p + 1);
      assert text[p..] == [text[p]] + text[p + 1..];
    }
  }

  lemma {:induction false} CopiedBehind(text: string, edits: seq<Edit>, k: nat)
    requires k <= |text| && forall e <- edits :: e.pos < k
    ensures Woven(text, edits, k) == text[k..]
    decreases |text| - k
  {
    NothingBelow(edits, k);
    if k == |text| {
    } else {
      CopiedBehind(text, edits, k + 1);
      assert text[k..] == [text[k]] + text[k + 1..];
    }
  }

  /** No two edits are at one offset. */
  ghost predicate Apart(edits: seq<Edit>) {
    forall i, j | 0 <= i < j < |edits| :: edits[i].pos != edits[j].pos
  }

  /** When no offset is used twice the order the edits were found in does not matter. */
  lemma OrderIrrelevant(text: string, a: seq<Edit>, b: seq<Edit>)
    requires multiset(a) == multiset(b) && Apart(a) && Apart(b)
    ensures Woven(text, a, 0) == Woven(text, b, 0)
  {
    forall k
      ensures InsertedAt(a, k) == InsertedAt(b, k)
    {
      if e :| e in a && e.pos == k {
        assert e in multiset(b);
        InsertedAlone(a, e);
        InsertedAlone(b, e);
      } else {
        assert forall e <- b :: e in multiset(a);
        NothingBelow(a, k);
        NothingBelow(b, k);
      }
    }
    SameWeave(text, a, b);
  }

  lemma {:induction false} InsertedAlone(edits: seq<Edit>, e: Edit)
    requires Apart(edits) && e in edits
    ensures InsertedAt(edits, e.pos) == e.insert
  {
    if edits[0] == e {
      NothingBelow(edits[1..], e.pos);
    } else {
      InsertedAlone(edits[1..], e);
    }
  }
}
