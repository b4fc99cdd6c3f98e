/** The stable sort of the platform, as a function: equal elements keep their order. */
module Sorting {

  ghost predicate TotalPreorder<T(!new)>(leq: (T, T) -> bool) {
    && (forall x, y :: leq(x, y) || leq(y, x))
    && (forall x, y, z :: leq(x, y) && leq(y, z) ==> leq(x, z))
  }

  ghost predicate Sorted<T>(s: seq<T>, leq: (T, T) -> bool) {
    forall i, j | 0 <= i < j < |s| :: leq(s[i], s[j])
  }

  /** `x` before the first element of `s` that it does not have to follow. */
  function Insert<T>(x: T, s: seq<T>, leq: (T, T) -> bool): seq<T> {
    if s == [] || leq(x, s[0]) then [x] + s else [s[0]] + Insert(x, s[1..], leq)
  }

  function Sort<T>(s: seq<T>, leq: (T, T) -> bool): seq<T> {
    if s == [] then [] else Insert(s[0], Sort(s[1..], leq), leq)
  }

  function Filter<T>(s: seq<T>, keep: T -> bool): seq<T> {
    if s == [] then [] else if keep(s[0]) then [s[0]] + Filter(s[1..], keep) else Filter(s[1..], keep)
  }

  // ---------- permutation ----------

  lemma {:induction false} InsertPermutes<T>(x: T, s: seq<T>, leq: (T, T) -> bool)
    ensures multiset(Insert(x, s, leq)) == multiset([x] + s)
  {
    if s == [] || leq(x, s[0]) {
    } else {
      InsertPermutes(x, s[1..], leq);
      assert s == [s[0]] + s[1..];
    }
  }

  lemma {:induction false} SortPermutes<T>(s: seq<T>, leq: (T, T) -> bool)
    ensures multiset(Sort(s, leq)) == multiset(s) && |Sort(s, leq)| == |s|
  {
    if s == [] {
    } else {
      SortPermutes(s[1..], leq);
      InsertPermutes(s[0], Sort(s[1..], leq), leq);
      assert s == [s[0]] + s[1..];
    }
    assert |multiset(Sort(s, leq))| == |multiset(s)|;
  }

  lemma SameMembers<T>(s: seq<T>, leq: (T, T) -> bool)
    ensures forall x :: x in Sort(s, leq) <==> x in s
  {
    SortPermutes(s, leq);
    forall x
      ensures x in Sort(s, leq) <==> x in s
    {
      assert x in multiset(Sort(s, leq)) <==> x in multiset(s);
    }
  }

  // ---------- order ----------

  lemma {:induction false} InsertSorts<T(!new)>(x: T, s: seq<T>, leq: (T, T) -> bool)
    requires TotalPreorder(leq) && Sorted(s, leq)
    ensures Sorted(Insert(x, s, leq), leq)
  {
    if s == [] || leq(x, s[0]) {
    } else {
      InsertSorts(x, s[1..], leq);
      InsertPermutes(x, s[1..], leq);
      var rest := Insert(x, s[1..], leq);
      forall j | 0 <= j < |rest|
        ensures leq(s[0], rest[j])
      {
        assert rest[j] in multiset(rest);
        assert rest[j] in multiset([x] + s[1..]);
      }
    }
  }

  lemma {:induction false} SortSorts<T(!new)>(s: seq<T>, leq: (T, T) -> bool)
    requires TotalPreorder(leq)
    ensures Sorted(Sort(s, leq), leq)
  {
    if s == [] {
    } else {
      SortSorts(s[1..], leq);
      InsertSorts(s[0], Sort(s[1..], leq), leq);
    }
  }

  // ---------- stability ----------

  /** The elements kept by `keep` stand in no fixed order to each other. */
  ghost predicate Ties<T(!new)>(keep: T -> bool, leq: (T, T) -> bool) {
    forall x, y | keep(x) && keep(y) :: leq(x, y)
  }

  lemma {:induction false} InsertStable<T(!new)>(x: T, s: seq<T>, leq: (T, T) -> bool, keep: T -> bool)
    requires Ties(keep, leq)
    ensures Filter(Insert(x, s, leq), keep) == Filter([x] + s, keep)
  {
    assert ([x] + s)[1..] == s;
    if s == [] || leq(x, s[0]) {
    } else {
      InsertStable(x, s[1..], leq, keep);
      assert ([x] + s[1..])[1..] == s[1..];
      assert Insert(x, s, leq)[1..] == Insert(x, s[1..], leq);
    }
  }

  /** A tied class keeps its order. */
  lemma {:induction false} SortStable<T(!new)>(s: seq<T>, leq: (T, T) -> bool, keep: T -> bool)
    requires Ties(keep, leq)
    ensures Filter(Sort(s, leq), keep) == Filter(s, keep)
  {
    if s == [] {
    } else {
      SortStable(s[1..], leq, keep);
      InsertStable(s[0], Sort(s[1..], leq), leq, keep);
      var rest := Sort(s[1..], leq);
      assert ([s[0]] + rest)[1..] == rest;
    }
  }

  lemma {:induction false} SortedIsFixed<T(!new)>(s: seq<T>, leq: (T, T) -> bool)
    requires Sorted(s, leq)
    ensures Sort(s, leq) == s
  {
    if s == [] {
    } else {
      SortedIsFixed(s[1..], leq);
      assert s == [s[0]] + s[1..];
    }
  }

  // ---------- filtering ----------

  lemma {:induction false} FilterAppend<T>(a: seq<T>, b: seq<T>, keep: T -> bool)
    ensures Filter(a + b, keep) == Filter(a, keep) + Filter(b, keep)
  {
    if a == [] {
      assert a + b == b;
    } else {
      assert (a + b)[1..] == a[1..] + b;
      FilterAppend(a[1..], b, keep);
    }
  }

  lemma {:induction false} FilterMembers<T>(s: seq<T>, keep: T -> bool)
    ensures forall x :: x in Filter(s, keep) <==> x in s && keep(x)
    ensures |Filter(s, keep)| <= |s|
  {
    if s == [] {
    } else {
      FilterMembers(s[1..], keep);
      assert s == [s[0]] + s[1..];
    }
  }
}
