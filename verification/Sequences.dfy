/** What is said of sequences of any kind. */
module Sequences {

  ghost predicate Distinct<T>(s: seq<T>) {
    forall i, j | 0 <= i < j < |s| :: s[i] != s[j]
  }

  function Reversed<T>(s: seq<T>): seq<T> {
    if s == [] then [] else Reversed(s[1..]) + [s[0]]
  }

  /** What `of` gives for the elements, in the order in which it is first seen. */
  function FirstSeen<T, U(==)>(s: seq<T>, of: T -> U): seq<U> {
    if s == [] then []
    else
      var before, last := FirstSeen(s[..|s| - 1], of), of(s[|s| - 1]);
      if last in before then before else before + [last]
  }

  lemma FirstSeenNext<T, U>(s: seq<T>, x: T, of: T -> U)
    ensures var before := FirstSeen(s, of);
            FirstSeen(s + [x], of) == if of(x) in before then before else before + [of(x)]
  {
    assert (s + [x])[..|s|] == s;
  }

  lemma {:induction false} FirstSeenAre<T, U>(s: seq<T>, of: T -> U, u: U)
    ensures u in FirstSeen(s, of) <==> exists x <- s :: of(x) == u
  {
    if s == [] {
    } else {
      FirstSeenAre(s[..|s| - 1], of, u);
      assert s == s[..|s| - 1] + [s[|s| - 1]];
    }
  }

  lemma {:induction false} FirstSeenDistinct<T, U>(s: seq<T>, of: T -> U)
    ensures Distinct(FirstSeen(s, of))
  {
    if s == [] {
    } else {
      FirstSeenDistinct(s[..|s| - 1], of);
    }
  }

  /** The `j`-th comes in with an element before which exactly the first `j` have come. */
  lemma {:induction false} FirstSeenOrder<T, U>(s: seq<T>, of: T -> U, j: nat) returns (k: nat)
    requires j < |FirstSeen(s, of)|
    ensures k < |s| && of(s[k]) == FirstSeen(s, of)[j] && FirstSeen(s[..k], of) == FirstSeen(s, of)[..j]
  {
    var before := s[..|s| - 1];
    if j < |FirstSeen(before, of)| {
      k := FirstSeenOrder(before, of, j);
      assert before[..k] == s[..k];
    } else {
      k := |s| - 1;
    }
  }
}
