/** The recursion of a deep freeze, call by call: which objects it freezes in which order, and when it
    comes to an end at all. */
module FreezeOrder {
  import opened Reachability
  import opened Sequences
  import opened Wrappers

  /** The objects that each object refers to, in the order of its fields. */
  type Fields<T(==)> = map<T, seq<T>>

  ghost function Edges<T>(g: Fields<T>): Graph<T> {
    map n <- g :: set c | c in g[n]
  }

  ghost predicate ClosedFields<T>(g: Fields<T>) {
    forall n <- g, c <- g[n] :: c in g
  }

  /** The objects frozen by a freeze of `a`, after those in `done`, in the order they are frozen; none
      if the calls nest deeper than `depth`. */
  function Visit<T(==)>(g: Fields<T>, frozen: set<T>, done: seq<T>, a: T, depth: nat): Option<seq<T>>
    decreases depth, 0
  {
    if a in frozen || a in done then Some(done)
    else if depth == 0 || a !in g then None
    else
      var below := VisitAll(g, frozen, done, g[a], depth - 1);
      if below.None? then None else Some(below.value + [a])
  }

  function VisitAll<T(==)>(g: Fields<T>, frozen: set<T>, done: seq<T>, fields: seq<T>, depth: nat): Option<seq<T>>
    decreases depth, 1 + |fields|
  {
    if fields == [] then Some(done)
    else
      var first := Visit(g, frozen, done, fields[0], depth);
      if first.None? then None else VisitAll(g, frozen, first.value, fields[1..], depth)
  }

  /** Each object once, none of them frozen before, and after those of its fields that were not. */
  ghost predicate ChildrenFirst<T>(g: Fields<T>, frozen: set<T>, order: seq<T>) {
    && Distinct(order)
    && forall i | 0 <= i < |order| ::
         order[i] in g && order[i] !in frozen && forall c <- g[order[i]] :: c in frozen || c in order[..i]
  }

  /** An object that is in the order already has no cycle. */
  lemma OrderedHasNoCycle<T>(g: Fields<T>, frozen: set<T>, order: seq<T>, a: T, c: T)
    requires ChildrenFirst(g, frozen, order) && a in order && c in g[a]
    ensures a !in Open(Edges(g), frozen, c)
  {
    var i :| 0 <= i < |order| && order[i] == a;
    if c in frozen {
      forall n: nat
        ensures Within(Edges(g), frozen, c, n) == {}
      {
        NothingWithin(Edges(g), frozen, c, n);
      }
    } else {
      var j :| 0 <= j < i && order[..i][j] == c;
      forall n: nat
        ensures a !in Within(Edges(g), frozen, c, n)
      {
        BelowInOrder(g, frozen, order, c, j, n);
      }
    }
  }

  /** What is reached from the `j`-th object of an order comes no later in it. */
  lemma {:induction false} BelowInOrder<T>(g: Fields<T>, frozen: set<T>, order: seq<T>, c: T, j: nat, n: nat)
    requires ChildrenFirst(g, frozen, order) && j < |order| && order[j] == c
    ensures forall x <- Within(Edges(g), frozen, c, n) :: x in order[..j + 1]
  {
    if n == 0 {
    } else {
      BelowInOrder(g, frozen, order, c, j, n - 1);
      var near := Within(Edges(g), frozen, c, n - 1);
      forall x | x in Within(Edges(g), frozen, c, n) && x !in near
        ensures x in order[..j + 1]
      {
        var y :| y in near && y in g && x in g[y] && x !in frozen;
        StepInOrder(g, frozen, order, j + 1, y, x);
      }
    }
  }

  lemma StepInOrder<T>(g: Fields<T>, frozen: set<T>, order: seq<T>, n: nat, y: T, x: T)
    requires ChildrenFirst(g, frozen, order) && n <= |order| && y in order[..n] && x in g[y] && x !in frozen
    ensures x in order[..n]
  {
    var k :| 0 <= k < n && order[..n][k] == y;
    assert order[k] == y && x in order[..k];
    assert order[..k] <= order[..n];
  }

  // ---------- what is frozen, in which order ----------

  lemma {:induction false} VisitOrders<T>(g: Fields<T>, frozen: set<T>, done: seq<T>, a: T, depth: nat)
    requires ChildrenFirst(g, frozen, done) && Visit(g, frozen, done, a, depth).Some?
    ensures var r := Visit(g, frozen, done, a, depth).value;
            && done <= r && ChildrenFirst(g, frozen, r) && (a in frozen || a in r)
            && forall x <- r :: x in done || x in Open(Edges(g), frozen, a)
    decreases depth, 0
  {
    if a !in frozen && a !in done {
      VisitAllOrders(g, frozen, done, g[a], depth - 1);
      var below := VisitAll(g, frozen, done, g[a], depth - 1).value;
      OpenStart(Edges(g), frozen, a);
      forall c | c in g[a]
        ensures Open(Edges(g), frozen, c) <= Open(Edges(g), frozen, a)
      {
        OpenShrinks(Edges(g), frozen, frozen, a, c);
      }
      if a in below {
        var c :| c in g[a] && a in Open(Edges(g), frozen, c);
        OrderedHasNoCycle(g, frozen, below, a, c);
        assert false;
      }
      LastInOrder(g, frozen, below, a);
    }
  }

  lemma LastInOrder<T>(g: Fields<T>, frozen: set<T>, below: seq<T>, a: T)
    requires ChildrenFirst(g, frozen, below) && a in g && a !in frozen && a !in below
    requires forall c <- g[a] :: c in frozen || c in below
    ensures ChildrenFirst(g, frozen, below + [a])
  {
    var r := below + [a];
    forall i | 0 <= i < |r|
      ensures r[i] in g && r[i] !in frozen && forall c <- g[r[i]] :: c in frozen || c in r[..i]
    {
      assert r[..i] == below[..i];
      assert below[..|below|] == below;
    }
  }

  lemma {:induction false} VisitAllOrders<T>(g: Fields<T>, frozen: set<T>, done: seq<T>, fields: seq<T>, depth: nat)
    requires ChildrenFirst(g, frozen, done) && VisitAll(g, frozen, done, fields, depth).Some?
    ensures var r := VisitAll(g, frozen, done, fields, depth).value;
            && done <= r && ChildrenFirst(g, frozen, r) && (forall c <- fields :: c in frozen || c in r)
            && forall x <- r :: x in done || exists c <- fields :: x in Open(Edges(g), frozen, c)
    decreases depth, 1 + |fields|
  {
    if fields == [] {
    } else {
      VisitOrders(g, frozen, done, fields[0], depth);
      var first := Visit(g, frozen, done, fields[0], depth).value;
      VisitAllOrders(g, frozen, first, fields[1..], depth);
      assert fields == [fields[0]] + fields[1..];
    }
  }

  /** A freeze that comes to an end has frozen exactly what it can reach, each object once and after its
      children. */
  lemma VisitIsOpen<T>(g: Fields<T>, frozen: set<T>, a: T, depth: nat)
    requires Visit(g, frozen, [], a, depth).Some?
    ensures var r := Visit(g, frozen, [], a, depth).value;
            ChildrenFirst(g, frozen, r) && (set x | x in r) == Open(Edges(g), frozen, a)
  {
    VisitOrders(g, frozen, [], a, depth);
    var r := Visit(g, frozen, [], a, depth).value;
    var now := frozen + set x | x in r;
    forall x | x in Open(Edges(g), frozen, a)
      ensures x in r
    {
      var n: nat :| x in Within(Edges(g), frozen, a, n);
      WithinIsOpen(Edges(g), frozen, a, n);
      forall m | m in now - frozen
        ensures m in Edges(g) && Edges(g)[m] <= now
      {
        var i :| 0 <= i < |r| && r[i] == m;
      }
      OpenIsIn(Edges(g), frozen, now, a, n);
    }
  }

  // ---------- when it comes to an end ----------

  /** The freeze of `a` comes to an end, at some depth of calls. */
  ghost predicate Ends<T>(g: Fields<T>, frozen: set<T>, a: T) {
    exists depth: nat :: Visit(g, frozen, [], a, depth).Some?
  }

  /** Nested at most `depth` deep, the freeze of `a` has room for every object it reaches. */
  ghost predicate Fits<T>(g: Fields<T>, frozen: set<T>, a: T, depth: nat) {
    a in g && NoCycle(Edges(g), frozen, a) && |Open(Edges(g), frozen, a)| <= depth
  }

  lemma FieldsFit<T>(g: Fields<T>, frozen: set<T>, a: T, depth: nat)
    requires ClosedFields(g) && a !in frozen && Fits(g, frozen, a, depth)
    ensures depth > 0 && forall c <- g[a] :: Fits(g, frozen, c, depth - 1)
  {
    OpenStart(Edges(g), frozen, a);
    forall c | c in g[a]
      ensures |Open(Edges(g), frozen, c)| < |Open(Edges(g), frozen, a)| && NoCycle(Edges(g), frozen, c)
    {
      ChildHasNoCycle(Edges(g), frozen, frozen, a, c);
      Smaller(Open(Edges(g), frozen, c), Open(Edges(g), frozen, a));
    }
    assert a in Open(Edges(g), frozen, a);
  }

  lemma {:induction false} VisitEnds<T>(g: Fields<T>, frozen: set<T>, done: seq<T>, a: T, depth: nat)
    requires ClosedFields(g) && Fits(g, frozen, a, depth)
    ensures Visit(g, frozen, done, a, depth).Some?
    decreases depth, 0
  {
    if a !in frozen && a !in done {
      FieldsFit(g, frozen, a, depth);
      VisitAllEnds(g, frozen, done, g[a], depth - 1);
    }
  }

  lemma {:induction false} VisitAllEnds<T>(g: Fields<T>, frozen: set<T>, done: seq<T>, fields: seq<T>, depth: nat)
    requires ClosedFields(g) && forall c <- fields :: Fits(g, frozen, c, depth)
    ensures VisitAll(g, frozen, done, fields, depth).Some?
    decreases depth, 1 + |fields|
  {
    if fields == [] {
    } else {
      assert fields[0] in fields && forall c <- fields[1..] :: c in fields;
      VisitEnds(g, frozen, done, fields[0], depth);
      VisitAllEnds(g, frozen, Visit(g, frozen, done, fields[0], depth).value, fields[1..], depth);
    }
  }

  lemma Smaller<T>(a: set<T>, b: set<T>)
    requires a < b
    ensures |a| < |b|
  {
    assert b == a + (b - a);
  }

  lemma EndsWithoutCycle<T>(g: Fields<T>, frozen: set<T>, a: T)
    requires Ends(g, frozen, a)
    ensures NoCycle(Edges(g), frozen, a)
  {
    var depth: nat :| Visit(g, frozen, [], a, depth).Some?;
    VisitIsOpen(g, frozen, a, depth);
    var r := Visit(g, frozen, [], a, depth).value;
    forall x, c | x in Open(Edges(g), frozen, a) && c in Edges(g)[x]
      ensures x !in Open(Edges(g), frozen, c)
    {
      assert x in set y | y in r;
      OrderedHasNoCycle(g, frozen, r, x, c);
    }
  }

  lemma EndsIffNoCycle<T>(g: Fields<T>, frozen: set<T>, a: T)
    requires ClosedFields(g) && a in g
    ensures Ends(g, frozen, a) <==> NoCycle(Edges(g), frozen, a)
  {
    if Ends(g, frozen, a) {
      EndsWithoutCycle(g, frozen, a);
    }
    if NoCycle(Edges(g), frozen, a) {
      VisitEnds(g, frozen, [], a, |Open(Edges(g), frozen, a)|);
    }
  }

  /** A deep freeze comes to an end exactly when no walk of unfrozen objects from its root comes to an
      object twice. A frozen root, from which there is no such walk, ends it at once. */
  lemma EndsIffNoRepeat<T>(g: Fields<T>, frozen: set<T>, a: T)
    requires ClosedFields(g) && a in g
    ensures Ends(g, frozen, a) <==> forall w: seq<T> :: Walk(Edges(g), frozen, a, w) ==> Distinct(w)
    ensures a in frozen ==> Ends(g, frozen, a)
  {
    EndsIffNoCycle(g, frozen, a);
    NoCycleIffNoRepeat(Edges(g), frozen, a);
    if a in frozen {
      assert Visit(g, frozen, [], a, 0).Some?;
    }
  }

  /** An object that refers to itself is never frozen. */
  lemma SelfReferenceNeverEnds<T>(g: Fields<T>, frozen: set<T>, a: T)
    requires a in g && a in g[a] && a !in frozen
    ensures !Ends(g, frozen, a)
  {
    OpenStart(Edges(g), frozen, a);
    if Ends(g, frozen, a) {
      EndsWithoutCycle(g, frozen, a);
    }
  }

  /** What is behind frozen objects makes no difference: which objects are frozen, and in which order, is
      the same in any graph with the same fields of the objects that are not frozen. */
  lemma {:induction false} FrozenHides<T>(g: Fields<T>, h: Fields<T>, frozen: set<T>, done: seq<T>, a: T, depth: nat)
    requires SameUnfrozen(g, h, frozen)
    ensures Visit(g, frozen, done, a, depth) == Visit(h, frozen, done, a, depth)
    decreases depth, 0
  {
    if a !in frozen && a !in done && depth > 0 && a in g {
      FrozenHidesAll(g, h, frozen, done, g[a], depth - 1);
    }
  }

  lemma {:induction false} FrozenHidesAll<T>(g: Fields<T>, h: Fields<T>, frozen: set<T>, done: seq<T>,
                                             fields: seq<T>, depth: nat)
    requires SameUnfrozen(g, h, frozen)
    ensures VisitAll(g, frozen, done, fields, depth) == VisitAll(h, frozen, done, fields, depth)
    decreases depth, 1 + |fields|
  {
    if fields == [] {
    } else {
      FrozenHides(g, h, frozen, done, fields[0], depth);
      var first := Visit(g, frozen, done, fields[0], depth);
      if first.Some? {
        FrozenHidesAll(g, h, frozen, first.value, fields[1..], depth);
      }
    }
  }

  ghost predicate SameUnfrozen<T>(g: Fields<T>, h: Fields<T>, frozen: set<T>) {
    forall n: T | n in g.Keys + h.Keys && n !in frozen :: n in g && n in h && g[n] == h[n]
  }

  /** A freeze ends whatever cycles there are behind frozen objects: exactly when it ends with these cut off. */
  lemma CycleBehindFrozenEnds<T>(g: Fields<T>, frozen: set<T>, a: T)
    ensures Ends(g, frozen, a) <==> Ends(map n <- g :: if n in frozen then [] else g[n], frozen, a)
  {
    var h := map n <- g :: if n in frozen then [] else g[n];
    forall depth: nat
      ensures Visit(g, frozen, [], a, depth) == Visit(h, frozen, [], a, depth)
    {
      FrozenHides(g, h, frozen, [], a, depth);
    }
  }
}
