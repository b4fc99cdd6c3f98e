/** Which objects of a graph are reached through objects that are not frozen. */
module Reachability {
  import opened Sequences

  /** The objects that each object refers to. */
  type Graph<T(==)> = map<T, set<T>>

  ghost predicate Closed<T>(g: Graph<T>) {
    forall n <- g :: g[n] <= g.Keys
  }

  // ---------- reachability through objects that are not frozen ----------

  /** What is reached from `a` in at most `n` steps through objects outside `frozen`, these included. */
  ghost function Within<T>(g: Graph<T>, frozen: set<T>, a: T, n: nat): set<T> {
    if n == 0 then set x | x in g && x == a && x !in frozen
    else
      var near := Within(g, frozen, a, n - 1);
      near + set x | x in g && x !in frozen && exists y :: y in near && y in g && x in g[y]
  }

  ghost predicate Reaches<T>(g: Graph<T>, frozen: set<T>, a: T, b: T) {
    exists n: nat :: b in Within(g, frozen, a, n)
  }

  /** Everything reached from `a` through objects that are not frozen. */
  ghost function Open<T>(g: Graph<T>, frozen: set<T>, a: T): set<T> {
    set x | x in g && Reaches(g, frozen, a, x)
  }

  lemma {:induction false} WithinIsOpen<T>(g: Graph<T>, frozen: set<T>, a: T, n: nat)
    ensures Within(g, frozen, a, n) <= Open(g, frozen, a)
    ensures Within(g, frozen, a, n) !! frozen
  {
    if n == 0 {
    } else {
      WithinIsOpen(g, frozen, a, n - 1);
    }
  }

  lemma OpenStep<T>(g: Graph<T>, frozen: set<T>, a: T, y: T, x: T)
    requires y in Open(g, frozen, a) && x in g[y] && x in g && x !in frozen
    ensures x in Open(g, frozen, a)
  {
    var n: nat :| y in Within(g, frozen, a, n);
    assert x in Within(g, frozen, a, n + 1);
  }

  lemma OpenStart<T>(g: Graph<T>, frozen: set<T>, a: T)
    requires a in g
    ensures a in Open(g, frozen, a) <==> a !in frozen
    ensures a in frozen ==> Open(g, frozen, a) == {}
  {
    if a !in frozen {
      assert a in Within(g, frozen, a, 0);
    } else {
      forall n: nat
        ensures Within(g, frozen, a, n) == {}
      {
        NothingWithin(g, frozen, a, n);
      }
    }
  }

  lemma {:induction false} NothingWithin<T>(g: Graph<T>, frozen: set<T>, a: T, n: nat)
    requires a in frozen
    ensures Within(g, frozen, a, n) == {}
  {
    if n == 0 {
    } else {
      NothingWithin(g, frozen, a, n - 1);
    }
  }

  /** Freezing more, or starting at a child, reaches no more. */
  lemma {:induction false} ChildReachesNoMore<T>(g: Graph<T>, frozen: set<T>, more: set<T>, a: T, c: T, n: nat)
    requires a in g && a !in frozen && (c == a || c in g[a]) && frozen <= more
    ensures Within(g, more, c, n) <= Open(g, frozen, a)
  {
    OpenStart(g, frozen, a);
    if n == 0 {
      forall x | x in Within(g, more, c, 0)
        ensures x in Open(g, frozen, a)
      {
        if c != a { OpenStep(g, frozen, a, a, c); }
      }
    } else {
      ChildReachesNoMore(g, frozen, more, a, c, n - 1);
      forall x | x in Within(g, more, c, n)
        ensures x in Open(g, frozen, a)
      {
        var near := Within(g, more, c, n - 1);
        if x !in near {
          var y :| y in near && y in g && x in g[y];
          OpenStep(g, frozen, a, y, x);
        }
      }
    }
  }

  lemma OpenShrinks<T>(g: Graph<T>, frozen: set<T>, more: set<T>, a: T, c: T)
    requires a in g && a !in frozen && (c == a || c in g[a]) && frozen <= more
    ensures Open(g, more, c) <= Open(g, frozen, a)
  {
    forall x | x in Open(g, more, c)
      ensures x in Open(g, frozen, a)
    {
      var n: nat :| x in Within(g, more, c, n);
      ChildReachesNoMore(g, frozen, more, a, c, n);
    }
  }

  /** A traversal that froze `a`, only what it can reach, and no object before its children, froze
      exactly what it can reach. */
  lemma ExactlyOpen<T>(g: Graph<T>, frozen: set<T>, now: set<T>, a: T)
    requires Closed(g) && a in g && frozen <= now && now <= frozen + Open(g, frozen, a)
    requires a in now && forall n <- now - frozen :: n in g && g[n] <= now
    ensures now == frozen + Open(g, frozen, a)
  {
    forall x | x in Open(g, frozen, a)
      ensures x in now
    {
      var n: nat :| x in Within(g, frozen, a, n);
      OpenIsIn(g, frozen, now, a, n);
    }
  }

  lemma {:induction false} OpenIsIn<T>(g: Graph<T>, frozen: set<T>, now: set<T>, a: T, n: nat)
    requires a in now && forall n <- now - frozen :: n in g && g[n] <= now
    ensures Within(g, frozen, a, n) <= now
  {
    if n == 0 {
    } else {
      OpenIsIn(g, frozen, now, a, n - 1);
      WithinIsOpen(g, frozen, a, n - 1);
    }
  }

  // ---------- what a freeze achieves ----------

  /** If what was frozen had only frozen children, the same holds afterwards, and everything reachable
      from the root in any way is frozen. */
  lemma FreezeIsDeep<T>(g: Graph<T>, frozen: set<T>, a: T)
    requires Closed(g) && a in g && frozen <= g.Keys && forall n <- frozen :: g[n] <= frozen
    ensures var now := frozen + Open(g, frozen, a);
            (forall n <- now :: g[n] <= now) && Open(g, {}, a) <= now
  {
    var now := frozen + Open(g, frozen, a);
    OpenStart(g, frozen, a);
    forall n | n in now
      ensures g[n] <= now
    {
      forall c | c in g[n]
        ensures c in now
      {
        if n !in frozen && c !in frozen {
          OpenStep(g, frozen, a, n, c);
        }
      }
    }
    forall x | x in Open(g, {}, a)
      ensures x in now
    {
      var n: nat :| x in Within(g, {}, a, n);
      OpenIsIn(g, {}, now, a, n);
    }
  }

  /** A frozen root stops the freeze at once: whatever is behind it stays as it is. */
  lemma FrozenRootStops<T>(g: Graph<T>, frozen: set<T>, a: T)
    requires a in g && a in frozen
    ensures frozen + Open(g, frozen, a) == frozen
  {
    OpenStart(g, frozen, a);
  }

  /** Everything reachable ends up frozen exactly when no frozen object in reach hides one that is
      neither frozen nor reachable around it. */
  lemma DeepExactlyWhenNothingHides<T>(g: Graph<T>, frozen: set<T>, a: T)
    requires Closed(g) && a in g && frozen <= g.Keys
    ensures var now := frozen + Open(g, frozen, a);
            Open(g, {}, a) <= now <==> forall n <- frozen * Open(g, {}, a) :: g[n] <= now
  {
    var now := frozen + Open(g, frozen, a);
    OpenStart(g, {}, a);
    OpenStart(g, frozen, a);
    if Open(g, {}, a) <= now {
      forall n, c | n in frozen * Open(g, {}, a) && c in g[n]
        ensures c in now
      {
        OpenStep(g, {}, a, n, c);
      }
    }
    if forall n <- frozen * Open(g, {}, a) :: g[n] <= now {
      forall x | x in Open(g, {}, a)
        ensures x in now
      {
        var n: nat :| x in Within(g, {}, a, n);
        NothingHidden(g, frozen, a, n);
      }
    }
  }

  lemma {:induction false} NothingHidden<T>(g: Graph<T>, frozen: set<T>, a: T, n: nat)
    requires Closed(g) && a in g
    requires forall n <- frozen * Open(g, {}, a) :: g[n] <= frozen + Open(g, frozen, a)
    ensures Within(g, {}, a, n) <= frozen + Open(g, frozen, a)
  {
    OpenStart(g, frozen, a);
    if n == 0 {
    } else {
      NothingHidden(g, frozen, a, n - 1);
      WithinIsOpen(g, {}, a, n - 1);
      var near := Within(g, {}, a, n - 1);
      forall x | x in Within(g, {}, a, n) && x !in near
        ensures x in frozen + Open(g, frozen, a)
      {
        var y :| y in near && y in g && x in g[y];
        if y !in frozen && x !in frozen {
          OpenStep(g, frozen, a, y, x);
        }
      }
    }
  }

  // ---------- cycles ----------

  /** No object that is reached from `a` is reached again from one of its children. */
  ghost predicate NoCycle<T>(g: Graph<T>, frozen: set<T>, a: T) {
    forall x <- Open(g, frozen, a), c <- g[x] :: x !in Open(g, frozen, c)
  }

  /** A walk along references through objects that are not frozen. */
  ghost predicate Walk<T>(g: Graph<T>, frozen: set<T>, a: T, w: seq<T>) {
    && w != [] && w[0] == a
    && (forall i | 0 <= i < |w| :: w[i] in g && w[i] !in frozen)
    && forall i | 0 < i < |w| :: w[i] in g[w[i - 1]]
  }

  lemma {:induction false} WalkIsOpen<T>(g: Graph<T>, frozen: set<T>, a: T, w: seq<T>, k: nat)
    requires Walk(g, frozen, a, w) && k < |w|
    ensures w[k] in Open(g, frozen, a)
  {
    if k == 0 {
      OpenStart(g, frozen, a);
    } else {
      WalkIsOpen(g, frozen, a, w, k - 1);
      OpenStep(g, frozen, a, w[k - 1], w[k]);
    }
  }

  lemma {:induction false} WithinHasWalk<T>(g: Graph<T>, frozen: set<T>, a: T, x: T, n: nat) returns (w: seq<T>)
    requires x in Within(g, frozen, a, n)
    ensures Walk(g, frozen, a, w) && w[|w| - 1] == x
  {
    if n == 0 {
      w := [a];
    } else if x in Within(g, frozen, a, n - 1) {
      w := WithinHasWalk(g, frozen, a, x, n - 1);
    } else {
      var y :| y in Within(g, frozen, a, n - 1) && y in g && x in g[y];
      var v := WithinHasWalk(g, frozen, a, y, n - 1);
      w := v + [x];
    }
  }

  lemma OpenHasWalk<T>(g: Graph<T>, frozen: set<T>, a: T, x: T) returns (w: seq<T>)
    requires x in Open(g, frozen, a)
    ensures Walk(g, frozen, a, w) && w[|w| - 1] == x
  {
    var n: nat :| x in Within(g, frozen, a, n);
    w := WithinHasWalk(g, frozen, a, x, n);
  }

  lemma WalkOn<T>(g: Graph<T>, frozen: set<T>, a: T, v: seq<T>, c: T, w: seq<T>)
    requires Walk(g, frozen, a, v) && Walk(g, frozen, c, w) && c in g[v[|v| - 1]]
    ensures Walk(g, frozen, a, v + w)
  {
  }

  lemma WalkPart<T>(g: Graph<T>, frozen: set<T>, a: T, w: seq<T>, i: nat)
    requires Walk(g, frozen, a, w) && i < |w|
    ensures Walk(g, frozen, w[i], w[i..])
  {
  }

  /** There is no cycle exactly when no walk comes to an object twice. */
  lemma NoCycleIffNoRepeat<T>(g: Graph<T>, frozen: set<T>, a: T)
    ensures NoCycle(g, frozen, a) <==> forall w: seq<T> :: Walk(g, frozen, a, w) ==> Distinct(w)
  {
    if NoCycle(g, frozen, a) {
      forall w: seq<T> | Walk(g, frozen, a, w)
        ensures Distinct(w)
      {
        WalkIsDistinct(g, frozen, a, w);
      }
    } else {
      var x, c :| x in Open(g, frozen, a) && c in g[x] && x in Open(g, frozen, c);
      var v := OpenHasWalk(g, frozen, a, x);
      var w := OpenHasWalk(g, frozen, c, x);
      WalkOn(g, frozen, a, v, c, w);
      assert (v + w)[|v| - 1] == x == (v + w)[|v| + |w| - 1];
    }
  }

  lemma WalkIsDistinct<T>(g: Graph<T>, frozen: set<T>, a: T, w: seq<T>)
    requires NoCycle(g, frozen, a) && Walk(g, frozen, a, w)
    ensures Distinct(w)
  {
    forall i, j | 0 <= i < j < |w|
      ensures w[i] != w[j]
    {
      WalkIsOpen(g, frozen, a, w, i);
      WalkPart(g, frozen, a, w, i + 1);
      WalkIsOpen(g, frozen, w[i + 1], w[i + 1..], j - i - 1);
    }
  }

  lemma {:induction false} WithinShrinks<T>(g: Graph<T>, frozen: set<T>, more: set<T>, a: T, n: nat)
    requires frozen <= more
    ensures Within(g, more, a, n) <= Within(g, frozen, a, n)
  {
    if n == 0 {
    } else {
      WithinShrinks(g, frozen, more, a, n - 1);
    }
  }

  lemma LessIsOpen<T>(g: Graph<T>, frozen: set<T>, more: set<T>, a: T)
    requires frozen <= more
    ensures Open(g, more, a) <= Open(g, frozen, a)
  {
    forall x | x in Open(g, more, a)
      ensures x in Open(g, frozen, a)
    {
      var n: nat :| x in Within(g, more, a, n);
      WithinShrinks(g, frozen, more, a, n);
    }
  }

  /** A child has no cycle either, also when more is frozen, and strictly less in reach. */
  lemma ChildHasNoCycle<T>(g: Graph<T>, frozen: set<T>, more: set<T>, a: T, c: T)
    requires NoCycle(g, frozen, a) && a in g && a !in frozen && c in g[a] && frozen <= more
    ensures NoCycle(g, more, c) && Open(g, more, c) < Open(g, frozen, a)
  {
    OpenStart(g, frozen, a);
    OpenShrinks(g, frozen, more, a, c);
    LessIsOpen(g, frozen, more, c);
    forall x, d | x in Open(g, more, c) && d in g[x]
      ensures x !in Open(g, more, d)
    {
      LessIsOpen(g, frozen, more, d);
    }
  }
}
