/** Freezing an object graph in place, children first, leaving out what is frozen already. */
module DeepFreeze {
  import opened FreezeOrder
  import opened Reachability

  /** An object or array: its fields in order, null for a value that is not an object. */
  class Obj {
    var fields: seq<Obj?>
    var frozen: bool

    constructor (fields: seq<Obj?>)
      ensures this.fields == fields && !frozen
    {
      this.fields := fields;
      frozen := false;
    }
  }

  ghost function Frozen(nodes: set<Obj>): set<Obj>
    reads nodes`frozen
  {
    set n <- nodes | n.frozen
  }

  ghost function Heap(nodes: set<Obj>): Graph<Obj>
    reads nodes`fields
  {
    map n <- nodes :: set c: Obj | c in nodes && c in n.fields
  }

  ghost predicate Complete(nodes: set<Obj>)
    reads nodes`fields
  {
    forall n <- nodes, c <- n.fields :: c == null || c in nodes
  }

  /** What a freeze of `value` still has to freeze. */
  ghost function Todo(nodes: set<Obj>, value: Obj?): set<Obj>
    reads nodes
  {
    if value == null then {} else var root: Obj := value; Open(Heap(nodes), Frozen(nodes), root)
  }

  /** No walk of objects that are not frozen leads from `value` back to an object it has been at. */
  ghost predicate Acyclic(nodes: set<Obj>, value: Obj?)
    reads nodes
  {
    value == null || var root: Obj := value; NoCycle(Heap(nodes), Frozen(nodes), root)
  }

  /** What a freeze of `value` leaves frozen. */
  ghost function FrozenAfter(g: Graph<Obj>, before: set<Obj>, value: Obj?): set<Obj> {
    if value == null then before else var root: Obj := value; before + Open(g, before, root)
  }

  /** So far only objects that `value` can reach were frozen, and none before its children. */
  ghost predicate Underway(g: Graph<Obj>, before: set<Obj>, now: set<Obj>, value: Obj) {
    && before <= now <= before + Open(g, before, value)
    && forall n <- now - before :: n in g && g[n] <= now
  }

  /** The first `i` fields hold nothing that is not frozen now. */
  ghost predicate FieldsDone(fields: seq<Obj?>, i: nat, now: set<Obj>) {
    i <= |fields| && forall j | 0 <= j < i :: fields[j] == null || fields[j] in now
  }

  /** A field of `root`, when the objects in `mid` are frozen, has no cycle and less to freeze. */
  lemma FieldHasNoCycle(g: Graph<Obj>, before: set<Obj>, mid: set<Obj>, root: Obj, field: Obj?)
    requires Closed(g) && NoCycle(g, before, root) && root in g && root !in before && before <= mid
    requires field == null || field in g[root]
    ensures field == null ||
            var child: Obj := field;
            NoCycle<Obj>(g, mid, child) && Open<Obj>(g, mid, child) < Open<Obj>(g, before, root)
    ensures {} < Open<Obj>(g, before, root)
  {
    OpenStart<Obj>(g, before, root);
    if field != null {
      var child: Obj := field;
      ChildHasNoCycle<Obj>(g, before, mid, root, child);
    }
  }

  /** After one field: still only what `root` can reach, and children before their parents. */
  lemma ChildFrozen(g: Graph<Obj>, before: set<Obj>, mid: set<Obj>, now: set<Obj>, root: Obj, i: nat)
    requires Closed(g) && root in g && root !in before && i < |root.fields|
    requires Underway(g, before, mid, root) && FieldsDone(root.fields, i, mid)
    requires root.fields[i] == null || root.fields[i] in g[root]
    requires now == FrozenAfter(g, mid, root.fields[i])
    ensures Underway(g, before, now, root) && FieldsDone(root.fields, i + 1, now)
  {
    var field := root.fields[i];
    if field != null {
      OneMoreFrozen(g, before, mid, root, field);
    }
  }

  lemma OneMoreFrozen(g: Graph<Obj>, before: set<Obj>, mid: set<Obj>, root: Obj, child: Obj)
    requires Closed(g) && root in g && root !in before && child in g[root] && Underway(g, before, mid, root)
    ensures Underway(g, before, mid + Open(g, mid, child), root) && child in mid + Open(g, mid, child)
  {
    var now := mid + Open(g, mid, child);
    OpenShrinks(g, before, mid, root, child);
    OpenStart(g, mid, child);
    forall n, c | n in now - before && c in g[n]
      ensures c in now
    {
      if n in Open(g, mid, child) && c !in mid {
        OpenStep(g, mid, child, n, c);
      }
    }
  }

  lemma ChildrenDone(nodes: set<Obj>, root: Obj)
    requires root in nodes
    requires FieldsDone(root.fields, |root.fields|, Frozen(nodes))
    ensures Heap(nodes)[root] <= Frozen(nodes)
  {
  }

  /** With the object itself, after its children, exactly what it can reach is frozen. */
  lemma RootLast(g: Graph<Obj>, before: set<Obj>, mid: set<Obj>, root: Obj)
    requires Closed(g) && root in g && root !in before && g[root] <= mid
    requires Underway(g, before, mid, root)
    ensures mid + {root} == before + Open(g, before, root)
  {
    OpenStart(g, before, root);
    ExactlyOpen(g, before, mid + {root}, root);
  }

  /** The policy registry's `deepFreeze`: it is called on every field and returns at once where there
      is nothing to do. */
  method DeepFreezeAll(value: Obj?, ghost nodes: set<Obj>)
    requires Complete(nodes) && (value == null || value in nodes) && Acyclic(nodes, value)
    modifies nodes`frozen
    ensures Frozen(nodes) == FrozenAfter(Heap(nodes), old(Frozen(nodes)), value)
    decreases Todo(nodes, value)
  {
    ghost var g: Graph<Obj>, before := Heap(nodes), Frozen(nodes);
    if value == null || value.frozen {
      if value != null { OpenStart<Obj>(g, before, value); }
      return;
    }
    var root: Obj := value;
    for i := 0 to |root.fields|
      invariant Underway(g, before, Frozen(nodes), root) && FieldsDone(root.fields, i, Frozen(nodes))
    {
      var child := root.fields[i];
      ghost var mid := Frozen(nodes);
      FieldHasNoCycle(g, before, mid, root, child);
      DeepFreezeAll(child, nodes);
      ChildFrozen(g, before, mid, Frozen(nodes), root, i);
    }
    ghost var mid := Frozen(nodes);
    ChildrenDone(nodes, root);
    root.frozen := true;
    assert Frozen(nodes) == mid + {root};
    RootLast(g, before, mid, root);
  }

  /** The snapshot helper's `deepFreeze`: it is called only on fields that still need it. */
  method DeepFreezeNeeded(value: Obj?, ghost nodes: set<Obj>)
    requires Complete(nodes) && (value == null || value in nodes) && Acyclic(nodes, value)
    modifies nodes`frozen
    ensures Frozen(nodes) == FrozenAfter(Heap(nodes), old(Frozen(nodes)), value)
    decreases Todo(nodes, value)
  {
    ghost var g: Graph<Obj>, before := Heap(nodes), Frozen(nodes);
    if value == null {
      return;
    }
    if value.frozen {
      OpenStart<Obj>(g, before, value);
      return;
    }
    var root: Obj := value;
    for i := 0 to |root.fields|
      invariant Underway(g, before, Frozen(nodes), root) && FieldsDone(root.fields, i, Frozen(nodes))
    {
      var child := root.fields[i];
      if child != null && !child.frozen {
        ghost var mid := Frozen(nodes);
        FieldHasNoCycle(g, before, mid, root, child);
        DeepFreezeNeeded(child, nodes);
        ChildFrozen(g, before, mid, Frozen(nodes), root, i);
      }
    }
    ghost var mid := Frozen(nodes);
    ChildrenDone(nodes, root);
    root.frozen := true;
    assert Frozen(nodes) == mid + {root};
    RootLast(g, before, mid, root);
  }

  /** The snapshot of a rule set's questions. `clone` is what the platform's structured clone of the
      questions returned: a graph of new objects, none of them frozen. Nothing else is changed, and
      everything in the snapshot ends up frozen. */
  method BuildQuestionsSnapshot(clone: Obj, ghost copies: set<Obj>) returns (snapshot: Obj)
    requires clone in copies && Complete(copies) && Frozen(copies) == {} && Acyclic(copies, clone)
    modifies copies`frozen
    ensures fresh(snapshot) && snapshot.fields == [null, null, clone] && snapshot.frozen
    ensures forall n <- Open(Heap(copies), {}, clone) :: n.frozen
  {
    snapshot := new Obj([null, null, clone]);
    ghost var nodes := copies + {snapshot};
    ghost var g: Graph<Obj>, wide: Graph<Obj> := Heap(copies), Heap(nodes);
    Wider(copies, snapshot, clone);
    SnapshotHasNoCycle(g, wide, clone, snapshot);
    DeepFreezeNeeded(snapshot, nodes);
    assert Frozen(nodes) == {} + Open<Obj>(wide, {}, snapshot);
    OpenStart<Obj>(wide, {}, snapshot);
    assert snapshot in Frozen(nodes);
    OpenOfWider(g, wide, clone, snapshot, clone);
    OpenShrinks<Obj>(wide, {}, {}, snapshot, clone);
  }

  /** The graph of the copies together with the object that holds the snapshot. */
  lemma Wider(copies: set<Obj>, snapshot: Obj, clone: Obj)
    requires clone in copies && snapshot !in copies && snapshot.fields == [null, null, clone] && !snapshot.frozen
    requires Complete(copies) && Frozen(copies) == {}
    ensures var nodes := copies + {snapshot};
            && Complete(nodes) && Frozen(nodes) == {}
            && Heap(nodes) == Heap(copies)[snapshot := {clone}] && Closed(Heap(copies))
  {
    var nodes := copies + {snapshot};
    assert forall n <- copies :: n !in Frozen(copies);
    assert Frozen(nodes) == {};
    var g: Graph<Obj>, wide: Graph<Obj> := Heap(copies), Heap(nodes);
    assert forall n <- copies :: wide[n] == g[n];
    assert wide[snapshot] == {clone};
    assert wide == g[snapshot := {clone}];
  }

  /** From the copies the object that holds the snapshot is not reached. */
  lemma {:induction false} WithinOfWider(g: Graph<Obj>, wide: Graph<Obj>, clone: Obj, root: Obj, a: Obj, n: nat)
    requires Closed(g) && root !in g && wide == g[root := {clone}] && a in g
    ensures Within<Obj>(wide, {}, a, n) == Within<Obj>(g, {}, a, n) <= g.Keys
  {
    if n == 0 {
    } else {
      WithinOfWider(g, wide, clone, root, a, n - 1);
    }
  }

  lemma SameOpen(g: Graph<Obj>, wide: Graph<Obj>, a: Obj)
    requires g.Keys <= wide.Keys && forall n: nat :: Within<Obj>(wide, {}, a, n) == Within<Obj>(g, {}, a, n)
    requires forall n: nat :: Within<Obj>(g, {}, a, n) <= g.Keys
    ensures Open<Obj>(wide, {}, a) == Open<Obj>(g, {}, a)
  {
    forall x | x in Open<Obj>(wide, {}, a)
      ensures x in Open<Obj>(g, {}, a)
    {
      var n: nat :| x in Within<Obj>(wide, {}, a, n);
      assert x in Within<Obj>(g, {}, a, n);
    }
    forall x | x in Open<Obj>(g, {}, a)
      ensures x in Open<Obj>(wide, {}, a)
    {
      var n: nat :| x in Within<Obj>(g, {}, a, n);
      assert x in Within<Obj>(wide, {}, a, n);
    }
  }

  lemma OpenOfWider(g: Graph<Obj>, wide: Graph<Obj>, clone: Obj, root: Obj, a: Obj)
    requires Closed(g) && root !in g && wide == g[root := {clone}] && a in g
    ensures Open(wide, {}, a) == Open(g, {}, a)
  {
    forall n: nat
      ensures Within<Obj>(wide, {}, a, n) == Within<Obj>(g, {}, a, n) <= g.Keys
    {
      WithinOfWider(g, wide, clone, root, a, n);
    }
    SameOpen(g, wide, a);
  }

  lemma SnapshotHasNoCycle(g: Graph<Obj>, wide: Graph<Obj>, clone: Obj, root: Obj)
    requires Closed(g) && clone in g && root !in g && wide == g[root := {clone}] && NoCycle(g, {}, clone)
    ensures NoCycle(wide, {}, root)
  {
    OpenOfWider(g, wide, clone, root, clone);
    forall x, c | x in Open(wide, {}, root) && c in wide[x]
      ensures x !in Open(wide, {}, c)
    {
      OpenOfWider(g, wide, clone, root, c);
      if x != root {
        BehindSnapshot(g, wide, clone, root, x);
      }
    }
  }

  lemma BehindSnapshot(g: Graph<Obj>, wide: Graph<Obj>, clone: Obj, root: Obj, x: Obj)
    requires Closed(g) && clone in g && root !in g && wide == g[root := {clone}]
    requires x in Open(wide, {}, root) && x != root
    ensures x in Open(g, {}, clone)
  {
    var w := OpenHasWalk(wide, {}, root, x);
    WalkPart(wide, {}, root, w, 1);
    WalkIsOpen(wide, {}, w[1], w[1..], |w| - 2);
    OpenOfWider(g, wide, clone, root, clone);
  }

  // ---------- the same as a recursion on fields ----------

  function Objects(fields: seq<Obj?>): seq<Obj> {
    if fields == [] then []
    else if fields[0] == null then Objects(fields[1..])
    else [fields[0]] + Objects(fields[1..])
  }

  lemma {:induction false} ObjectsAre(fields: seq<Obj?>)
    ensures forall c: Obj :: c in Objects(fields) <==> c in fields
  {
    if fields == [] {
    } else {
      ObjectsAre(fields[1..]);
      assert fields == [fields[0]] + fields[1..];
    }
  }

  ghost function FieldsOf(nodes: set<Obj>): Fields<Obj>
    reads nodes`fields
  {
    map n <- nodes :: Objects(n.fields)
  }

  /** A freeze can be called exactly where the recursion on the fields comes to an end, and then it
      freezes what that does. */
  lemma FreezeIsVisit(nodes: set<Obj>, value: Obj, depth: nat)
    requires Complete(nodes) && value in nodes
    ensures Acyclic(nodes, value) <==> Ends<Obj>(FieldsOf(nodes), Frozen(nodes), value)
    ensures var visit := Visit<Obj>(FieldsOf(nodes), Frozen(nodes), [], value, depth);
            visit.Some? ==>
              FrozenAfter(Heap(nodes), Frozen(nodes), value) == Frozen(nodes) + set x | x in visit.value
  {
    var fields: Fields<Obj>, g: Graph<Obj> := FieldsOf(nodes), Heap(nodes);
    forall n: Obj, c: Obj | n in nodes
      ensures c in fields[n] <==> c in g[n]
    {
      ObjectsAre(n.fields);
    }
    SameEdges(fields, g);
    EndsIffNoCycle<Obj>(fields, Frozen(nodes), value);
    if Visit<Obj>(fields, Frozen(nodes), [], value, depth).Some? {
      VisitIsOpen<Obj>(fields, Frozen(nodes), value, depth);
    }
  }

  lemma SameEdges(fields: Fields<Obj>, g: Graph<Obj>)
    requires fields.Keys == g.Keys && Closed(g) && forall n <- g, c: Obj :: c in fields[n] <==> c in g[n]
    ensures Edges<Obj>(fields) == g && ClosedFields<Obj>(fields)
  {
    assert forall n <- g :: (set c: Obj | c in fields[n]) == g[n];
  }
}
