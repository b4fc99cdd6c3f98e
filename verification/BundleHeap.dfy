/** A parsed message bundle as a mutable tree of objects, edited in place by the deletion and the
    back-fill scripts. */
module BundleHeap {
  import opened JsonTree
  import opened Wrappers
  import Text

  /** A field of an object: a value that is not an object, or a reference to one. */
  datatype Value = Plain(json: Json) | Ref(node: Node)

  class Node {
    var entries: map<string, Value>
    ghost var footprint: set<Node>

    constructor ()
      ensures entries == map[] && footprint == {this}
    {
      entries := map[];
      footprint := {this};
    }
  }

  /** `n` is the root of a tree of objects, all in its footprint, whose value is `t`. */
  ghost predicate Rep(n: Node, t: Json)
    reads n, n.footprint
    decreases t
  {
    && n in n.footprint
    && t.Obj?
    && n.entries.Keys == t.fields.Keys
    && (forall k | k in n.entries && n.entries[k].Plain? ::
          !n.entries[k].json.Obj? && t.fields[k] == n.entries[k].json)
    && (forall k | k in n.entries && n.entries[k].Ref? ::
          var c := n.entries[k].node;
          && c in n.footprint && c.footprint <= n.footprint && n !in c.footprint
          && Rep(c, t.fields[k]))
    && (forall k, l | k in n.entries && l in n.entries && k != l && n.entries[k].Ref? && n.entries[l].Ref? ::
          n.entries[k].node.footprint !! n.entries[l].node.footprint)
  }

  /** Following `p` from `n` reaches `d`. */
  ghost predicate Reaches(n: Node, t: Json, p: Path, d: Node)
    requires Rep(n, t)
    reads n, n.footprint
    ensures Reaches(n, t, p, d) ==>
              && Has(t, p) && Rep(d, Get(t, p).value)
              && d in n.footprint && d.footprint <= n.footprint
    decreases t
  {
    if p == [] then n == d
    else p[0] in n.entries && n.entries[p[0]].Ref? && Reaches(n.entries[p[0]].node, t.fields[p[0]], p[1..], d)
  }

  /** The objects met when following `p` from `n`. */
  ghost function Spine(n: Node, t: Json, p: Path): (spine: set<Node>)
    requires Rep(n, t)
    reads n, n.footprint
    ensures n in spine && spine <= n.footprint
    decreases t
  {
    {n} + if p != [] && p[0] in n.entries && n.entries[p[0]].Ref?
          then Spine(n.entries[p[0]].node, t.fields[p[0]], p[1..]) else {}
  }

  /** Of the objects on the way, only the last is in the footprint of the last. */
  lemma {:induction false} SpineEnds(n: Node, t: Json, p: Path, d: Node)
    requires Rep(n, t) && Reaches(n, t, p, d)
    ensures d in Spine(n, t, p)
    ensures forall m <- d.footprint :: m in Spine(n, t, p) ==> m == d
    decreases p
  {
    if p == [] {
    } else {
      SpineEnds(n.entries[p[0]].node, t.fields[p[0]], p[1..], d);
    }
  }

  /** `t` with `x` in place of the object at `p`. */
  ghost function Replace(t: Json, p: Path, x: Json): Json
    requires Has(t, p)
  {
    if p == [] then x else Obj(t.fields[p[0] := Replace(t.fields[p[0]], p[1..], x)])
  }

  /** Since the old state only `d` has new fields, and the objects on the way to it have gained the
      same new objects in their footprints as `d` itself. */
  twostate predicate OnlyChanged(nodes: set<Node>, spine: set<Node>, d: Node)
    reads nodes, d
  {
    var added := d.footprint - old(d.footprint);
    && added !! nodes
    && (forall m <- nodes :: m !in spine && m != d ==> unchanged(m))
    && (forall m <- nodes :: m in spine ==> m.footprint == old(m.footprint) + added)
    && (forall m <- nodes :: m in spine && m != d ==> m.entries == old(m.entries))
  }

  /** The object `target` at the end of `path` is about to have, or has got, the value `value`. */
  datatype Edit = Edit(root: Node, tree: Json, path: Path, target: Node, value: Json) {

    /** Changing the object at the end of a path changes the value of the tree at that path only. */
    twostate lemma {:induction false} ChangesOnlyTarget()
      requires old(Rep(root, tree)) && old(Reaches(root, tree, path, target))
      requires OnlyChanged(old(root.footprint), old(Spine(root, tree, path)), target)
      requires Rep(target, value)
      ensures root.footprint == old(root.footprint) + (target.footprint - old(target.footprint))
      ensures Rep(root, Replace(tree, path, value))
      decreases path
    {
      if path != [] {
        Siblings();
        ChildOnlyChanged();
        old(Below()).ChangesOnlyTarget();
        Assemble();
      }
    }

    /** Objects on the way are still reached by the same paths. */
    twostate lemma {:induction false} KeepsReach()
      requires old(Rep(root, tree)) && old(Reaches(root, tree, path, target))
      requires Has(tree, path) && Rep(root, Replace(tree, path, value))
      requires forall m: Node | m in old(root.footprint) && m != target :: m.entries == old(m.entries)
      ensures forall q: Path, m: Node | m in old(root.footprint) && q <= path && old(Reaches(root, tree, q, m)) ::
                Reaches(root, Replace(tree, path, value), q, m)
      decreases path
    {
      if path != [] {
        old(Below()).KeepsReach();
        forall q: Path, m: Node | m in old(root.footprint) && q <= path && old(Reaches(root, tree, q, m))
          ensures Reaches(root, Replace(tree, path, value), q, m)
        {
          if q != [] {
            assert q[1..] <= path[1..];
          }
        }
      }
    }

    /** A change of the fields of one object that brings in no new object. */
    twostate lemma FieldsReplaced()
      requires old(Rep(root, tree)) && old(Reaches(root, tree, path, target))
      requires forall m: Node | m in old(root.footprint) && m != target :: unchanged(m)
      requires target.footprint == old(target.footprint) && Rep(target, value)
      ensures root.footprint == old(root.footprint) && Rep(root, Replace(tree, path, value))
      ensures forall q: Path, m: Node | m in old(root.footprint) && q <= path && old(Reaches(root, tree, q, m)) ::
                Reaches(root, Replace(tree, path, value), q, m)
    {
      ChangesOnlyTarget();
      KeepsReach();
    }

    /** The same change, seen from the first object below the root. */
    ghost function Below(): Edit
      requires path != [] && Rep(root, tree) && Reaches(root, tree, path, target)
      reads root, root.footprint
    {
      Edit(root.entries[path[0]].node, tree.fields[path[0]], path[1..], target, value)
    }

    twostate lemma ChildOnlyChanged()
      requires path != [] && old(Rep(root, tree)) && old(Reaches(root, tree, path, target))
      requires OnlyChanged(old(root.footprint), old(Spine(root, tree, path)), target)
      ensures var e := old(Below());
              && OnlyChanged(old(e.root.footprint), old(Spine(e.root, e.tree, e.path)), target)
              && target != root && root.entries == old(root.entries)
              && root.footprint == old(root.footprint) + (target.footprint - old(target.footprint))
    {
      var e := old(Below());
      assert old(Spine(root, tree, path)) == {root} + old(Spine(e.root, e.tree, e.path));
    }

    twostate lemma Assemble()
      requires path != [] && old(Rep(root, tree)) && old(Reaches(root, tree, path, target))
      requires target.footprint - old(target.footprint) !! old(root.footprint)
      requires root.entries == old(root.entries)
      requires root.footprint == old(root.footprint) + (target.footprint - old(target.footprint))
      requires forall k | k in old(root.entries) && k != path[0] && old(root.entries[k]).Ref? ::
                 var c := old(root.entries[k].node);
                 Rep(c, tree.fields[k]) && c.footprint == old(c.footprint)
      requires var e := old(Below());
               && Rep(e.root, Replace(e.tree, e.path, value))
               && e.root.footprint == old(e.root.footprint) + (target.footprint - old(target.footprint))
      ensures Rep(root, Replace(tree, path, value))
    {
    }

    /** The fields beside the path keep their values and their objects. */
    twostate lemma {:induction false} Siblings()
      requires path != [] && old(Rep(root, tree)) && old(Reaches(root, tree, path, target))
      requires OnlyChanged(old(root.footprint), old(Spine(root, tree, path)), target)
      ensures forall k | k in old(root.entries) && k != path[0] && old(root.entries[k]).Ref? ::
                var c := old(root.entries[k].node);
                Rep(c, tree.fields[k]) && c.footprint == old(c.footprint)
    {
      var child := old(root.entries[path[0]].node);
      forall k | k in old(root.entries) && k != path[0] && old(root.entries[k]).Ref?
        ensures var c := old(root.entries[k].node);
                Rep(c, tree.fields[k]) && c.footprint == old(c.footprint)
      {
        var c := old(root.entries[k].node);
        assert old(c.footprint) !! old(child.footprint);
        assert forall m <- old(c.footprint) :: m !in old(Spine(root, tree, path)) && m != target;
        assert forall m <- old(c.footprint) :: unchanged(m);
      }
    }
  }

  /** `v` is the value `t`. */
  ghost predicate Shows(v: Value, t: Json)
    reads match v case Plain(_) => {} case Ref(n) => {n} + n.footprint
  {
    match v
    case Plain(json) => t == json && !t.Obj?
    case Ref(n) => Rep(n, t)
  }

  lemma {:induction false} ReachesStep(n: Node, t: Json, p: Path, d: Node, k: string)
    requires Rep(n, t) && Reaches(n, t, p, d) && k in d.entries
    ensures Has(t, p + [k]) && Shows(d.entries[k], Get(t, p + [k]).value)
    ensures d.entries[k].Ref? ==> Reaches(n, t, p + [k], d.entries[k].node)
    decreases p
  {
    GetUnder(t, p, [k]);
    assert Get(t, p).value.fields[k] == Get(t, p + [k]).value;
    if p != [] {
      assert (p + [k])[1..] == p[1..] + [k];
      ReachesStep(n.entries[p[0]].node, t.fields[p[0]], p[1..], d, k);
    } else {
      assert (p + [k])[1..] == [];
    }
  }

  /** `t` without the field at the end of `p`, and nothing else removed. */
  ghost function Cut(t: Json, p: Path): Json
    requires p != [] && Has(t, p)
    decreases p
  {
    if |p| == 1 then Obj(t.fields - {p[0]}) else Obj(t.fields[p[0] := Cut(t.fields[p[0]], p[1..])])
  }

  /** One assignment to, or removal of, the field `key` of the object `node` at the end of `path`. */
  datatype FieldEdit = FieldEdit(root: Node, tree: Json, path: Path, node: Node, key: string) {

    ghost predicate Applies()
      reads root, root.footprint
    {
      Rep(root, tree) && Reaches(root, tree, path, node)
    }

    ghost function Before(): Json
      requires Has(tree, path)
    {
      Get(tree, path).value
    }

    /** Every object but `node` is as it was, and `node` has no object it did not have. */
    twostate predicate OnlyNode(nodes: set<Node>)
      reads nodes, node
    {
      node.footprint == old(node.footprint) && forall m <- nodes :: m != node ==> unchanged(m)
    }

    twostate predicate PathsKept(nodes: set<Node>, now: Json)
      requires old(Applies()) && Rep(root, now)
      reads root, root.footprint
    {
      forall q: Path, m: Node | m in nodes && q <= path && old(Reaches(root, tree, q, m)) ::
        Reaches(root, now, q, m)
    }

    twostate lemma NodeRemoved()
      requires old(Applies()) && key in old(node.entries) && node.entries == old(node.entries) - {key}
      requires OnlyNode(old(node.footprint))
      ensures Rep(node, Obj(Before().fields - {key}))
    {
    }

    twostate lemma Removed()
      requires old(Applies()) && key in old(node.entries) && node.entries == old(node.entries) - {key}
      requires OnlyNode(old(root.footprint))
      ensures Has(tree, path + [key]) && Rep(root, Cut(tree, path + [key]))
      ensures PathsKept(old(root.footprint), Cut(tree, path + [key])) && root.footprint == old(root.footprint)
    {
      NodeRemoved();
      CutIsReplace(tree, path, key);
      Edit(root, tree, path, node, Obj(Before().fields - {key})).FieldsReplaced();
    }

    twostate lemma NodeSet()
      requires old(Applies()) && key in node.entries && node.entries[key].Plain? && !node.entries[key].json.Obj?
      requires node.entries == old(node.entries)[key := node.entries[key]]
      requires OnlyNode(old(node.footprint))
      ensures Rep(node, Obj(Before().fields[key := node.entries[key].json]))
    {
    }

    twostate lemma PlainSet()
      requires old(Applies()) && key in node.entries && node.entries[key].Plain? && !node.entries[key].json.Obj?
      requires node.entries == old(node.entries)[key := node.entries[key]]
      requires OnlyNode(old(root.footprint))
      ensures Rep(root, Put(tree, path + [key], node.entries[key].json)) && root.footprint == old(root.footprint)
    {
      var v := node.entries[key].json;
      NodeSet();
      ReplaceIsPut(tree, path, key, v);
      Edit(root, tree, path, node, Obj(Before().fields[key := v])).FieldsReplaced();
    }

    /** `node[key]` is a new empty object, entered in the footprints of the objects on the way. */
    twostate predicate NewChild(nodes: set<Node>, spine: set<Node>)
      reads nodes, node, match node.entries[key] case Ref(c) => {c} case Plain(_) => {}
      requires key in node.entries
    {
      && node.entries[key].Ref?
      && node.entries == old(node.entries)[key := node.entries[key]]
      && var c := node.entries[key].node;
      && c.entries == map[] && c.footprint == {c} && c !in nodes
      && (forall m <- nodes :: m !in spine ==> unchanged(m))
      && (forall m <- nodes :: m in spine ==> m.footprint == old(m.footprint) + {c})
      && (forall m <- nodes :: m != node ==> m.entries == old(m.entries))
    }

    twostate lemma NodeGrown()
      requires Has(tree, path) && old(Rep(node, Before())) && key in node.entries
      requires NewChild(old(node.footprint), {node})
      ensures Rep(node, Obj(Before().fields[key := EMPTY]))
      ensures node.footprint - old(node.footprint) == {node.entries[key].node}
    {
      assert Rep(node.entries[key].node, EMPTY);
    }

    twostate lemma NewSet()
      requires old(Applies()) && key in node.entries
      requires NewChild(old(root.footprint), old(Spine(root, tree, path)))
      requires old(node in Spine(root, tree, path))
      requires forall m <- old(node.footprint) :: m != node ==> m !in old(Spine(root, tree, path))
      ensures Rep(root, Put(tree, path + [key], EMPTY))
      ensures root.footprint == old(root.footprint) + {node.entries[key].node}
      ensures PathsKept(old(root.footprint), Put(tree, path + [key], EMPTY))
    {
      assert NewChild(old(node.footprint), {node});
      NodeGrown();
      ReplaceIsPut(tree, path, key, EMPTY);
      var e := Edit(root, tree, path, node, Obj(Before().fields[key := EMPTY]));
      e.ChangesOnlyTarget();
      e.KeepsReach();
    }
  }

  /** `delete node[key]`, where `node` is the object at `p` below `root`. */
  method RemoveKey(ghost root: Node, ghost tree: Json, ghost p: Path, node: Node, key: string)
    requires Rep(root, tree) && Reaches(root, tree, p, node) && key in node.entries
    modifies node`entries
    ensures root.footprint == old(root.footprint)
    ensures Has(tree, p + [key]) && Rep(root, Cut(tree, p + [key]))
    ensures forall q: Path, m: Node | m in root.footprint && q <= p && old(Reaches(root, tree, q, m)) ::
              Reaches(root, Cut(tree, p + [key]), q, m)
    ensures node.entries == old(node.entries) - {key}
  {
    node.entries := node.entries - {key};
    FieldEdit(root, tree, p, node, key).Removed();
  }

  /** `node[key] = v` for a value that is not an object, where `node` is the object at `p`. */
  method StorePlain(ghost root: Node, ghost tree: Json, ghost p: Path, node: Node, key: string, v: Json)
    requires Rep(root, tree) && Reaches(root, tree, p, node) && !v.Obj?
    modifies node`entries
    ensures root.footprint == old(root.footprint)
    ensures Rep(root, Put(tree, p + [key], v))
  {
    node.entries := node.entries[key := Plain(v)];
    FieldEdit(root, tree, p, node, key).PlainSet();
  }

  /** `node[key] = {}`, where `node` is the object at `p`. */
  method StoreNew(ghost root: Node, ghost tree: Json, ghost p: Path, node: Node, key: string)
    requires Rep(root, tree) && Reaches(root, tree, p, node)
    modifies root.footprint
    ensures fresh(root.footprint - old(root.footprint)) && old(root.footprint) <= root.footprint
    ensures Rep(root, Put(tree, p + [key], EMPTY))
    ensures Reaches(root, Put(tree, p + [key], EMPTY), p, node)
    ensures key in node.entries && node.entries[key].Ref?
  {
    ghost var spine := Spine(root, tree, p);
    SpineEnds(root, tree, p, node);
    var child := Attach(node, key, spine);
    assert FieldEdit(root, tree, p, node, key).NewChild(old(root.footprint), spine);
    FieldEdit(root, tree, p, node, key).NewSet();
  }

  /** A new empty object as the field `key` of `node`, entered in the footprints of `spine`. */
  method Attach(node: Node, key: string, ghost spine: set<Node>) returns (child: Node)
    requires node in spine
    modifies spine
    ensures fresh(child) && child.entries == map[] && child.footprint == {child}
    ensures node.entries == old(node.entries)[key := Ref(child)]
    ensures forall m <- spine :: m != node ==> m.entries == old(m.entries)
    ensures forall m <- spine :: m.footprint == old(m.footprint) + {child}
  {
    child := new Node();
    node.entries := node.entries[key := Ref(child)];
    forall m | m in spine {
      m.footprint := m.footprint + {child};
    }
  }

  lemma {:induction false} ReplaceIsPut(t: Json, p: Path, k: string, v: Json)
    requires t.Obj? && Has(t, p) && Get(t, p).value.Obj?
    ensures Put(t, p + [k], v) == Replace(t, p, Obj(Get(t, p).value.fields[k := v]))
    decreases p
  {
    if p != [] {
      assert (p + [k])[1..] == p[1..] + [k];
      ReplaceIsPut(t.fields[p[0]], p[1..], k, v);
    } else {
      assert (p + [k]) == [k];
    }
  }

  // ---------- pruning, one parent after the other ----------

  lemma {:induction false} CutKeepsParent(t: Json, p: Path, k: string)
    requires Has(t, p + [k])
    ensures Has(Cut(t, p + [k]), p)
    decreases p
  {
    if p == [] {
    } else {
      assert (p + [k])[1..] == p[1..] + [k];
      CutKeepsParent(t.fields[p[0]], p[1..], k);
    }
  }

  /** `ps` lists the prefixes of the path along `keys`, shortest first. */
  ghost predicate Ladder(ps: seq<Path>, keys: Path) {
    && |ps| == |keys| + 1
    && (forall j | 0 <= j <= |keys| :: |ps[j]| == j)
    && forall j {:trigger keys[j]} | 0 <= j < |keys| :: ps[j + 1] == ps[j] + [keys[j]]
  }

  ghost function Prefixes(p: Path): (ps: seq<Path>)
    ensures Ladder(ps, p) && forall j | 0 <= j <= |p| :: ps[j] == p[..j]
  {
    seq(|p| + 1, j requires 0 <= j <= |p| => p[..j])
  }

  lemma {:induction false} LadderGrows(ps: seq<Path>, keys: Path, i: nat, j: nat)
    requires Ladder(ps, keys) && i <= j <= |keys|
    ensures ps[i] <= ps[j] && |ps[j]| == j
    decreases j
  {
    if i == j {
    } else {
      LadderGrows(ps, keys, i, j - 1);
      assert ps[j] == ps[j - 1] + [keys[j - 1]];
    }
  }

  /** Removes the object at `ps[i]` if it is empty, and then goes on with its parent; stops at the
      root and at the first object that is not empty. */
  ghost function PruneUp(t: Json, ps: seq<Path>, keys: Path, i: nat): Json
    requires Ladder(ps, keys) && i <= |keys| && Has(t, ps[i])
    decreases i
  {
    if i == 0 || Get(t, ps[i]) != Some(EMPTY) then t
    else
      CutKeepsParent(t, ps[i - 1], keys[i - 1]);
      PruneUp(Cut(t, ps[i]), ps, keys, i - 1)
  }

  lemma {:induction false} PruneUpBelow(t: Json, p: Path, i: nat)
    requires 0 < i <= |p| && Has(t, p[..i])
    ensures Has(t.fields[p[0]], p[1..][..i - 1])
    ensures var child := PruneUp(t.fields[p[0]], Prefixes(p[1..]), p[1..], i - 1);
            PruneUp(t, Prefixes(p), p, i) == Obj(if child == EMPTY then t.fields - {p[0]} else t.fields[p[0] := child])
    decreases i
  {
    var k := p[0];
    var child := t.fields[k];
    assert p[..i][1..] == p[1..][..i - 1];
    assert Get(t, p[..i]) == Get(child, p[1..][..i - 1]);
    if Get(t, p[..i]) != Some(EMPTY) {
      assert i > 1 ==> child != EMPTY;
      assert t.fields[k := child] == t.fields;
    } else if i > 1 {
      assert p[..i - 1] + [p[i - 1]] == p[..i];
      CutKeepsParent(t, p[..i - 1], p[i - 1]);
      var u := Cut(t, p[..i]);
      PruneUpBelow(u, p, i - 1);
      assert u.fields[k] == Cut(child, p[1..][..i - 1]);
      assert u.fields - {k} == t.fields - {k};
    } else {
      assert p[..1] == [k];
    }
  }

  /** Removing the last key and then pruning upwards is `Delete`. */
  lemma {:induction false} PruneUpIsDelete(t: Json, p: Path)
    requires p != [] && Has(t, p)
    ensures Has(Cut(t, p), p[..|p| - 1])
    ensures PruneUp(Cut(t, p), Prefixes(p), p, |p| - 1) == Delete(t, p)
    decreases p
  {
    assert p[..|p| - 1] + [p[|p| - 1]] == p;
    CutKeepsParent(t, p[..|p| - 1], p[|p| - 1]);
    if |p| == 1 {
    } else {
      var k := p[0];
      var u := Cut(t, p);
      PruneUpIsDelete(t.fields[k], p[1..]);
      PruneUpBelow(u, p, |p| - 1);
      assert p[1..][..|p| - 2] == p[1..][..|p[1..]| - 1];
      assert u.fields - {k} == t.fields - {k};
    }
  }

  lemma {:induction false} CutIsReplace(t: Json, p: Path, k: string)
    requires Has(t, p) && Get(t, p).value.Obj? && k in Get(t, p).value.fields
    ensures Has(t, p + [k])
    ensures Cut(t, p + [k]) == Replace(t, p, Obj(Get(t, p).value.fields - {k}))
    decreases p
  {
    GetUnder(t, p, [k]);
    if p != [] {
      assert (p + [k])[1..] == p[1..] + [k];
      CutIsReplace(t.fields[p[0]], p[1..], k);
    } else {
      assert (p + [k])[1..] == [];
    }
  }

  // ---------- the two editors ----------

  lemma {:induction false} ReachesUnstep(n: Node, t: Json, p: Path, d: Node, k: string, e: Node)
    requires Rep(n, t) && Reaches(n, t, p, d) && Reaches(n, t, p + [k], e)
    ensures k in d.entries && d.entries[k] == Ref(e)
    decreases p
  {
    if p != [] {
      assert (p + [k])[1..] == p[1..] + [k];
      ReachesUnstep(n.entries[p[0]].node, t.fields[p[0]], p[1..], d, k, e);
    } else {
      assert (p + [k])[1..] == [];
    }
  }

  /** An object is not in the footprint of an object below it. */
  lemma {:induction false} AboveIsOutside(n: Node, t: Json, p: Path, d: Node, q: Path, e: Node)
    requires Rep(n, t) && Reaches(n, t, p, d) && Reaches(n, t, q, e) && q < p
    ensures e !in d.footprint
    decreases p
  {
    if q == [] {
    } else {
      AboveIsOutside(n.entries[p[0]].node, t.fields[p[0]], p[1..], d, q[1..], e);
    }
  }

  /** `trail[j]` is the object at `ps[j]`, for the first `k` objects of the trail. */
  ghost predicate Located(n: Node, t: Json, trail: seq<Node>, ps: seq<Path>, k: nat)
    requires Rep(n, t) && k <= |trail| && k <= |ps|
    reads n, n.footprint
  {
    forall j | 0 <= j < k :: Reaches(n, t, ps[j], trail[j])
  }

  /** `delete node[key]` for the `i`th object of a trail; the objects up to it stay in place. */
  method RemoveFromTrail(ghost n: Node, ghost t: Json, trail: seq<Node>, keys: Path, ghost ps: seq<Path>, i: nat)
    requires Rep(n, t) && Ladder(ps, keys) && i < |trail| == |keys| && Located(n, t, trail, ps, i + 1)
    requires keys[i] in trail[i].entries
    modifies trail[i]
    ensures n.footprint == old(n.footprint)
    ensures Has(t, ps[i + 1]) && Rep(n, Cut(t, ps[i + 1])) && Located(n, Cut(t, ps[i + 1]), trail, ps, i + 1)
  {
    RemoveKey(n, t, ps[i], trail[i], keys[i]);
    forall j | 0 <= j < i + 1
      ensures Reaches(n, Cut(t, ps[i + 1]), ps[j], trail[j])
    {
      LadderGrows(ps, keys, j, i);
    }
  }

  /** Whether the field followed from the `i`th object of the trail holds an empty object. */
  method HoldsEmpty(ghost n: Node, ghost t: Json, trail: seq<Node>, keys: Path, ghost ps: seq<Path>, i: nat)
    returns (empty: bool)
    requires Rep(n, t) && Ladder(ps, keys) && i + 1 < |trail| == |keys| && Located(n, t, trail, ps, i + 2)
    ensures keys[i] in trail[i].entries && Has(t, ps[i + 1]) && (empty <==> Get(t, ps[i + 1]) == Some(EMPTY))
  {
    ReachesUnstep(n, t, ps[i], trail[i], keys[i], trail[i + 1]);
    var child := trail[i].entries[keys[i]];
    empty := child.Ref? && child.node.entries == map[];
  }

  /** Removes the field followed from the `i`th object of the trail if it holds an empty object. */
  method PruneStep(ghost n: Node, ghost t: Json, trail: seq<Node>, keys: Path, ghost ps: seq<Path>, i: nat)
    returns (pruned: bool)
    requires Rep(n, t) && Ladder(ps, keys) && i + 1 < |trail| == |keys| && Located(n, t, trail, ps, i + 2)
    modifies trail[i]
    ensures n.footprint == old(n.footprint)
    ensures Has(t, ps[i + 1]) && (pruned <==> Get(t, ps[i + 1]) == Some(EMPTY))
    ensures var u := if pruned then Cut(t, ps[i + 1]) else t;
            && Rep(n, u) && Located(n, u, trail, ps, i + 1)
            && PruneUp(t, ps, keys, i + 1) == if pruned then PruneUp(u, ps, keys, i) else u
  {
    pruned := HoldsEmpty(n, t, trail, keys, ps, i);
    if pruned {
      RemoveFromTrail(n, t, trail, keys, ps, i);
    }
  }

  /** From the second last object of the trail up, removes the field the trail follows for as long as
      it holds an empty object. */
  method PruneParents(ghost n: Node, ghost t: Json, trail: seq<Node>, keys: Path, ghost ps: seq<Path>)
    requires Rep(n, t) && Ladder(ps, keys) && |trail| == |keys| > 0 && Located(n, t, trail, ps, |trail|)
    modifies trail
    ensures n.footprint == old(n.footprint)
    ensures Has(t, ps[|keys| - 1]) && Rep(n, PruneUp(t, ps, keys, |keys| - 1))
  {
    ghost var u, goal := t, PruneUp(t, ps, keys, |keys| - 1);
    var i := |trail| - 2;
    var pruned := true;
    while i >= 0 && pruned
      invariant -1 <= i <= |trail| - 2 && n.footprint == old(n.footprint) && Rep(n, u)
      invariant pruned ==> Located(n, u, trail, ps, i + 2)
      invariant pruned ==> PruneUp(u, ps, keys, i + 1) == goal
      invariant !pruned ==> u == goal
      decreases i, pruned
    {
      pruned := PruneStep(n, u, trail, keys, ps, i);
      if pruned {
        u := Cut(u, ps[i + 1]);
        i := i - 1;
      }
    }
  }

  /** Walks down along `keys`, recording the objects met; gives up where a key is missing. */
  method Follow(root: Value, ghost t: Json, keys: Path, ghost ps: seq<Path>) returns (trail: Option<seq<Node>>)
    requires keys != [] && Shows(root, t) && ps == Prefixes(keys)
    ensures trail.Some? <==> Has(t, keys)
    ensures trail.Some? ==>
              && root.Ref? && |trail.value| == |keys| && Located(root.node, t, trail.value, ps, |keys|)
              && keys[|keys| - 1] in trail.value[|keys| - 1].entries
  {
    var nodes: seq<Node> := [];
    var cur := root;
    var i := 0;
    while true
      invariant 0 <= i < |keys| && |nodes| == i && (i > 0 ==> root.Ref?)
      invariant root.Ref? ==> Located(root.node, t, nodes, ps, i)
      invariant Has(t, ps[i]) && Shows(cur, Get(t, ps[i]).value)
      invariant cur.Ref? ==> root.Ref? && Reaches(root.node, t, ps[i], cur.node)
      decreases |keys| - i
    {
      KeyThere(t, keys, i);
      if !cur.Ref? {
        return None;
      }
      var key := keys[i];
      if key !in cur.node.entries {
        return None;
      }
      nodes := nodes + [cur.node];
      ReachesStep(root.node, t, ps[i], cur.node, key);
      assert ps[i + 1] == ps[i] + [key];
      if i == |keys| - 1 {
        assert ps[i + 1] == keys;
        return Some(nodes);
      }
      cur := cur.node.entries[key];
      i := i + 1;
    }
  }

  /** A path that is present has its next key in the object at each of its prefixes. */
  lemma KeyThere(t: Json, keys: Path, i: nat)
    requires i < |keys| && Has(t, keys[..i])
    ensures var v := Get(t, keys[..i]).value; Has(t, keys) ==> v.Obj? && keys[i] in v.fields
  {
    assert keys[..i] + keys[i..] == keys;
    GetUnder(t, keys[..i], keys[i..]);
  }

  lemma TrailIsOutside(n: Node, t: Json, trail: seq<Node>, keys: Path, ps: seq<Path>, d: Node)
    requires Rep(n, t) && Ladder(ps, keys) && |trail| == |keys| && Located(n, t, trail, ps, |keys|)
    requires Reaches(n, t, ps[|keys|], d)
    ensures forall m <- trail :: m !in d.footprint
  {
    forall j | 0 <= j < |trail|
      ensures trail[j] !in d.footprint
    {
      LadderGrows(ps, keys, j, |keys|);
      AboveIsOutside(n, t, ps[|keys|], d, ps[j], trail[j]);
    }
  }

  /** The deletion proper: the last key of the trail goes, then the parents this leaves empty. */
  method DeleteLast(ghost n: Node, ghost t: Json, trail: seq<Node>, keys: Path, ghost ps: seq<Path>)
    returns (removed: Value)
    requires Rep(n, t) && Ladder(ps, keys) && |trail| == |keys| > 0 && Located(n, t, trail, ps, |keys|)
    requires keys[|keys| - 1] in trail[|keys| - 1].entries
    modifies trail
    ensures n.footprint == old(n.footprint)
    ensures Has(t, ps[|keys|]) && Shows(removed, Get(t, ps[|keys|]).value)
    ensures var u := Cut(t, ps[|keys|]); Has(u, ps[|keys| - 1]) && Rep(n, PruneUp(u, ps, keys, |keys| - 1))
  {
    removed := TakeLast(n, t, trail, keys, ps);
    PruneAround(n, t, trail, keys, ps, removed, Get(t, ps[|keys|]).value);
  }

  /** The pruning does not touch a value outside the trail. */
  method PruneAround(ghost n: Node, ghost t: Json, trail: seq<Node>, keys: Path, ghost ps: seq<Path>,
                     ghost removed: Value, ghost v: Json)
    requires Ladder(ps, keys) && |trail| == |keys| > 0 && Has(t, ps[|keys|]) && Rep(n, Cut(t, ps[|keys|]))
    requires Located(n, Cut(t, ps[|keys|]), trail, ps, |keys|)
    requires Shows(removed, v)
    requires removed.Ref? ==> forall m <- trail :: m != removed.node && m !in removed.node.footprint
    modifies trail
    ensures n.footprint == old(n.footprint) && Shows(removed, v)
    ensures var u := Cut(t, ps[|keys|]); Has(u, ps[|keys| - 1]) && Rep(n, PruneUp(u, ps, keys, |keys| - 1))
  {
    PruneParents(n, Cut(t, ps[|keys|]), trail, keys, ps);
  }

  /** The value the last key of the trail holds; changing the trail does not change it. */
  method TakeLast(ghost n: Node, ghost t: Json, trail: seq<Node>, keys: Path, ghost ps: seq<Path>)
    returns (removed: Value)
    requires Rep(n, t) && Ladder(ps, keys) && |trail| == |keys| > 0 && Located(n, t, trail, ps, |keys|)
    requires keys[|keys| - 1] in trail[|keys| - 1].entries
    modifies trail[|keys| - 1]
    ensures n.footprint == old(n.footprint)
    ensures Has(t, ps[|keys|]) && Shows(removed, Get(t, ps[|keys|]).value)
    ensures removed.Ref? ==> forall m <- trail :: m != removed.node && m !in removed.node.footprint
    ensures Rep(n, Cut(t, ps[|keys|])) && Located(n, Cut(t, ps[|keys|]), trail, ps, |keys|)
  {
    var last := |keys| - 1;
    removed := trail[last].entries[keys[last]];
    ReachesStep(n, t, ps[last], trail[last], keys[last]);
    if removed.Ref? {
      TrailIsOutside(n, t, trail, keys, ps, removed.node);
    }
    RemoveFromTrail(n, t, trail, keys, ps, last);
  }

  /** Putting a new object on the way first makes no difference to storing a value below it. */
  lemma {:induction false} PutOver(t: Json, keys: Path, i: nat, v: Json)
    requires t.Obj? && i + 1 < |keys| && Has(t, keys[..i]) && Get(t, keys[..i]).value.Obj?
    requires var f := Get(t, keys[..i]).value.fields; keys[i] in f ==> !f[keys[i]].Obj?
    ensures Put(Put(t, keys[..i + 1], EMPTY), keys, v) == Put(t, keys, v)
    decreases i
  {
    var k := keys[0];
    assert keys[..i + 1][1..] == keys[1..][..i];
    var u := Put(t, keys[..i + 1], EMPTY);
    if i > 0 {
      assert keys[..i][1..] == keys[1..][..i - 1];
      PutOver(t.fields[k], keys[1..], i - 1, v);
      assert u == Obj(t.fields[k := Put(t.fields[k], keys[1..][..i], EMPTY)]);
    } else {
      assert keys[..0] == [] && keys[..1] == [k];
      assert u == Obj(t.fields[k := EMPTY]);
    }
    assert u.fields[k := Put(Step(u, k), keys[1..], v)] == t.fields[k := Put(Step(t, k), keys[1..], v)];
  }

  /** Walks down from `n` along all keys but the last, making objects where there is none, and stores
      the text under the last. */
  method PutText(n: Node, ghost t: Json, keys: Path, text: string)
    requires Rep(n, t) && keys != []
    modifies n.footprint
    ensures fresh(n.footprint - old(n.footprint)) && old(n.footprint) <= n.footprint
    ensures Rep(n, Put(t, keys, Str(text)))
  {
    ghost var ps, u := Prefixes(keys), t;
    var last := |keys| - 1;
    var cur := n;
    var i := 0;
    while i < |keys| - 1
      invariant 0 <= i < |keys| && Rep(n, u) && Reaches(n, u, ps[i], cur)
      invariant Put(u, keys, Str(text)) == Put(t, keys, Str(text))
      invariant fresh(n.footprint - old(n.footprint)) && old(n.footprint) <= n.footprint
    {
      cur, u := StepInto(n, u, keys, ps, i, cur, text);
      i := i + 1;
    }
    assert ps[last + 1] == keys;
    StorePlain(n, u, ps[last], cur, keys[last], Str(text));
  }

  /** One step down from `cur`, the object at `ps[i]`, into the object under the next key. */
  method StepInto(n: Node, ghost t: Json, keys: Path, ghost ps: seq<Path>, i: nat, cur: Node, ghost text: string)
    returns (next: Node, ghost u: Json)
    requires Rep(n, t) && ps == Prefixes(keys) && i + 1 < |keys| && Reaches(n, t, ps[i], cur)
    modifies n.footprint
    ensures fresh(n.footprint - old(n.footprint)) && old(n.footprint) <= n.footprint
    ensures Rep(n, u) && Reaches(n, u, ps[i + 1], next)
    ensures Put(u, keys, Str(text)) == Put(t, keys, Str(text))
  {
    var key := keys[i];
    u := t;
    if key !in cur.entries || cur.entries[key].Plain? {
      PutOver(t, keys, i, Str(text));
      u := Put(t, ps[i] + [key], EMPTY);
      StoreNew(n, t, ps[i], cur, key);
    }
    ReachesStep(n, u, ps[i], cur, key);
    next := cur.entries[key].node;
  }

  /** A locale file parsed into objects, with the value it stands for. */
  class Bundle {
    var root: Value
    ghost var tree: Json

    ghost function Nodes(): set<Node>
      reads this, if root.Ref? then {root.node} else {}
    {
      if root.Ref? then {root.node} + root.node.footprint else {}
    }

    ghost predicate Valid()
      reads this, Nodes()
    {
      Shows(root, tree)
    }

    /** Deletes the value at a dotted path, then every parent below the root this leaves empty. */
    method DeleteAt(path: string) returns (deleted: bool, sample: Option<Value>)
      requires Valid()
      modifies this`tree, Nodes()
      ensures Valid() && root == old(root) && Nodes() == old(Nodes())
      ensures tree == Delete(old(tree), Text.Split(path, '.'))
      ensures deleted <==> Has(old(tree), Text.Split(path, '.'))
      ensures deleted ==> sample.Some? && Shows(sample.value, Get(old(tree), Text.Split(path, '.')).value)
      ensures !deleted ==> sample == None && forall n <- Nodes() :: unchanged(n)
    {
      deleted, sample := DeleteKeys(Text.Split(path, '.'));
    }

    /** Stores a translation under a dotted key. */
    method SetDeep(path: string, text: string)
      requires Valid() && root.Ref?
      modifies this`tree, Nodes()
      ensures Valid() && root == old(root) && fresh(Nodes() - old(Nodes()))
      ensures tree == Put(old(tree), Text.Split(path, '.'), Str(text))
    {
      var parts := Text.Split(path, '.');
      ghost var before := tree;
      tree := Put(tree, parts, Str(text));
      PutText(root.node, before, parts, text);
    }

    /** The value at a dotted path. */
    method GetPath(path: string) returns (found: Option<Value>)
      requires Valid()
      ensures found.Some? <==> Has(tree, Text.Split(path, '.'))
      ensures found.Some? ==> Shows(found.value, Get(tree, Text.Split(path, '.')).value)
    {
      found := Read(root, tree, Text.Split(path, '.'));
    }

    method DeleteKeys(parts: Path) returns (deleted: bool, sample: Option<Value>)
      requires Valid() && parts != []
      modifies this`tree, Nodes()
      ensures Valid() && root == old(root) && Nodes() == old(Nodes())
      ensures tree == Delete(old(tree), parts)
      ensures deleted <==> Has(old(tree), parts)
      ensures deleted ==> sample.Some? && Shows(sample.value, Get(old(tree), parts).value)
      ensures !deleted ==> sample == None && forall n <- Nodes() :: unchanged(n)
    {
      ghost var ps := Prefixes(parts);
      var trail := Follow(root, tree, parts, ps);
      if trail == None {
        return false, None;
      }
      ghost var before := tree;
      tree := Delete(tree, parts);
      var removed := DeleteFollowed(root.node, before, trail.value, parts);
      deleted, sample := true, Some(removed);
    }
  }

  method Read(root: Value, ghost t: Json, keys: Path) returns (found: Option<Value>)
    requires Shows(root, t)
    ensures found.Some? <==> Has(t, keys)
    ensures found.Some? ==> Shows(found.value, Get(t, keys).value)
  {
    var cur := root;
    ghost var at := t;
    for i := 0 to |keys|
      invariant Shows(cur, at) && Get(t, keys) == Get(at, keys[i..])
    {
      if !cur.Ref? || keys[i] !in cur.node.entries {
        return None;
      }
      at := at.fields[keys[i]];
      cur := cur.node.entries[keys[i]];
    }
    found := Some(cur);
  }

  method DeleteFollowed(ghost n: Node, ghost t: Json, trail: seq<Node>, keys: Path) returns (removed: Value)
    requires Rep(n, t) && |trail| == |keys| > 0 && Located(n, t, trail, Prefixes(keys), |keys|)
    requires Has(t, keys) && keys[|keys| - 1] in trail[|keys| - 1].entries
    modifies n.footprint
    ensures n.footprint == old(n.footprint) && Rep(n, Delete(t, keys))
    ensures Shows(removed, Get(t, keys).value)
  {
    ghost var ps := Prefixes(keys);
    assert ps[|keys|] == keys;
    LocatedIn(n, t, trail, ps, |keys|);
    PruneUpIsDelete(t, keys);
    removed := DeleteLast(n, t, trail, keys, ps);
  }

  lemma LocatedIn(n: Node, t: Json, trail: seq<Node>, ps: seq<Path>, k: nat)
    requires Rep(n, t) && k == |trail| <= |ps| && Located(n, t, trail, ps, k)
    ensures forall m <- trail :: m in n.footprint
  {
    forall j | 0 <= j < k
      ensures trail[j] in n.footprint
    {
      assert Reaches(n, t, ps[j], trail[j]);
    }
  }
}
