/** Message bundles as values: a JSON document, the paths into it, and what reading, deleting and
    setting a path mean. The in-place editors of `BundleHeap` are proved against these functions. */
module JsonTree {
  import opened Wrappers

  datatype Json =
    | Str(s: string)
    | Num(n: real)
    | Bool(b: bool)
    | Null
    | Arr(items: seq<Json>)
    | Obj(fields: map<string, Json>)

  /** A dotted key after splitting on '.'. */
  type Path = seq<string>

  const EMPTY: Json := Obj(map[])

  /** The value at a path. */
  function Get(t: Json, p: Path): Option<Json> {
    if p == [] then Some(t)
    else if t.Obj? && p[0] in t.fields then Get(t.fields[p[0]], p[1..])
    else None
  }

  predicate Has(t: Json, p: Path) {
    Get(t, p).Some?
  }

  /** The non-object value at a path, if there is one: a string, number, boolean, array or null. */
  function Terminal(t: Json, p: Path): Option<Json> {
    var v := Get(t, p);
    if v.Some? && !v.value.Obj? then v else None
  }

  predicate Comparable(p: Path, q: Path) {
    p <= q || q <= p
  }

  /** No object strictly below the root is empty. */
  ghost predicate NoEmptyBelow(t: Json) {
    forall q: Path | q != [] :: Get(t, q) != Some(EMPTY)
  }

  /** Removes the value at `p`, then every parent below the root that this leaves empty. */
  function Delete(t: Json, p: Path): Json
    requires p != []
    decreases p
  {
    if !Has(t, p) then t
    else if |p| == 1 then Obj(t.fields - {p[0]})
    else
      var child := Delete(t.fields[p[0]], p[1..]);
      Obj(if child == EMPTY then t.fields - {p[0]} else t.fields[p[0] := child])
  }

  /** Stores `v` at `p`, replacing whatever on the way is not an object by a new object. */
  function Put(t: Json, p: Path, v: Json): Json
    requires p != [] && t.Obj?
    decreases p
  {
    if |p| == 1 then Obj(t.fields[p[0] := v])
    else Obj(t.fields[p[0] := Put(Step(t, p[0]), p[1..], v)])
  }

  /** The object `Put` goes on in: the one at `key`, or a new one. */
  function Step(t: Json, key: string): (next: Json)
    requires t.Obj?
    ensures next.Obj?
  {
    if key in t.fields && t.fields[key].Obj? then t.fields[key] else EMPTY
  }

  // ---------- paths ----------

  lemma GetCons(t: Json, k: string, p: Path)
    requires t.Obj?
    ensures Get(t, [k] + p) == if k in t.fields then Get(t.fields[k], p) else None
  {
    assert ([k] + p)[1..] == p;
  }

  lemma PrefixTail(p: Path, q: Path)
    requires p != [] && q != []
    ensures p <= q <==> p[0] == q[0] && p[1..] <= q[1..]
  {
    if p[0] == q[0] && p[1..] <= q[1..] {
      assert p == [p[0]] + p[1..] && q == [q[0]] + q[1..];
    }
  }

  /** Whatever lies under a present path is reached through it. */
  lemma {:induction false} GetUnder(t: Json, p: Path, q: Path)
    ensures Get(t, p + q) == if Has(t, p) then Get(Get(t, p).value, q) else None
    decreases p
  {
    if p == [] {
      assert p + q == q;
    } else {
      assert (p + q)[1..] == p[1..] + q;
      if t.Obj? && p[0] in t.fields {
        GetUnder(t.fields[p[0]], p[1..], q);
      }
    }
  }

  lemma PrefixPresent(t: Json, p: Path, q: Path)
    requires p <= q && Has(t, q)
    ensures Has(t, p) && (p != q ==> Get(t, p).value.Obj?)
  {
    var rest := q[|p|..];
    assert q == p + rest;
    GetUnder(t, p, rest);
  }

  // ---------- deleting ----------

  /** Deleting removes exactly the terminal values at or under the path and changes no other. */
  lemma {:induction false} DeleteTerminals(t: Json, p: Path, q: Path)
    requires p != []
    ensures Terminal(Delete(t, p), q) == if p <= q then None else Terminal(t, q)
    decreases p
  {
    if !Has(t, p) {
      if p <= q && Has(t, q) { PrefixPresent(t, p, q); }
    } else if q != [] {
      PrefixTail(p, q);
      if |p| > 1 && p[0] == q[0] {
        var child := t.fields[p[0]];
        DeleteTerminals(child, p[1..], q[1..]);
        if Delete(child, p[1..]) == EMPTY {
          EmptyHasNoTerminal(q[1..]);
        }
      }
    }
  }

  lemma EmptyHasNoTerminal(q: Path)
    ensures Terminal(EMPTY, q) == None
  {
  }

  /** A delete that fails changes nothing; one that succeeds leaves the path absent. */
  lemma {:induction false} DeleteRemoves(t: Json, p: Path)
    requires p != []
    ensures Delete(t, p) == t <==> !Has(t, p)
    ensures !Has(Delete(t, p), p)
    decreases p
  {
    if !Has(t, p) || |p| <= 1 {
    } else {
      DeleteRemoves(t.fields[p[0]], p[1..]);
    }
  }

  /** Pruning is complete: a bundle without empty objects below its root stays so. */
  lemma {:induction false} DeleteKeepsNoEmpty(t: Json, p: Path)
    requires p != [] && NoEmptyBelow(t)
    ensures NoEmptyBelow(Delete(t, p))
    decreases p
  {
    if !Has(t, p) {
    } else {
      var k := p[0];
      if |p| > 1 {
        ChildNoEmpty(t, k);
        DeleteKeepsNoEmpty(t.fields[k], p[1..]);
      }
      forall q: Path | q != []
        ensures Get(Delete(t, p), q) != Some(EMPTY)
      {
        assert Get(t, q) != Some(EMPTY);
        if q[0] == k && |p| > 1 && q[1..] != [] {
          assert Get(Delete(t.fields[k], p[1..]), q[1..]) != Some(EMPTY);
        }
      }
    }
  }

  lemma ChildNoEmpty(t: Json, k: string)
    requires t.Obj? && k in t.fields && NoEmptyBelow(t)
    ensures NoEmptyBelow(t.fields[k])
  {
    forall q: Path | q != []
      ensures Get(t.fields[k], q) != Some(EMPTY)
    {
      GetCons(t, k, q);
      assert Get(t, [k] + q) != Some(EMPTY);
    }
  }

  /** Two deletions can be done in either order, whatever the two paths are. */
  lemma {:induction false} DeletesCommute(t: Json, p: Path, q: Path)
    requires p != [] && q != []
    ensures Delete(Delete(t, p), q) == Delete(Delete(t, q), p)
    decreases p
  {
    if !t.Obj? {
    } else if p[0] != q[0] {
      DeleteOtherKey(t, p, q);
      DeleteOtherKey(t, q, p);
    } else if p[0] !in t.fields {
    } else if |p| == 1 {
      DeleteKeyAbsorbs(t, p, q);
    } else if |q| == 1 {
      DeleteKeyAbsorbs(t, q, p);
    } else {
      DeletesCommute(t.fields[p[0]], p[1..], q[1..]);
      DeleteSameKey(t, p, q);
      DeleteSameKey(t, q, p);
    }
  }

  /** What a deletion below field `k` does to the object holding it. */
  function Prune(t: Json, k: string, child: Json): Json
    requires t.Obj?
  {
    if child == EMPTY then Obj(t.fields - {k}) else Obj(t.fields[k := child])
  }

  lemma DeleteShape(t: Json, p: Path)
    requires t.Obj? && |p| > 1
    ensures Delete(t, p) == if Has(t, p) then Prune(t, p[0], Delete(t.fields[p[0]], p[1..])) else t
    ensures Has(t, p) <==> p[0] in t.fields && Has(t.fields[p[0]], p[1..])
  {
  }

  lemma DeleteOtherKey(t: Json, p: Path, q: Path)
    requires t.Obj? && p != [] && q != [] && p[0] != q[0]
    ensures Delete(Delete(t, p), q) == Delete(Delete(t, q), p)
  {
    var k, l := p[0], q[0];
    var tp, tq := Delete(t, p), Delete(t, q);
    assert l in t.fields <==> l in tp.fields;
    assert l in t.fields ==> tp.fields[l] == t.fields[l];
    assert k in t.fields <==> k in tq.fields;
    assert k in t.fields ==> tq.fields[k] == t.fields[k];
    assert t.fields - {k} - {l} == t.fields - {l} - {k};
    if |p| > 1 && Has(t, p) {
      var v := Delete(t.fields[k], p[1..]);
      assert (t.fields - {l})[k := v] == t.fields[k := v] - {l};
    }
    if |q| > 1 && Has(t, q) {
      var w := Delete(t.fields[l], q[1..]);
      assert (t.fields - {k})[l := w] == t.fields[l := w] - {k};
      if |p| > 1 && Has(t, p) {
        var v := Delete(t.fields[k], p[1..]);
        assert t.fields[k := v][l := w] == t.fields[l := w][k := v];
      }
    }
  }

  lemma DeleteKeyAbsorbs(t: Json, p: Path, q: Path)
    requires t.Obj? && |p| == 1 && q != [] && p[0] == q[0] && p[0] in t.fields
    ensures Delete(Delete(t, p), q) == Delete(t, p) == Delete(Delete(t, q), p)
  {
    var k := p[0];
    assert Has(t, p);
    var tq := Delete(t, q);
    assert tq.fields - {k} == t.fields - {k};
    if k in tq.fields {
      assert p == [k] && Has(tq, p);
    } else {
      assert tq.fields == t.fields - {k};
    }
  }

  lemma DeleteSameKey(t: Json, p: Path, q: Path)
    requires t.Obj? && |p| > 1 && |q| > 1 && p[0] == q[0] && p[0] in t.fields
    ensures Delete(Delete(t, p), q) ==
            if Has(t, p) || Has(t, q) then Prune(t, p[0], Delete(Delete(t.fields[p[0]], p[1..]), q[1..])) else t
  {
    var k := p[0];
    var child := t.fields[k];
    DeleteShape(t, p);
    if !Has(t, p) {
      DeleteShape(t, q);
    } else {
      DeleteAfterPrune(t, k, Delete(child, p[1..]), q);
    }
  }

  lemma DeleteAfterPrune(t: Json, k: string, child: Json, q: Path)
    requires t.Obj? && |q| > 1 && q[0] == k
    ensures Delete(Prune(t, k, child), q) == Prune(t, k, Delete(child, q[1..]))
  {
    var u := Prune(t, k, child);
    DeleteShape(u, q);
    if child == EMPTY {
      assert !Has(EMPTY, q[1..]);
    } else {
      assert (t.fields[k := child])[k := Delete(child, q[1..])] == t.fields[k := Delete(child, q[1..])];
      assert t.fields[k := child] - {k} == t.fields - {k};
    }
  }

  // ---------- setting ----------

  /** After storing a non-object value, the path reads it, everything at an ancestor or descendant
      of the path is gone, and every other terminal value is as before. */
  lemma {:induction false} PutTerminals(t: Json, p: Path, v: Json, q: Path)
    requires p != [] && t.Obj? && !v.Obj?
    ensures Terminal(Put(t, p, v), q) ==
            if q == p then Some(v) else if Comparable(p, q) then None else Terminal(t, q)
    decreases p
  {
    if q == [] {
    } else {
      PrefixTail(p, q);
      PrefixTail(q, p);
      assert p == [p[0]] + p[1..] && q == [q[0]] + q[1..];
      if p[0] == q[0] {
        if |p| > 1 {
          PutTerminals(Step(t, p[0]), p[1..], v, q[1..]);
          assert Get(Put(t, p, v), q) == Get(Put(Step(t, p[0]), p[1..], v), q[1..]);
          assert q == p <==> q[1..] == p[1..];
          assert Comparable(p, q) <==> Comparable(p[1..], q[1..]);
          if !Comparable(p, q) {
            assert q[1..] != [];
            StepTerminal(t, q);
          }
        } else {
          assert p == [p[0]] && p <= q;
          assert Get(Put(t, p, v), q) == Get(v, q[1..]);
        }
      }
    }
  }

  lemma StepTerminal(t: Json, q: Path)
    requires t.Obj? && |q| > 1
    ensures Terminal(Step(t, q[0]), q[1..]) == Terminal(t, q)
  {
    var rest := q[1..];
    assert rest != [];
    assert Get(EMPTY, rest) == None;
    if q[0] in t.fields {
      assert Get(t, q) == Get(t.fields[q[0]], rest);
      assert !t.fields[q[0]].Obj? ==> Get(t.fields[q[0]], rest) == None;
    } else {
      assert Get(t, q) == None;
    }
  }

  lemma {:induction false} PutReads(t: Json, p: Path, v: Json)
    requires p != [] && t.Obj?
    ensures Get(Put(t, p, v), p) == Some(v)
    decreases p
  {
    if |p| <= 1 {
    } else {
      PutReads(Step(t, p[0]), p[1..], v);
    }
  }

  /** How many leading keys of `p` are present. */
  function Depth(t: Json, p: Path): (d: nat)
    ensures d <= |p|
    ensures Has(t, p[..d])
    ensures d < |p| ==> !Has(t, p[..d + 1])
    decreases p
  {
    if p == [] || !t.Obj? || p[0] !in t.fields then 0
    else
      var d := Depth(t.fields[p[0]], p[1..]);
      assert p[..d + 1][1..] == p[1..][..d];
      assert d + 1 < |p| ==> p[..d + 2][1..] == p[1..][..d + 1];
      1 + d
  }

  /** The bundle has room for `p`: the path is absent, and the deepest value present on the way is
      an object that is the root or has other fields. */
  predicate Room(t: Json, p: Path) {
    var d := Depth(t, p);
    && d < |p|
    && Get(t, p[..d]).value.Obj?
    && (d == 0 || Get(t, p[..d]) != Some(EMPTY))
  }

  /** Deleting what was just stored restores the bundle exactly when there was room for it. */
  lemma {:induction false} DeleteUndoesPut(t: Json, p: Path, v: Json)
    requires p != [] && t.Obj?
    ensures Delete(Put(t, p, v), p) == t <==> Room(t, p)
    decreases p
  {
    var k := p[0];
    var u := Put(t, p, v);
    PutReads(t, p, v);
    if k !in t.fields {
      PutFresh(t, p, v);
    } else if |p| == 1 {
      assert k !in Delete(u, p).fields;
      assert Depth(t, p) == 1;
    } else {
      var child := t.fields[k];
      var below := Step(t, k);
      var d := Depth(child, p[1..]);
      assert p[..d + 1][1..] == p[1..][..d];
      assert Get(t, p[..d + 1]) == Get(child, p[1..][..d]);
      DeleteUndoesPut(below, p[1..], v);
      PutNotEmpty(below, p[1..], v);
      assert u.fields[k] == Put(below, p[1..], v);
      var back := Delete(u.fields[k], p[1..]);
      assert Delete(u, p) == Obj(if back == EMPTY then u.fields - {k} else u.fields[k := back]);
      if child.Obj? {
        assert below == child;
        if back == child && child != EMPTY {
          assert u.fields[k := back] == t.fields;
        }
        if Delete(u, p) == t {
          assert k in Delete(u, p).fields;
          assert back != EMPTY && back == child;
        }
      } else {
        assert d == 0;
        assert Delete(u, p) != t by {
          DeleteKeepsObj(u.fields[k], p[1..]);
        }
      }
    }
  }

  lemma DeleteKeepsObj(t: Json, p: Path)
    requires p != []
    ensures Delete(t, p).Obj? == t.Obj?
  {
  }

  lemma PutNotEmpty(t: Json, p: Path, v: Json)
    requires p != [] && t.Obj?
    ensures Put(t, p, v) != EMPTY
  {
    assert p[0] in Put(t, p, v).fields;
  }

  /** Storing below the empty object makes a single chain of objects, which deletion removes whole. */
  lemma {:induction false} PutFresh(t: Json, p: Path, v: Json)
    requires p != [] && t.Obj? && p[0] !in t.fields
    ensures Delete(Put(t, p, v), p) == t
    decreases p
  {
    var k := p[0];
    var u := Put(t, p, v);
    PutReads(t, p, v);
    if |p| == 1 {
    } else {
      PutFresh(EMPTY, p[1..], v);
      assert Delete(u.fields[k], p[1..]) == EMPTY;
    }
    assert Delete(u, p).fields == u.fields - {k} == t.fields;
  }

  // ---------- leaves determine the bundle ----------

  /** Two bundles without empty objects below the root and with the same terminal values are equal. */
  lemma {:induction false} TerminalsDetermine(t: Json, u: Json)
    requires t.Obj? && u.Obj? && NoEmptyBelow(t) && NoEmptyBelow(u)
    requires forall q: Path :: Terminal(t, q) == Terminal(u, q)
    ensures t == u
    decreases t
  {
    forall k | k in t.fields
      ensures k in u.fields && t.fields[k] == u.fields[k]
    {
      SameField(t, u, k);
    }
    forall k | k in u.fields
      ensures k in t.fields
    {
      var q := SomeTerminal(u, k);
      assert Terminal(t, [k] + q) == Terminal(u, [k] + q);
    }
  }

  lemma {:induction false} SameField(t: Json, u: Json, k: string)
    requires t.Obj? && u.Obj? && NoEmptyBelow(t) && NoEmptyBelow(u)
    requires forall q: Path :: Terminal(t, q) == Terminal(u, q)
    requires k in t.fields
    ensures k in u.fields && t.fields[k] == u.fields[k]
    decreases t, 0
  {
    var q := SomeTerminal(t, k);
    assert Terminal(t, [k] + q) == Terminal(u, [k] + q);
    forall r: Path
      ensures Terminal(t.fields[k], r) == Terminal(u.fields[k], r)
    {
      GetCons(t, k, r);
      GetCons(u, k, r);
      assert Terminal(t, [k] + r) == Terminal(u, [k] + r);
    }
    assert Terminal(t.fields[k], []) == Terminal(u.fields[k], []);
    if t.fields[k].Obj? {
      ChildNoEmpty(t, k);
      ChildNoEmpty(u, k);
      TerminalsDetermine(t.fields[k], u.fields[k]);
    }
  }

  /** Below every field there is a terminal value. */
  lemma {:induction false} SomeTerminal(t: Json, k: string) returns (q: Path)
    requires t.Obj? && NoEmptyBelow(t) && k in t.fields
    ensures Terminal(t, [k] + q).Some?
    ensures Terminal(t.fields[k], q).Some?
    decreases t
  {
    var child := t.fields[k];
    if child.Obj? {
      GetCons(t, k, []);
      assert Get(t, [k] + []) != Some(EMPTY);
      var l :| l in child.fields;
      ChildNoEmpty(t, k);
      var r := SomeTerminal(child, l);
      q := [l] + r;
    } else {
      q := [];
    }
    GetCons(t, k, q);
  }
}
