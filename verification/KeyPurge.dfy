/** Deleting and storing whole lists of dotted keys. */
module KeyPurge {
  import opened JsonTree
  import opened Wrappers
  import opened Text
  import BundleHeap

  /** The value after deleting the keys one after the other. */
  function DeleteAll(t: Json, keys: seq<string>): Json
    decreases |keys|
  {
    if keys == [] then t else DeleteAll(Delete(t, Split(keys[0], '.')), keys[1..])
  }

  /** How many of the deletions find their key. */
  function Hits(t: Json, keys: seq<string>): nat
    decreases |keys|
  {
    if keys == [] then 0
    else (if Has(t, Split(keys[0], '.')) then 1 else 0) + Hits(Delete(t, Split(keys[0], '.')), keys[1..])
  }

  /** The value after storing the translations one after the other. */
  function PutAll(t: Json, entries: seq<(string, string)>): Json
    requires t.Obj?
    decreases |entries|
  {
    if entries == [] then t else PutAll(Put(t, Split(entries[0].0, '.'), Str(entries[0].1)), entries[1..])
  }

  /** The key loop of the deletion script over one locale. */
  method DeleteKeys(bundle: BundleHeap.Bundle, keys: seq<string>) returns (deleted: nat, missing: nat)
    requires bundle.Valid()
    modifies bundle`tree, bundle.Nodes()
    ensures bundle.Valid() && bundle.tree == DeleteAll(old(bundle.tree), keys)
    ensures deleted == Hits(old(bundle.tree), keys) && deleted + missing == |keys|
  {
    deleted, missing := 0, 0;
    for i := 0 to |keys|
      invariant bundle.Valid() && bundle.Nodes() == old(bundle.Nodes())
      invariant DeleteAll(bundle.tree, keys[i..]) == DeleteAll(old(bundle.tree), keys)
      invariant deleted + Hits(bundle.tree, keys[i..]) == Hits(old(bundle.tree), keys)
      invariant deleted + missing == i
    {
      assert keys[i..][1..] == keys[i + 1..];
      var ok, sample := bundle.DeleteAt(keys[i]);
      if ok {
        deleted := deleted + 1;
      } else {
        missing := missing + 1;
      }
    }
  }

  /** The key loop of the back-fill script over one locale. */
  method ApplyTranslations(bundle: BundleHeap.Bundle, entries: seq<(string, string)>)
    requires bundle.Valid() && bundle.root.Ref?
    modifies bundle`tree, bundle.Nodes()
    ensures bundle.Valid() && old(bundle.tree).Obj? && bundle.tree == PutAll(old(bundle.tree), entries)
  {
    for i := 0 to |entries|
      invariant bundle.Valid() && bundle.root == old(bundle.root)
      invariant fresh(bundle.Nodes() - old(bundle.Nodes()))
      invariant PutAll(bundle.tree, entries[i..]) == PutAll(old(bundle.tree), entries)
    {
      assert entries[i..][1..] == entries[i + 1..];
      bundle.SetDeep(entries[i].0, entries[i].1);
    }
  }

  // ---------- deletion in any order ----------

  lemma DeleteAllStep(t: Json, k: string, rest: seq<string>)
    ensures DeleteAll(t, [k] + rest) == DeleteAll(Delete(t, Split(k, '.')), rest)
  {
    assert ([k] + rest)[1..] == rest;
  }

  lemma DeleteSwap(t: Json, k: string, l: string, rest: seq<string>)
    ensures DeleteAll(t, [k] + ([l] + rest)) == DeleteAll(t, [l] + ([k] + rest))
  {
    var p, q := Split(k, '.'), Split(l, '.');
    DeleteAllStep(t, k, [l] + rest);
    DeleteAllStep(Delete(t, p), l, rest);
    DeleteAllStep(t, l, [k] + rest);
    DeleteAllStep(Delete(t, q), k, rest);
    DeletesCommute(t, p, q);
  }

  function Without<T>(s: seq<T>, i: nat): seq<T>
    requires i < |s|
  {
    s[..i] + s[i + 1..]
  }

  lemma WithoutStep<T>(s: seq<T>, i: nat)
    requires 0 < i < |s|
    ensures s == [s[0]] + s[1..] && s[1..][i - 1] == s[i]
    ensures Without(s, i) == [s[0]] + Without(s[1..], i - 1)
  {
  }

  /** A key may as well be deleted first. */
  lemma {:induction false} DeleteFirst(t: Json, keys: seq<string>, i: nat)
    requires i < |keys|
    ensures DeleteAll(t, keys) == DeleteAll(t, [keys[i]] + Without(keys, i))
    decreases i
  {
    if i == 0 {
      assert [keys[0]] + Without(keys, 0) == keys;
    } else {
      var k, l := keys[0], keys[i];
      var tk, rest := Delete(t, Split(k, '.')), Without(keys[1..], i - 1);
      WithoutStep(keys, i);
      DeleteAllStep(t, k, keys[1..]);
      DeleteFirst(tk, keys[1..], i - 1);
      DeleteAllStep(t, k, [l] + rest);
      DeleteSwap(t, k, l, rest);
    }
  }

  lemma WithoutOne<T>(s: seq<T>, i: nat)
    requires i < |s|
    ensures multiset(Without(s, i)) == multiset(s) - multiset{s[i]}
  {
    assert s == s[..i] + [s[i]] + s[i + 1..];
  }

  /** A list of deletions can be done in any order. */
  lemma {:induction false} DeleteAnyOrder(t: Json, keys: seq<string>, others: seq<string>)
    requires multiset(keys) == multiset(others)
    ensures DeleteAll(t, keys) == DeleteAll(t, others)
    decreases |keys|
  {
    if keys == [] {
      assert |others| == |multiset(others)| == 0;
    } else {
      var k, tail := keys[0], keys[1..];
      var i := Elsewhere(keys, others);
      DeleteFirst(t, others, i);
      DeleteAllStep(t, k, tail);
      DeleteAllStep(t, k, Without(others, i));
      assert keys == [k] + tail;
      DeleteAnyOrder(Delete(t, Split(k, '.')), tail, Without(others, i));
    }
  }

  lemma Elsewhere<T>(s: seq<T>, others: seq<T>) returns (i: nat)
    requires s != [] && multiset(s) == multiset(others)
    ensures i < |others| && others[i] == s[0] && multiset(s[1..]) == multiset(Without(others, i))
  {
    assert s[0] in multiset(others);
    i :| 0 <= i < |others| && others[i] == s[0];
    WithoutOne(others, i);
    WithoutOne(s, 0);
    assert Without(s, 0) == s[1..];
  }

  ghost predicate CoveredBy(q: Path, keys: seq<string>) {
    exists k <- keys :: Split(k, '.') <= q
  }

  /** What is left is exactly what lies neither at nor under a deleted key, unchanged. */
  lemma {:induction false} DeleteAllTerminals(t: Json, keys: seq<string>, q: Path)
    ensures Terminal(DeleteAll(t, keys), q) == if CoveredBy(q, keys) then None else Terminal(t, q)
    decreases |keys|
  {
    if keys == [] {
    } else {
      var p := Split(keys[0], '.');
      DeleteTerminals(t, p, q);
      DeleteAllTerminals(Delete(t, p), keys[1..], q);
      assert keys == [keys[0]] + keys[1..];
      if CoveredBy(q, keys[1..]) {
        var k :| k in keys[1..] && Split(k, '.') <= q;
        assert k in keys;
      }
    }
  }

  lemma {:induction false} DeleteAllKeepsNoEmpty(t: Json, keys: seq<string>)
    requires NoEmptyBelow(t)
    ensures NoEmptyBelow(DeleteAll(t, keys))
    decreases |keys|
  {
    if keys == [] {
    } else {
      DeleteKeepsNoEmpty(t, Split(keys[0], '.'));
      DeleteAllKeepsNoEmpty(Delete(t, Split(keys[0], '.')), keys[1..]);
    }
  }

  // ---------- storing a table of translations ----------

  /** The entry's key is at, above or below `q`. */
  predicate Touches(e: (string, string), q: Path) {
    Comparable(Split(e.0, '.'), q)
  }

  lemma {:induction false} PutAllUntouched(t: Json, entries: seq<(string, string)>, q: Path)
    requires t.Obj? && forall e <- entries :: !Touches(e, q)
    ensures Terminal(PutAll(t, entries), q) == Terminal(t, q)
    decreases |entries|
  {
    if entries == [] {
    } else {
      assert entries[0] in entries;
      PutTerminals(t, Split(entries[0].0, '.'), Str(entries[0].1), q);
      PutAllUntouched(Put(t, Split(entries[0].0, '.'), Str(entries[0].1)), entries[1..], q);
    }
  }

  /** The last entry at, above or below a path decides what is there afterwards. */
  lemma {:induction false} PutAllLast(t: Json, entries: seq<(string, string)>, i: nat, q: Path)
    requires t.Obj? && i < |entries| && Touches(entries[i], q)
    requires forall j | i < j < |entries| :: !Touches(entries[j], q)
    ensures Terminal(PutAll(t, entries), q) ==
            if Split(entries[i].0, '.') == q then Some(Str(entries[i].1)) else None
    decreases |entries|
  {
    var p, v := Split(entries[0].0, '.'), Str(entries[0].1);
    if i == 0 {
      forall e | e in entries[1..]
        ensures !Touches(e, q)
      {
        var j :| 0 <= j < |entries[1..]| && entries[1..][j] == e;
        assert entries[j + 1] == e;
      }
      PutTerminals(t, p, v, q);
      PutAllUntouched(Put(t, p, v), entries[1..], q);
    } else {
      PutAllLast(Put(t, p, v), entries[1..], i - 1, q);
    }
  }

  /** In a table with distinct keys, a translation is readable afterwards exactly when no later key
      lies above or below its own. */
  lemma PutAllReads(t: Json, entries: seq<(string, string)>, i: nat)
    requires t.Obj? && i < |entries|
    requires forall j, k | 0 <= j < k < |entries| :: entries[j].0 != entries[k].0
    ensures Terminal(PutAll(t, entries), Split(entries[i].0, '.')) == Some(Str(entries[i].1)) <==>
            forall j | i < j < |entries| :: !Touches(entries[j], Split(entries[i].0, '.'))
  {
    var q := Split(entries[i].0, '.');
    var last := LastTouch(entries, q, i);
    PutAllLast(t, entries, last, q);
    JoinSplit(entries[i].0, '.');
    JoinSplit(entries[last].0, '.');
  }

  lemma {:induction false} LastTouch(entries: seq<(string, string)>, q: Path, i: nat) returns (last: nat)
    requires i < |entries| && Touches(entries[i], q)
    ensures i <= last < |entries| && Touches(entries[last], q)
    ensures forall j | last < j < |entries| :: !Touches(entries[j], q)
    decreases |entries| - i
  {
    last := i;
    if j :| i < j < |entries| && Touches(entries[j], q) {
      last := LastTouch(entries, q, j);
    }
  }
}
