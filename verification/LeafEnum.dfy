/** The enumerators of a bundle's dotted leaf keys, and how they agree with looking a key up. */
module LeafEnum {
  import opened JsonTree
  import opened Wrappers
  import opened Sequences
  import opened Text

  /** How an enumerator spells the path `q` below a node it calls `prefix`. */
  function Under(prefix: string, q: Path): string
    decreases q
  {
    if q == [] then prefix else Under(Next(prefix, q[0]), q[1..])
  }

  function Next(prefix: string, k: string): string {
    if prefix == "" then k else prefix + "." + k
  }

  /** The keys of all objects are non-empty and free of dots. */
  ghost predicate Keyed(t: Json) {
    t.Obj? ==> forall k | k in t.fields :: GoodKey(k) && Keyed(t.fields[k])
  }

  predicate GoodKey(k: string) {
    k != "" && Free(k, '.')
  }

  ghost predicate GoodPath(q: Path) {
    forall k <- q :: GoodKey(k)
  }

  /** What `walk` and `leaves` yield: everything but objects and null. */
  ghost predicate Walked(t: Json, q: Path) {
    Terminal(t, q).Some? && Terminal(t, q) != Some(Null)
  }

  /** What `flatten` yields: everything but objects. */
  ghost predicate Flattened(t: Json, q: Path) {
    Terminal(t, q).Some?
  }

  /** The lookup of the coverage audit: a string, a number or a boolean at the dotted key. */
  predicate IsLeaf(root: Json, key: string) {
    var v := Get(root, Split(key, '.'));
    v.Some? && (v.value.Str? || v.value.Num? || v.value.Bool?)
  }

  // ---------- spelling ----------

  lemma {:induction false} UnderIsJoin(prefix: string, q: Path)
    requires GoodPath(q) && q != []
    ensures Under(prefix, q) == if prefix == "" then Join(q, '.') else prefix + "." + Join(q, '.')
    ensures Under(prefix, q) != ""
    decreases q
  {
    assert GoodKey(q[0]);
    if |q| == 1 {
    } else {
      assert forall k <- q[1..] :: k in q;
      UnderIsJoin(Next(prefix, q[0]), q[1..]);
    }
  }

  /** Different paths are spelled differently. */
  lemma UnderInjective(prefix: string, p: Path, q: Path)
    requires GoodPath(p) && GoodPath(q) && Under(prefix, p) == Under(prefix, q)
    ensures p == q
  {
    if p != [] { UnderIsJoin(prefix, p); }
    if q != [] { UnderIsJoin(prefix, q); }
    if p != [] && q != [] {
      var jp, jq := Join(p, '.'), Join(q, '.');
      if prefix != "" {
        assert jp == (prefix + "." + jp)[|prefix| + 1..];
        assert jq == (prefix + "." + jq)[|prefix| + 1..];
      }
      SplitJoin(p, '.');
      SplitJoin(q, '.');
    }
  }

  lemma {:induction false} PresentIsGood(t: Json, q: Path)
    requires Keyed(t) && Has(t, q)
    ensures GoodPath(q)
    decreases q
  {
    if q == [] {
    } else {
      PresentIsGood(t.fields[q[0]], q[1..]);
      assert q == [q[0]] + q[1..];
    }
  }

  // ---------- the enumerators ----------

  /** Depth-first, in whatever order an object lists its fields. */
  method Walk(node: Json, prefix: string) returns (out: seq<string>)
    ensures forall s :: s in out <==> YieldsBelow(node, prefix, s)
    ensures Keyed(node) ==> Distinct(out)
    decreases node
  {
    out := [];
    if node.Null? {
      return;
    }
    if !node.Obj? {
      out := [prefix];
      assert Walked(node, []) && prefix == Under(prefix, []);
      return;
    }
    var todo := node.fields.Keys;
    while todo != {}
      invariant todo <= node.fields.Keys
      invariant forall s :: s in out <==> exists q: Path :: WalkedOutside(node, todo, q) && s == Under(prefix, q)
      invariant Keyed(node) ==> Distinct(out)
    {
      var k :| k in todo;
      var sub := Walk(node.fields[k], Next(prefix, k));
      WalkField(node, prefix, todo, k, out, sub);
      out := out + sub;
      todo := todo - {k};
    }
    assert forall q: Path :: WalkedOutside(node, {}, q) <==> Walked(node, q);
  }

  ghost predicate WalkedOutside(node: Json, todo: set<string>, q: Path) {
    Walked(node, q) && q != [] && q[0] !in todo
  }

  lemma WalkField(node: Json, prefix: string, todo: set<string>, k: string, out: seq<string>, sub: seq<string>)
    requires node.Obj? && k in todo && todo <= node.fields.Keys
    requires forall s :: s in out <==> exists q: Path :: WalkedOutside(node, todo, q) && s == Under(prefix, q)
    requires forall s :: s in sub <==> YieldsBelow(node.fields[k], Next(prefix, k), s)
    ensures forall s :: s in out + sub <==>
                        exists q: Path :: WalkedOutside(node, todo - {k}, q) && s == Under(prefix, q)
    ensures Keyed(node) && Distinct(out) && Distinct(sub) ==> Distinct(out + sub)
  {
    forall s | s in sub
      ensures exists q: Path :: WalkedOutside(node, todo - {k}, q) && q[0] == k && s == Under(prefix, q)
    {
      var r: Path :| Walked(node.fields[k], r) && s == Under(Next(prefix, k), r);
      GetCons(node, k, r);
      assert ([k] + r)[1..] == r;
      assert WalkedOutside(node, todo - {k}, [k] + r) && s == Under(prefix, [k] + r);
    }
    forall s | exists q: Path :: WalkedOutside(node, todo - {k}, q) && s == Under(prefix, q)
      ensures s in out + sub
    {
      var q: Path :| WalkedOutside(node, todo - {k}, q) && s == Under(prefix, q);
      if q[0] == k {
        assert Walked(node.fields[k], q[1..]) && s == Under(Next(prefix, k), q[1..]);
      } else {
        assert WalkedOutside(node, todo, q);
      }
    }
    forall s | s in out
      ensures exists q: Path :: WalkedOutside(node, todo - {k}, q) && s == Under(prefix, q)
    {
      var q: Path :| WalkedOutside(node, todo, q) && s == Under(prefix, q);
      assert WalkedOutside(node, todo - {k}, q);
    }
    if Keyed(node) && Distinct(out) && Distinct(sub) {
      forall s | s in out
        ensures s !in sub
      {
        if s in sub {
          var p: Path :| WalkedOutside(node, todo, p) && s == Under(prefix, p);
          var q: Path :| WalkedOutside(node, todo - {k}, q) && q[0] == k && s == Under(prefix, q);
          PresentIsGood(node, p);
          PresentIsGood(node, q);
          UnderInjective(prefix, p, q);
        }
      }
      forall i, j | 0 <= i < j < |out + sub|
        ensures (out + sub)[i] != (out + sub)[j]
      {
        if i < |out| <= j {
          assert out[i] in out && sub[j - |out|] in sub;
        }
      }
    }
  }

  /** The set of keys of the presence audit. */
  method Flatten(node: Json, prefix: string) returns (out: set<string>)
    ensures forall s :: s in out <==>
                        exists q: Path :: Flattened(node, q) && (q == [] ==> prefix != "") && s == Under(prefix, q)
    decreases node
  {
    out := {};
    if !node.Obj? {
      if prefix != "" {
        out := {prefix};
        assert Flattened(node, []) && prefix == Under(prefix, []);
      }
      return;
    }
    var todo := node.fields.Keys;
    while todo != {}
      invariant todo <= node.fields.Keys
      invariant forall s :: s in out <==> exists q: Path :: FlattenedOutside(node, todo, q) && s == Under(prefix, q)
    {
      var k :| k in todo;
      var v, next := node.fields[k], Next(prefix, k);
      var sub: set<string>;
      if v.Obj? {
        sub := Flatten(v, next);
      } else {
        sub := {next};
        assert Flattened(v, []) && next == Under(next, []);
      }
      FlattenField(node, prefix, todo, k, out, sub);
      out := out + sub;
      todo := todo - {k};
    }
    assert forall q: Path :: FlattenedOutside(node, {}, q) <==> Flattened(node, q);
  }

  ghost predicate FlattenedOutside(node: Json, todo: set<string>, q: Path) {
    Flattened(node, q) && q != [] && q[0] !in todo
  }

  lemma FlattenField(node: Json, prefix: string, todo: set<string>, k: string, out: set<string>, sub: set<string>)
    requires node.Obj? && k in todo && todo <= node.fields.Keys
    requires forall s :: s in out <==> exists q: Path :: FlattenedOutside(node, todo, q) && s == Under(prefix, q)
    requires forall s :: s in sub <==> exists q: Path :: Flattened(node.fields[k], q) && s == Under(Next(prefix, k), q)
    ensures forall s :: s in out + sub <==>
                        exists q: Path :: FlattenedOutside(node, todo - {k}, q) && s == Under(prefix, q)
  {
    forall s | s in sub
      ensures exists q: Path :: FlattenedOutside(node, todo - {k}, q) && s == Under(prefix, q)
    {
      var r: Path :| Flattened(node.fields[k], r) && s == Under(Next(prefix, k), r);
      GetCons(node, k, r);
      assert ([k] + r)[1..] == r;
      assert FlattenedOutside(node, todo - {k}, [k] + r) && s == Under(prefix, [k] + r);
    }
    forall s | s in out
      ensures exists q: Path :: FlattenedOutside(node, todo - {k}, q) && s == Under(prefix, q)
    {
      var q: Path :| FlattenedOutside(node, todo, q) && s == Under(prefix, q);
      assert FlattenedOutside(node, todo - {k}, q);
    }
    forall s | exists q: Path :: FlattenedOutside(node, todo - {k}, q) && s == Under(prefix, q)
      ensures s in out + sub
    {
      var q: Path :| FlattenedOutside(node, todo - {k}, q) && s == Under(prefix, q);
      if q[0] == k {
        assert Flattened(node.fields[k], q[1..]) && s == Under(Next(prefix, k), q[1..]);
      } else {
        assert FlattenedOutside(node, todo, q);
      }
    }
  }

  /** The leaves under a dotted prefix; under the empty prefix, those of the whole bundle. */
  method LeavesUnder(root: Json, prefix: string) returns (out: seq<string>)
    ensures prefix == "" ==> forall s :: s in out <==> Yields(root, s)
    ensures prefix != "" && Keyed(root) && root.Obj? ==>
              forall s :: s in out <==> Yields(root, s) && Split(prefix, '.') <= Split(s, '.')
    ensures Keyed(root) ==> Distinct(out)
  {
    if prefix == "" {
      out := Walk(root, "");
      return;
    }
    var p := Split(prefix, '.');
    var start := Get(root, p);
    out := [];
    if start.Some? {
      out := Walk(start.value, prefix);
    }
    if Keyed(root) {
      if start.Some? { SubtreeKeyed(root, p); }
      if root.Obj? {
        forall s
          ensures s in out <==> Yields(root, s) && p <= Split(s, '.')
        {
          if start.Some? {
            UnderPrefix(root, prefix, s);
            assert s in out <==> YieldsBelow(start.value, prefix, s);
          } else if Yields(root, s) {
            var q := YieldedPath(root, s);
            if p <= q { PrefixPresent(root, p, q); }
          }
        }
      }
    }
  }

  lemma {:induction false} SubtreeKeyed(t: Json, p: Path)
    requires Keyed(t) && Has(t, p)
    ensures Keyed(Get(t, p).value)
    decreases p
  {
    if p == [] {
    } else {
      SubtreeKeyed(t.fields[p[0]], p[1..]);
    }
  }

  /** `walk` yields `s` below a node it calls `prefix`. */
  ghost predicate YieldsBelow(node: Json, prefix: string, s: string) {
    exists q: Path :: Walked(node, q) && s == Under(prefix, q)
  }

  /** `walk` yields `s` from the root. */
  ghost predicate Yields(root: Json, s: string) {
    YieldsBelow(root, "", s)
  }

  lemma YieldedPath(root: Json, s: string) returns (q: Path)
    requires Keyed(root) && root.Obj? && Yields(root, s)
    ensures q == Split(s, '.') && Walked(root, q) && GoodPath(q)
  {
    q :| Walked(root, q) && s == Under("", q);
    PresentIsGood(root, q);
    UnderIsJoin("", q);
    SplitJoin(q, '.');
  }

  lemma UnderPrefix(root: Json, prefix: string, s: string)
    requires Keyed(root) && root.Obj? && prefix != "" && Has(root, Split(prefix, '.'))
    ensures YieldsBelow(Get(root, Split(prefix, '.')).value, prefix, s) <==>
            Yields(root, s) && Split(prefix, '.') <= Split(s, '.')
  {
    var p := Split(prefix, '.');
    var node := Get(root, p).value;
    JoinSplit(prefix, '.');
    PresentIsGood(root, p);
    if YieldsBelow(node, prefix, s) {
      var q: Path :| Walked(node, q) && s == Under(prefix, q);
      GetUnder(root, p, q);
      PresentIsGood(root, p + q);
      assert forall k <- q :: k in p + q;
      UnderIsJoin("", p + q);
      if q == [] {
        assert p + q == p;
      } else {
        UnderIsJoin(prefix, q);
        JoinAppend(p, q, '.');
      }
      SplitJoin(p + q, '.');
      assert Walked(root, p + q) && s == Under("", p + q);
    }
    if Yields(root, s) && p <= Split(s, '.') {
      var r := YieldedPath(root, s);
      var q := r[|p|..];
      assert r == p + q;
      GetUnder(root, p, q);
      assert forall k <- q :: k in r;
      JoinSplit(s, '.');
      if q == [] {
        assert r == p;
      } else {
        UnderIsJoin(prefix, q);
        JoinAppend(p, q, '.');
      }
      assert Walked(node, q) && s == Under(prefix, q);
    }
  }

  // ---------- agreement with lookup ----------

  /** A dotted key is enumerated exactly when looking it up finds a leaf or an array. */
  lemma EnumeratedIffFound(root: Json, s: string)
    requires Keyed(root) && root.Obj?
    ensures Yields(root, s) <==>
            IsLeaf(root, s) || (Has(root, Split(s, '.')) && Get(root, Split(s, '.')).value.Arr?)
  {
    if Yields(root, s) {
      var q := YieldedPath(root, s);
    } else if Has(root, Split(s, '.')) {
      var q := Split(s, '.');
      PresentIsGood(root, q);
      UnderIsJoin("", q);
      JoinSplit(s, '.');
      assert s == Under("", q);
    }
  }

  /** No array occurs as a field value. */
  ghost predicate ArrayFree(root: Json) {
    forall q: Path :: Has(root, q) ==> !Get(root, q).value.Arr?
  }

  lemma EnumeratedIffLeaf(root: Json, s: string)
    requires Keyed(root) && root.Obj? && ArrayFree(root)
    ensures Yields(root, s) <==> IsLeaf(root, s)
  {
    EnumeratedIffFound(root, s);
  }

  ghost predicate NullFree(root: Json) {
    forall q: Path :: Get(root, q) != Some(Null)
  }

  ghost predicate FlattenYields(root: Json, s: string) {
    exists q: Path :: Flattened(root, q) && q != [] && s == Under("", q)
  }

  /** `flatten` and `walk` give the same keys of a bundle exactly when it holds no null. */
  lemma FlattenAgreesIffNullFree(root: Json)
    requires Keyed(root) && root.Obj?
    ensures (forall s :: FlattenYields(root, s) <==> Yields(root, s)) <==> NullFree(root)
  {
    forall s | Yields(root, s)
      ensures FlattenYields(root, s)
    {
      var q: Path :| Walked(root, q) && s == Under("", q);
      assert Flattened(root, q) && q != [];
    }
    if NullFree(root) {
      forall s | FlattenYields(root, s)
        ensures Yields(root, s)
      {
        var q: Path :| Flattened(root, q) && q != [] && s == Under("", q);
        assert Walked(root, q);
      }
    } else {
      var q: Path :| Get(root, q) == Some(Null);
      var s := Under("", q);
      assert Flattened(root, q) && q != [];
      assert FlattenYields(root, s);
      if Yields(root, s) {
        var r: Path :| Walked(root, r) && s == Under("", r);
        PresentIsGood(root, q);
        PresentIsGood(root, r);
        UnderInjective("", q, r);
      }
    }
  }

  // ---------- where the conditions matter ----------

  lemma {:induction false} UnderGoesOn(prefix: string, q: Path)
    requires prefix != "" && q != []
    ensures Under(prefix, q) == prefix + "." + Join(q, '.')
    decreases q
  {
    if |q| == 1 {
      assert Under(prefix, q) == Under(Next(prefix, q[0]), []);
    } else {
      UnderGoesOn(Next(prefix, q[0]), q[1..]);
    }
  }

  lemma UnderIsJoined(q: Path)
    requires q != [] && (|q| == 1 || q[0] != "")
    ensures Under("", q) == Join(q, '.')
  {
    if |q| == 1 {
      assert Under("", q) == Under(Next("", q[0]), []);
    } else {
      UnderGoesOn(q[0], q[1..]);
    }
  }

  lemma {:induction false} NoMoreParts(q: Path)
    requires q != [] && AllFree(q, '.')
    ensures |Split(Under("", q), '.')| <= |q|
    decreases q
  {
    if |q| == 1 || q[0] != "" {
      UnderIsJoined(q);
      SplitJoin(q, '.');
    } else {
      assert forall k <- q[1..] :: k in q;
      NoMoreParts(q[1..]);
    }
  }

  /** The spelling of a path is looked up as that path exactly when no key of it holds a dot and the first
      of several is not empty. */
  lemma UnderReadsBack(q: Path)
    requires q != []
    ensures Split(Under("", q), '.') == q <==> AllFree(q, '.') && (|q| == 1 || q[0] != "")
  {
    JoinSplit(Under("", q), '.');
    if AllFree(q, '.') {
      if |q| == 1 || q[0] != "" {
        UnderIsJoined(q);
        SplitJoin(q, '.');
      } else {
        assert forall k <- q[1..] :: k in q;
        NoMoreParts(q[1..]);
      }
    }
  }

  /** A root that is not an object is enumerated under the empty name, which no lookup finds. */
  lemma TextRootDisagrees(text: string)
    ensures Yields(Str(text), "") && !IsLeaf(Str(text), "")
  {
    assert Walked(Str(text), []) && "" == Under("", []);
  }

  /** A key with a dot is enumerated but not found again. */
  lemma DottedKeyDisagrees(text: string)
    ensures var root := Obj(map["a.b" := Str(text)]); Yields(root, "a.b") && !IsLeaf(root, "a.b")
  {
    var root := Obj(map["a.b" := Str(text)]);
    GetCons(root, "a.b", []);
    assert ["a.b"] + [] == ["a.b"];
    assert Under("", ["a.b"]) == "a.b";
    assert Walked(root, ["a.b"]);
    assert "a.b" == "a" + ['.'] + "b";
    SplitFree("a", '.');
    SplitFree("b", '.');
    SplitAppend("a", "b", '.');
    var q := Split("a.b", '.');
    assert q == ["a", "b"];
    assert |q[0]| != |"a.b"|;
    assert Get(root, q) == None;
  }
}
