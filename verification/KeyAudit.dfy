/** The dead-key audit: every leaf of the base locale gets one class, and the unused ones are
    reported, overall and by namespace. */
module KeyAudit {
  import opened JsonTree
  import opened Wrappers
  import opened Sequences
  import opened Text
  import opened Sorting
  import opened LeafEnum
  import opened KeyPurge

  /** What the scan of the sources found. */
  datatype Refs = Refs(
    staticKeys: set<string>, bareLiterals: set<string>, dynamicPrefixes: set<string>,
    wildcardNamespaces: set<string>, floatingLiterals: set<string>, floatingPrefixes: set<string>)

  datatype Class = UsedStatic | UsedBare | Dynamic | Wildcard | Floating | Unused

  predicate PrefixCovered(key: string, prefixes: set<string>) {
    exists p <- prefixes :: key == p || p + "." <= key
  }

  predicate FloatingCovered(key: string, refs: Refs) {
    || (exists f <- refs.floatingLiterals :: key == f || EndsWith(key, "." + f))
    || (exists p <- refs.floatingPrefixes ::
          key == p || p + "." <= key || Includes(key, "." + p + ".") || EndsWith(key, "." + p))
  }

  /** The class of a leaf: the first test that succeeds. */
  function ClassOf(key: string, refs: Refs): Class {
    if key in refs.staticKeys then UsedStatic
    else if key in refs.bareLiterals then UsedBare
    else if PrefixCovered(key, refs.dynamicPrefixes) then Dynamic
    else if PrefixCovered(key, refs.wildcardNamespaces) then Wildcard
    else if FloatingCovered(key, refs) then Floating
    else Unused
  }

  function Namespace(key: string): string {
    Split(key, '.')[0]
  }

  const NAMESPACE: string -> string := (key: string) => Namespace(key)

  /** The namespaces of the leaves, in the order they first appear. */
  function Namespaces(leaves: seq<string>): seq<string> {
    FirstSeen(leaves, NAMESPACE)
  }

  function IsClass(refs: Refs, c: Class): string -> bool {
    key => ClassOf(key, refs) == c
  }

  function InNamespace(ns: string): string -> bool {
    key => Namespace(key) == ns
  }

  function Count(leaves: seq<string>, keep: string -> bool): nat {
    |Filter(leaves, keep)|
  }

  /** The order of the platform's default string sort. */
  predicate Before(a: string, b: string) {
    a == "" || (b != "" && (a[0] < b[0] || (a[0] == b[0] && Before(a[1..], b[1..]))))
  }

  const BY_NAME: (string, string) -> bool := (a: string, b: string) => Before(a, b)

  datatype Row = Row(ns: string, total: nat, unused: seq<string>)

  const MOST_UNUSED_FIRST: (Row, Row) -> bool := (a: Row, b: Row) => |a.unused| >= |b.unused|

  datatype Report = Report(
    totalLeaves: nat, usedStatic: nat, usedBareLiteral: nat, coveredDynamic: nat, coveredWildcard: nat,
    coveredFloating: nat, unused: seq<string>, perNamespace: seq<Row>)

  /** The report the audit owes for these leaves. */
  ghost predicate Reports(r: Report, leaves: seq<string>, refs: Refs) {
    && r.totalLeaves == |leaves|
    && r.usedStatic == Count(leaves, IsClass(refs, UsedStatic))
    && r.usedBareLiteral == Count(leaves, IsClass(refs, UsedBare))
    && r.coveredDynamic == Count(leaves, IsClass(refs, Dynamic))
    && r.coveredWildcard == Count(leaves, IsClass(refs, Wildcard))
    && r.coveredFloating == Count(leaves, IsClass(refs, Floating))
    && r.unused == Sort(Filter(leaves, IsClass(refs, Unused)), BY_NAME)
    && exists rows :: RowsFor(rows, leaves, r.unused) && r.perNamespace == Sort(rows, MOST_UNUSED_FIRST)
  }

  /** One row for each namespace with a leaf, in the order the namespaces first appear. */
  ghost predicate RowsFor(rows: seq<Row>, leaves: seq<string>, unused: seq<string>) {
    && |rows| == |Namespaces(leaves)|
    && (forall i | 0 <= i < |rows| :: rows[i].ns == Namespaces(leaves)[i])
    && Counted(rows, leaves, unused)
  }

  /** The rows hold what the leaves and the unused keys of their namespaces are. */
  ghost predicate Counted(rows: seq<Row>, leaves: seq<string>, unused: seq<string>) {
    forall i | 0 <= i < |rows| ::
      && rows[i].total == Count(leaves, InNamespace(rows[i].ns))
      && rows[i].unused == Filter(unused, InNamespace(rows[i].ns))
  }

  /** The classification and grouping loops. */
  method Audit(leaves: seq<string>, refs: Refs) returns (r: Report)
    ensures Reports(r, leaves, refs)
  {
    var unused: seq<string> := [];
    var usedStatic, usedBare, dynamic, wildcard, floating := 0, 0, 0, 0, 0;
    for i := 0 to |leaves|
      invariant usedStatic == Count(leaves[..i], IsClass(refs, UsedStatic))
      invariant usedBare == Count(leaves[..i], IsClass(refs, UsedBare))
      invariant dynamic == Count(leaves[..i], IsClass(refs, Dynamic))
      invariant wildcard == Count(leaves[..i], IsClass(refs, Wildcard))
      invariant floating == Count(leaves[..i], IsClass(refs, Floating))
      invariant unused == Filter(leaves[..i], IsClass(refs, Unused))
    {
      var leaf := leaves[i];
      CountNext(leaves, i, refs);
      if leaf in refs.staticKeys {
        usedStatic := usedStatic + 1;
      } else if leaf in refs.bareLiterals {
        usedBare := usedBare + 1;
      } else if PrefixCovered(leaf, refs.dynamicPrefixes) {
        dynamic := dynamic + 1;
      } else if PrefixCovered(leaf, refs.wildcardNamespaces) {
        wildcard := wildcard + 1;
      } else if FloatingCovered(leaf, refs) {
        floating := floating + 1;
      } else {
        unused := unused + [leaf];
      }
    }
    assert leaves[..|leaves|] == leaves;
    SameMembers(unused, BY_NAME);
    FilterMembers(leaves, IsClass(refs, Unused));
    unused := Sort(unused, BY_NAME);
    var rows := Group(leaves, unused);
    r := Report(|leaves|, usedStatic, usedBare, dynamic, wildcard, floating, unused, Sort(rows, MOST_UNUSED_FIRST));
  }

  lemma FilterNext<T>(s: seq<T>, i: nat, keep: T -> bool)
    requires i < |s|
    ensures Filter(s[..i + 1], keep) == Filter(s[..i], keep) + if keep(s[i]) then [s[i]] else []
  {
    assert s[..i + 1] == s[..i] + [s[i]];
    FilterAppend(s[..i], [s[i]], keep);
  }

  lemma CountNext(leaves: seq<string>, i: nat, refs: Refs)
    requires i < |leaves|
    ensures forall c :: Filter(leaves[..i + 1], IsClass(refs, c)) ==
                        Filter(leaves[..i], IsClass(refs, c)) +
                        if ClassOf(leaves[i], refs) == c then [leaves[i]] else []
  {
    forall c
      ensures Filter(leaves[..i + 1], IsClass(refs, c)) ==
              Filter(leaves[..i], IsClass(refs, c)) +
              if ClassOf(leaves[i], refs) == c then [leaves[i]] else []
    {
      FilterNext(leaves, i, IsClass(refs, c));
    }
  }

  /** The position of a namespace among the rows, or their number. */
  function RowOf(rows: seq<Row>, ns: string): (i: nat)
    ensures i <= |rows|
    ensures i < |rows| ==> rows[i].ns == ns
    ensures i == |rows| ==> forall j | 0 <= j < |rows| :: rows[j].ns != ns
  {
    if rows == [] || rows[0].ns == ns then 0 else 1 + RowOf(rows[1..], ns)
  }

  /** The row of `ns` with one more leaf; a new row if it has none yet. */
  function CountLeaf(rows: seq<Row>, ns: string): seq<Row> {
    var at := RowOf(rows, ns);
    if at == |rows| then rows + [Row(ns, 1, [])] else rows[at := rows[at].(total := rows[at].total + 1)]
  }

  /** The row of `ns` with one more unused key, if there is such a row. */
  function AddUnused(rows: seq<Row>, key: string): seq<Row> {
    var at := RowOf(rows, Namespace(key));
    if at == |rows| then rows else rows[at := rows[at].(unused := rows[at].unused + [key])]
  }

  /** Totals by namespace, and then the unused keys added to the row of theirs. */
  method Group(leaves: seq<string>, unused: seq<string>) returns (rows: seq<Row>)
    requires forall key <- unused :: key in leaves
    ensures RowsFor(rows, leaves, unused)
  {
    rows := [];
    for i := 0 to |leaves|
      invariant RowsFor(rows, leaves[..i], [])
    {
      assert leaves[..i + 1] == leaves[..i] + [leaves[i]];
      CountLeafKeeps(rows, leaves[..i], leaves[i]);
      rows := CountLeaf(rows, Namespace(leaves[i]));
    }
    assert leaves[..|leaves|] == leaves;
    for i := 0 to |unused|
      invariant RowsFor(rows, leaves, unused[..i])
    {
      assert unused[..i + 1] == unused[..i] + [unused[i]];
      assert unused[i] in leaves;
      AddUnusedKeeps(rows, leaves, unused[..i], unused[i]);
      rows := AddUnused(rows, unused[i]);
    }
    assert unused[..|unused|] == unused;
  }

  lemma FilterOneMore(seen: seq<string>, key: string, ns: string)
    ensures Filter(seen + [key], InNamespace(ns)) ==
            Filter(seen, InNamespace(ns)) + if Namespace(key) == ns then [key] else []
  {
    FilterAppend(seen, [key], InNamespace(ns));
  }

  lemma CountLeafKeeps(rows: seq<Row>, seen: seq<string>, key: string)
    requires RowsFor(rows, seen, [])
    ensures RowsFor(CountLeaf(rows, Namespace(key)), seen + [key], [])
  {
    var ns := Namespace(key);
    var at, now := RowOf(rows, ns), CountLeaf(rows, ns);
    FirstSeenNext(seen, key, NAMESPACE);
    FirstSeenDistinct(seen, NAMESPACE);
    assert at == |rows| <==> ns !in Namespaces(seen);
    if at == |rows| {
      NoneInNamespace(seen, ns);
    }
    forall i | 0 <= i < |now|
      ensures now[i].total == Count(seen + [key], InNamespace(now[i].ns))
      ensures now[i].unused == Filter([], InNamespace(now[i].ns))
    {
      FilterOneMore(seen, key, now[i].ns);
      assert i != at ==> now[i] == rows[i] && now[i].ns != ns;
    }
  }

  lemma AddUnusedKeeps(rows: seq<Row>, leaves: seq<string>, seen: seq<string>, key: string)
    requires RowsFor(rows, leaves, seen) && key in leaves
    ensures RowsFor(AddUnused(rows, key), leaves, seen + [key])
  {
    var ns := Namespace(key);
    var at, now := RowOf(rows, ns), AddUnused(rows, key);
    FirstSeenAre(leaves, NAMESPACE, ns);
    FirstSeenDistinct(leaves, NAMESPACE);
    assert NAMESPACE(key) == ns && ns in Namespaces(leaves);
    forall i | 0 <= i < |now|
      ensures now[i].ns == rows[i].ns && now[i].total == rows[i].total
      ensures now[i].unused == Filter(seen + [key], InNamespace(now[i].ns))
    {
      FilterOneMore(seen, key, now[i].ns);
      assert i != at ==> now[i] == rows[i] && now[i].ns != ns;
    }
  }

  lemma SomeMember<T>(s: seq<T>)
    ensures s != [] ==> exists x :: x in s
  {
    if s != [] {
      assert s[0] in s;
    }
  }

  lemma NoneInNamespace(leaves: seq<string>, ns: string)
    requires ns !in Namespaces(leaves)
    ensures Filter(leaves, InNamespace(ns)) == []
  {
    SomeMember(Filter(leaves, InNamespace(ns)));
    FilterMembers(leaves, InNamespace(ns));
    FirstSeenAre(leaves, NAMESPACE, ns);
    assert forall key :: NAMESPACE(key) == Namespace(key);
  }

  // ---------- nothing is lost ----------

  /** Every leaf falls in exactly one of the six classes. */
  lemma {:induction false} ClassesPartition(leaves: seq<string>, refs: Refs)
    ensures Count(leaves, IsClass(refs, UsedStatic)) + Count(leaves, IsClass(refs, UsedBare))
            + Count(leaves, IsClass(refs, Dynamic)) + Count(leaves, IsClass(refs, Wildcard))
            + Count(leaves, IsClass(refs, Floating)) + Count(leaves, IsClass(refs, Unused)) == |leaves|
  {
    if leaves == [] {
    } else {
      ClassesPartition(leaves[1..], refs);
    }
  }

  function TotalOf(rows: seq<Row>): nat {
    if rows == [] then 0 else rows[0].total + TotalOf(rows[1..])
  }

  function UnusedOf(rows: seq<Row>): nat {
    if rows == [] then 0 else |rows[0].unused| + UnusedOf(rows[1..])
  }

  function NotIn(ns: string): string -> bool {
    key => Namespace(key) != ns
  }

  lemma {:induction false} SplitCount(s: seq<string>, ns: string)
    ensures Count(s, InNamespace(ns)) + Count(s, NotIn(ns)) == |s|
  {
    if s == [] {
    } else {
      SplitCount(s[1..], ns);
    }
  }

  lemma {:induction false} FilterOther(s: seq<string>, ns: string, other: string)
    requires ns != other
    ensures Filter(Filter(s, NotIn(ns)), InNamespace(other)) == Filter(s, InNamespace(other))
  {
    if s == [] {
    } else {
      FilterOther(s[1..], ns, other);
      if Namespace(s[0]) != ns {
        assert Filter(s, NotIn(ns))[1..] == Filter(s[1..], NotIn(ns));
      }
    }
  }

  /** The rows add up: their totals to the leaves, their unused keys to all unused keys. */
  lemma RowsAddUp(rows: seq<Row>, leaves: seq<string>, unused: seq<string>)
    requires RowsFor(rows, leaves, unused) && forall key <- unused :: key in leaves
    ensures TotalOf(rows) == |leaves| && UnusedOf(rows) == |unused|
  {
    FirstSeenDistinct(leaves, NAMESPACE);
    forall key | key in leaves
      ensures exists i :: 0 <= i < |rows| && rows[i].ns == Namespace(key)
    {
      FirstSeenAre(leaves, NAMESPACE, Namespace(key));
      assert NAMESPACE(key) == Namespace(key);
      var i :| 0 <= i < |rows| && Namespaces(leaves)[i] == Namespace(key);
      assert rows[i].ns == Namespace(key);
    }
    CountedAddUp(rows, leaves, unused);
  }

  /** The rows are of different namespaces, and every leaf has the row of its own. */
  ghost predicate Covering(rows: seq<Row>, leaves: seq<string>) {
    && (forall i, j | 0 <= i < j < |rows| :: rows[i].ns != rows[j].ns)
    && (forall key <- leaves :: exists i :: 0 <= i < |rows| && rows[i].ns == Namespace(key))
  }

  lemma {:induction false} CountedAddUp(rows: seq<Row>, leaves: seq<string>, unused: seq<string>)
    requires Covering(rows, leaves) && Counted(rows, leaves, unused) && forall key <- unused :: key in leaves
    ensures TotalOf(rows) == |leaves| && UnusedOf(rows) == |unused|
    decreases |rows|
  {
    if rows == [] {
      SomeMember(leaves);
      SomeMember(unused);
    } else {
      var ns := rows[0].ns;
      var ls, us := Filter(leaves, NotIn(ns)), Filter(unused, NotIn(ns));
      SplitCount(leaves, ns);
      SplitCount(unused, ns);
      FilterMembers(leaves, NotIn(ns));
      FilterMembers(unused, NotIn(ns));
      var rest := rows[1..];
      forall i | 0 <= i < |rest|
        ensures rest[i].total == Count(ls, InNamespace(rest[i].ns))
        ensures rest[i].unused == Filter(us, InNamespace(rest[i].ns))
      {
        assert rest[i] == rows[i + 1] && rest[i].ns != ns;
        FilterOther(leaves, ns, rest[i].ns);
        FilterOther(unused, ns, rest[i].ns);
      }
      forall key | key in ls
        ensures exists i :: 0 <= i < |rest| && rest[i].ns == Namespace(key)
      {
        var i :| 0 <= i < |rows| && rows[i].ns == Namespace(key);
        assert rest[i - 1].ns == Namespace(key);
      }
      CountedAddUp(rest, ls, us);
    }
  }

  lemma {:induction false} SumsPermute(rows: seq<Row>, leq: (Row, Row) -> bool)
    ensures TotalOf(Sort(rows, leq)) == TotalOf(rows) && UnusedOf(Sort(rows, leq)) == UnusedOf(rows)
  {
    if rows == [] {
    } else {
      SumsPermute(rows[1..], leq);
      SumsInsert(rows[0], Sort(rows[1..], leq), leq);
    }
  }

  lemma {:induction false} SumsInsert(x: Row, rows: seq<Row>, leq: (Row, Row) -> bool)
    ensures TotalOf(Insert(x, rows, leq)) == x.total + TotalOf(rows)
    ensures UnusedOf(Insert(x, rows, leq)) == |x.unused| + UnusedOf(rows)
  {
    if rows == [] || leq(x, rows[0]) {
      assert ([x] + rows)[1..] == rows;
    } else {
      SumsInsert(x, rows[1..], leq);
      assert Insert(x, rows, leq)[1..] == Insert(x, rows[1..], leq);
    }
  }

  /** The counts of a report add up to the leaves, overall and over the namespaces. */
  lemma ReportAddsUp(r: Report, leaves: seq<string>, refs: Refs)
    requires Reports(r, leaves, refs)
    ensures r.usedStatic + r.usedBareLiteral + r.coveredDynamic + r.coveredWildcard + r.coveredFloating + |r.unused|
            == r.totalLeaves == |leaves|
    ensures TotalOf(r.perNamespace) == r.totalLeaves && UnusedOf(r.perNamespace) == |r.unused|
  {
    ClassesPartition(leaves, refs);
    var dead := Filter(leaves, IsClass(refs, Unused));
    SortPermutes(dead, BY_NAME);
    SameMembers(dead, BY_NAME);
    FilterMembers(leaves, IsClass(refs, Unused));
    var rows :| RowsFor(rows, leaves, r.unused) && r.perNamespace == Sort(rows, MOST_UNUSED_FIRST);
    RowsAddUp(rows, leaves, r.unused);
    SumsPermute(rows, MOST_UNUSED_FIRST);
  }

  /** Deleting what an audit reports, in any order, leaves exactly the leaves that are used or
      covered, each with its value. */
  lemma AuditThenDelete(root: Json, leaves: seq<string>, refs: Refs, r: Report, keys: seq<string>, q: Path)
    requires Keyed(root) && root.Obj? && (forall s :: s in leaves <==> Yields(root, s))
    requires Reports(r, leaves, refs) && multiset(keys) == multiset(r.unused)
    ensures Terminal(DeleteAll(root, keys), q) ==
            if Walked(root, q) && ClassOf(Under("", q), refs) == Unused then None else Terminal(root, q)
  {
    DeleteAllTerminals(root, keys, q);
    SameMembers(Filter(leaves, IsClass(refs, Unused)), BY_NAME);
    FilterMembers(leaves, IsClass(refs, Unused));
    forall k
      ensures k in keys <==> Yields(root, k) && ClassOf(k, refs) == Unused
    {
      assert k in keys <==> k in multiset(keys);
      assert k in r.unused <==> k in multiset(r.unused);
    }
    if CoveredBy(q, keys) && Terminal(root, q).Some? {
      var k :| k in keys && Split(k, '.') <= q;
      var p := YieldedPath(root, k);
      PrefixPresent(root, p, q);
      assert p == q;
      UnderIsJoin("", q);
      JoinSplit(k, '.');
    }
    if Walked(root, q) && ClassOf(Under("", q), refs) == Unused {
      var k := Under("", q);
      assert Yields(root, k);
      var p := YieldedPath(root, k);
      PresentIsGood(root, q);
      UnderInjective("", p, q) by {
        UnderIsJoin("", p);
        JoinSplit(k, '.');
      }
      assert CoveredBy(q, keys);
    }
  }

  /** The reported keys are deleted from the bundles of all locales. In any bundle a key that is used or
      covered loses its value exactly when a reported key is spelled by the first parts of its own. */
  lemma UsedKeyLostIff(t: Json, leaves: seq<string>, refs: Refs, r: Report, keys: seq<string>, key: string)
    requires Reports(r, leaves, refs) && multiset(keys) == multiset(r.unused) && ClassOf(key, refs) != Unused
    ensures Terminal(DeleteAll(t, keys), Split(key, '.')) ==
            if exists k <- keys :: Split(k, '.') < Split(key, '.') then None else Terminal(t, Split(key, '.'))
  {
    DeleteAllTerminals(t, keys, Split(key, '.'));
    SameMembers(Filter(leaves, IsClass(refs, Unused)), BY_NAME);
    FilterMembers(leaves, IsClass(refs, Unused));
    forall k | k in keys
      ensures Split(k, '.') != Split(key, '.')
    {
      assert k in multiset(keys) && k in r.unused;
      JoinSplit(k, '.');
      JoinSplit(key, '.');
    }
  }

  lemma {:induction false} DistinctIffOnce(s: seq<string>)
    ensures Distinct(s) <==> forall x :: multiset(s)[x] <= 1
  {
    if s == [] {
    } else {
      var rest := s[1..];
      DistinctIffOnce(rest);
      assert s == [s[0]] + rest;
      if Distinct(s) {
        assert Distinct(rest);
        forall i | 0 <= i < |rest|
          ensures rest[i] != s[0]
        {
          assert s[i + 1] == rest[i];
        }
        assert s[0] !in multiset(rest);
      } else {
        var i, j :| 0 <= i < j < |s| && s[i] == s[j];
        if i == 0 {
          assert rest[j - 1] in rest;
          assert multiset(s)[s[0]] > 1;
        } else {
          assert rest[i - 1] == rest[j - 1];
          assert !Distinct(rest);
          var x :| multiset(rest)[x] > 1;
          assert multiset(s)[x] > 1;
        }
      }
    }
  }

  lemma {:induction false} FilterBelow(s: seq<string>, keep: string -> bool)
    ensures multiset(Filter(s, keep)) <= multiset(s)
  {
    if s == [] {
    } else {
      FilterBelow(s[1..], keep);
      assert s == [s[0]] + s[1..];
    }
  }

  /** Every reported key is found when the keys are deleted, in any order, from the bundle they were
      reported for. */
  lemma ReportedKeysAreFound(root: Json, leaves: seq<string>, refs: Refs, r: Report, keys: seq<string>)
    requires Keyed(root) && root.Obj? && (forall s :: s in leaves <==> Yields(root, s)) && Distinct(leaves)
    requires Reports(r, leaves, refs) && multiset(keys) == multiset(r.unused)
    ensures Hits(root, keys) == |keys|
  {
    var dead := Filter(leaves, IsClass(refs, Unused));
    SortPermutes(dead, BY_NAME);
    FilterBelow(leaves, IsClass(refs, Unused));
    DistinctIffOnce(leaves);
    DistinctIffOnce(keys);
    forall k | k in keys
      ensures Terminal(root, Split(k, '.')).Some?
    {
      assert k in multiset(keys) && k in multiset(leaves);
      var p := YieldedPath(root, k);
    }
    FoundWhereTerminal(root, keys);
  }

  lemma {:induction false} FoundWhereTerminal(t: Json, keys: seq<string>)
    requires Distinct(keys) && forall k <- keys :: Terminal(t, Split(k, '.')).Some?
    ensures Hits(t, keys) == |keys|
    decreases |keys|
  {
    if keys == [] {
    } else {
      var p := Split(keys[0], '.');
      assert keys[0] in keys;
      JoinSplit(keys[0], '.');
      forall i | 0 <= i < |keys[1..]|
        ensures Terminal(Delete(t, p), Split(keys[1..][i], '.')).Some?
      {
        var k := keys[1..][i];
        assert k == keys[i + 1] && k in keys;
        var q := Split(k, '.');
        JoinSplit(k, '.');
        DeleteTerminals(t, p, q);
        if p <= q { PrefixPresent(t, p, q); }
      }
      FoundWhereTerminal(Delete(t, p), keys[1..]);
    }
  }

  // ---------- the order of names ----------

  lemma {:induction false} BeforeTotal(a: string, b: string)
    ensures Before(a, b) || Before(b, a)
    decreases |a|
  {
    if a == "" || b == "" {
    } else {
      BeforeTotal(a[1..], b[1..]);
    }
  }

  lemma {:induction false} BeforeTransitive(a: string, b: string, c: string)
    requires Before(a, b) && Before(b, c)
    ensures Before(a, c)
    decreases |a|
  {
    if a == "" || b == "" || c == "" || !(a[0] == b[0] == c[0]) {
    } else {
      BeforeTransitive(a[1..], b[1..], c[1..]);
    }
  }

  lemma UnusedAreSorted(r: Report, leaves: seq<string>, refs: Refs)
    requires Reports(r, leaves, refs)
    ensures Sorted(r.unused, BY_NAME) && multiset(r.unused) == multiset(Filter(leaves, IsClass(refs, Unused)))
  {
    SortPermutes(Filter(leaves, IsClass(refs, Unused)), BY_NAME);
    forall a, b
      ensures BY_NAME(a, b) || BY_NAME(b, a)
    {
      BeforeTotal(a, b);
    }
    forall a, b, c | BY_NAME(a, b) && BY_NAME(b, c)
      ensures BY_NAME(a, c)
    {
      BeforeTransitive(a, b, c);
    }
    SortSorts(Filter(leaves, IsClass(refs, Unused)), BY_NAME);
  }
}
