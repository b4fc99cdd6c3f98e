/** The numbers given to screenshots: one for each combination of a locale, however often it is asked for. */
module ShotIndexRegistry {
  import opened Digits
  import ScreenshotPaths

  datatype Call = Call(locale: string, key: string)

  /** The keys asked for in a locale, in the order of their first use. */
  ghost function Used(calls: seq<Call>, locale: string): seq<string> {
    if calls == [] then []
    else
      var before, last := Used(calls[..|calls| - 1], locale), calls[|calls| - 1];
      if last.locale == locale && last.key !in before then before + [last.key] else before
  }

  /** Where `key` first stands in `keys`, counted from one. */
  ghost function Position(keys: seq<string>, key: string): nat
    requires key in keys
  {
    if keys[0] == key then 1 else 1 + Position(keys[1..], key)
  }

  ghost predicate Asked(calls: seq<Call>, locale: string, key: string) {
    key in Used(calls, locale)
  }

  /** The number of a combination after some calls. */
  ghost function IndexOf(calls: seq<Call>, locale: string, key: string): nat
    requires Asked(calls, locale, key)
  {
    Position(Used(calls, locale), key)
  }

  class Registry {
    var byLocale: map<string, map<string, nat>>
    var counters: map<string, nat>
    ghost var calls: seq<Call>

    ghost predicate Valid()
      reads this
    {
      Registered(byLocale, counters, calls)
    }

    constructor ()
      ensures Valid() && calls == []
    {
      byLocale, counters, calls := map[], map[], [];
    }

    method GetIndex(locale: string, key: string) returns (index: nat)
      requires Valid()
      modifies this
      ensures Valid()
      ensures calls == old(calls) + [Call(locale, key)]
      ensures Asked(calls, locale, key) && index == IndexOf(calls, locale, key)
    {
      ghost var before, call := calls, Call(locale, key);
      calls := calls + [call];
      var numbers: map<string, nat> := map[];
      if locale in byLocale {
        numbers := byLocale[locale];
      }
      assert RegisteredAt(byLocale, counters, Used(before, locale), locale);
      assert Numbers(numbers, |Used(before, locale)|, Used(before, locale));
      UsedMore(before, call);
      if key in numbers {
        return numbers[key];
      }
      index := (if locale in counters then counters[locale] else 0) + 1;
      NextNumber(numbers, Used(before, locale), key);
      NextRegistered(byLocale, counters, before, call, numbers[key := index], index);
      counters := counters[locale := index];
      byLocale := byLocale[locale := numbers[key := index]];
    }
  }

  /** The maps number the keys asked for in every locale. */
  ghost predicate Registered(
    byLocale: map<string, map<string, nat>>, counters: map<string, nat>, calls: seq<Call>)
  {
    forall locale :: RegisteredAt(byLocale, counters, Used(calls, locale), locale)
  }

  ghost predicate RegisteredAt(
    byLocale: map<string, map<string, nat>>, counters: map<string, nat>, used: seq<string>, locale: string)
  {
    if used == [] then locale !in byLocale && locale !in counters
    else locale in byLocale && locale in counters && Numbers(byLocale[locale], counters[locale], used)
  }

  /** The map numbers the keys from one on, in this order, and the counter is the last number. */
  ghost predicate Numbers(numbers: map<string, nat>, counter: nat, keys: seq<string>) {
    && counter == |keys|
    && (forall key :: key in numbers <==> key in keys)
    && forall key | key in numbers :: numbers[key] == Position(keys, key)
  }

  lemma UsedMore(calls: seq<Call>, call: Call)
    ensures forall locale ::
              Used(calls + [call], locale) ==
              if call.locale == locale && call.key !in Used(calls, locale)
              then Used(calls, locale) + [call.key] else Used(calls, locale)
  {
    assert (calls + [call])[..|calls|] == calls;
  }

  lemma {:induction false} PositionAppend(keys: seq<string>, key: string, more: seq<string>)
    requires key in keys
    ensures Position(keys + more, key) == Position(keys, key)
  {
    assert (keys + more)[0] == keys[0] && (keys + more)[1..] == keys[1..] + more;
    if keys[0] == key {
    } else {
      PositionAppend(keys[1..], key, more);
    }
  }

  lemma {:induction false} PositionLast(keys: seq<string>, key: string)
    requires key !in keys
    ensures Position(keys + [key], key) == |keys| + 1
  {
    if keys == [] {
    } else {
      assert (keys + [key])[0] == keys[0] && (keys + [key])[1..] == keys[1..] + [key];
      PositionLast(keys[1..], key);
    }
  }

  lemma NextNumber(numbers: map<string, nat>, keys: seq<string>, key: string)
    requires Numbers(numbers, |keys|, keys) && key !in numbers
    ensures Numbers(numbers[key := |keys| + 1], |keys| + 1, keys + [key])
    ensures Position(keys + [key], key) == |keys| + 1
  {
    PositionLast(keys, key);
    forall other | other in keys
      ensures Position(keys + [key], other) == Position(keys, other)
    {
      PositionAppend(keys, other, [key]);
    }
  }

  lemma NextRegistered(byLocale: map<string, map<string, nat>>, counters: map<string, nat>,
                       calls: seq<Call>, call: Call, numbers: map<string, nat>, next: nat)
    requires Registered(byLocale, counters, calls)
    requires call.key !in Used(calls, call.locale)
    requires Numbers(numbers, next, Used(calls, call.locale) + [call.key])
    ensures Registered(byLocale[call.locale := numbers], counters[call.locale := next], calls + [call])
  {
    var l, more := call.locale, calls + [call];
    UsedMore(calls, call);
    forall locale
      ensures RegisteredAt(byLocale[l := numbers], counters[l := next], Used(more, locale), locale)
    {
      assert RegisteredAt(byLocale, counters, Used(calls, locale), locale);
    }
  }

  // ---------- over a whole run ----------

  lemma {:induction false} PositionIs(keys: seq<string>, key: string)
    requires key in keys
    ensures 1 <= Position(keys, key) <= |keys| && keys[Position(keys, key) - 1] == key
    ensures forall j | 0 <= j < Position(keys, key) - 1 :: keys[j] != key
  {
    if keys[0] == key {
    } else {
      PositionIs(keys[1..], key);
    }
  }

  lemma {:induction false} UsedDistinct(calls: seq<Call>, locale: string)
    ensures forall i, j | 0 <= i < j < |Used(calls, locale)| :: Used(calls, locale)[i] != Used(calls, locale)[j]
  {
    if calls == [] {
    } else {
      UsedDistinct(calls[..|calls| - 1], locale);
    }
  }

  lemma {:induction false} AskedIffCalled(calls: seq<Call>, locale: string, key: string)
    ensures Asked(calls, locale, key) <==> Call(locale, key) in calls
  {
    if calls == [] {
    } else {
      var before, last := calls[..|calls| - 1], calls[|calls| - 1];
      assert calls == before + [last];
      AskedIffCalled(before, locale, key);
    }
  }

  /** A number once given stays. */
  lemma {:induction false} IndexStable(calls: seq<Call>, more: seq<Call>, locale: string, key: string)
    requires Call(locale, key) in calls
    ensures Asked(calls, locale, key) && Asked(calls + more, locale, key)
    ensures IndexOf(calls + more, locale, key) == IndexOf(calls, locale, key)
  {
    AskedIffCalled(calls, locale, key);
    if more == [] {
      assert calls + more == calls;
    } else {
      var before, last := more[..|more| - 1], more[|more| - 1];
      IndexStable(calls, before, locale, key);
      assert calls + more == (calls + before) + [last];
      UsedMore(calls + before, last);
      PositionAppend(Used(calls + before, locale), key, [last.key]);
    }
  }

  /** Two combinations of a locale never share a number. */
  lemma IndexInjective(calls: seq<Call>, locale: string, a: string, b: string)
    requires Call(locale, a) in calls && Call(locale, b) in calls
    ensures Asked(calls, locale, a) && Asked(calls, locale, b)
    ensures IndexOf(calls, locale, a) == IndexOf(calls, locale, b) <==> a == b
  {
    AskedIffCalled(calls, locale, a);
    AskedIffCalled(calls, locale, b);
    PositionIs(Used(calls, locale), a);
    PositionIs(Used(calls, locale), b);
  }

  /** The numbers given out in a locale are exactly one up to the number of its combinations. */
  lemma IndicesAreConsecutive(calls: seq<Call>, locale: string, n: nat)
    ensures (exists key :: Asked(calls, locale, key) && IndexOf(calls, locale, key) == n) <==>
            1 <= n <= |Used(calls, locale)|
  {
    var used := Used(calls, locale);
    forall key | Asked(calls, locale, key)
      ensures 1 <= IndexOf(calls, locale, key) <= |used|
    {
      PositionIs(used, key);
    }
    if 1 <= n <= |used| {
      var key := used[n - 1];
      PositionIs(used, key);
      UsedDistinct(calls, locale);
      assert Asked(calls, locale, key) && IndexOf(calls, locale, key) == n;
    }
  }

  /** What the `i`-th call of a run answered. */
  ghost function Answer(calls: seq<Call>, i: nat): nat
    requires i < |calls|
    requires Asked(calls[..i + 1], calls[i].locale, calls[i].key)
  {
    IndexOf(calls[..i + 1], calls[i].locale, calls[i].key)
  }

  /** In every run, two calls for one locale got the same answer exactly when they asked for the same
      combination. */
  lemma AnswersTellKeysApart(calls: seq<Call>, i: nat, j: nat)
    requires i < |calls| && j < |calls| && calls[i].locale == calls[j].locale
    ensures Asked(calls[..i + 1], calls[i].locale, calls[i].key)
    ensures Asked(calls[..j + 1], calls[j].locale, calls[j].key)
    ensures Answer(calls, i) == Answer(calls, j) <==> calls[i].key == calls[j].key
  {
    AnswerIsFinal(calls, i);
    AnswerIsFinal(calls, j);
    IndexInjective(calls, calls[i].locale, calls[i].key, calls[j].key);
  }

  lemma AnswerIsFinal(calls: seq<Call>, i: nat)
    requires i < |calls|
    ensures Asked(calls[..i + 1], calls[i].locale, calls[i].key) && Asked(calls, calls[i].locale, calls[i].key)
    ensures Answer(calls, i) == IndexOf(calls, calls[i].locale, calls[i].key)
  {
    assert calls[..i + 1] + calls[i + 1..] == calls;
    assert calls[i] == calls[..i + 1][i];
    IndexStable(calls[..i + 1], calls[i + 1..], calls[i].locale, calls[i].key);
  }

  // ---------- file names ----------

  lemma NumberOfIndex(n: nat)
    ensures forall c <- ScreenshotPaths.FormatIndex(n) :: IsDigit(c)
    ensures Number(ScreenshotPaths.FormatIndex(n)) == n
  {
    var s := Decimal(n);
    NumberOfDecimal(n);
    NumberZero(s);
    NumberZero("0" + s);
    assert "00" + s == "0" + ("0" + s);
  }

  /** Names built with different numbers differ, whatever else they are built from. */
  lemma NamesTellIndicesApart(i: nat, j: nat, a: ScreenshotPaths.Shot, b: ScreenshotPaths.Shot)
    requires ScreenshotPaths.BuildScreenshotFilename(i, a) == ScreenshotPaths.BuildScreenshotFilename(j, b)
    ensures i == j
  {
    NumberOfIndex(i);
    NumberOfIndex(j);
    ScreenshotPaths.StemOfBuilt(i, a);
    ScreenshotPaths.StemOfBuilt(j, b);
    var f, g := ScreenshotPaths.FormatIndex(i), ScreenshotPaths.FormatIndex(j);
    var rf, rg := ScreenshotPaths.RestOfStem(a) + ".png", ScreenshotPaths.RestOfStem(b) + ".png";
    assert f + "-" + rf == ScreenshotPaths.BuildScreenshotFilename(i, a);
    assert g + "-" + rg == ScreenshotPaths.BuildScreenshotFilename(j, b);
    SameNumber(f, g, rf, rg);
  }

  lemma SameNumber(f: string, g: string, rf: string, rg: string)
    requires forall c <- f :: IsDigit(c)
    requires forall c <- g :: IsDigit(c)
    requires f + "-" + rf == g + "-" + rg
    ensures f == g
  {
    NumberNotShorter(f, g, rf, rg);
    NumberNotShorter(g, f, rg, rf);
    assert (f + "-" + rf)[..|f|] == f && (g + "-" + rg)[..|g|] == g;
  }

  lemma NumberNotShorter(f: string, g: string, rf: string, rg: string)
    requires forall c <- g :: IsDigit(c)
    requires f + "-" + rf == g + "-" + rg
    ensures |f| >= |g|
  {
    var s := f + "-" + rf;
    forall k | 0 <= k < |g|
      ensures IsDigit(s[k])
    {
      assert s[k] == (g + "-" + rg)[k] == g[k];
    }
    assert s[|f|] == '-';
  }

  /** No two combinations of a run are ever saved under one name. */
  lemma RunHasNoCollision(calls: seq<Call>, i: nat, j: nat, a: ScreenshotPaths.Shot, b: ScreenshotPaths.Shot)
    requires i < |calls| && j < |calls| && calls[i].locale == calls[j].locale && calls[i].key != calls[j].key
    ensures Asked(calls[..i + 1], calls[i].locale, calls[i].key)
    ensures Asked(calls[..j + 1], calls[j].locale, calls[j].key)
    ensures ScreenshotPaths.BuildScreenshotFilename(Answer(calls, i), a) !=
            ScreenshotPaths.BuildScreenshotFilename(Answer(calls, j), b)
  {
    AnswersTellKeysApart(calls, i, j);
    var m, n := Answer(calls, i), Answer(calls, j);
    if ScreenshotPaths.BuildScreenshotFilename(m, a) == ScreenshotPaths.BuildScreenshotFilename(n, b) {
      NamesTellIndicesApart(m, n, a, b);
    }
  }
}
