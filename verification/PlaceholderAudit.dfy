/** The comparison of the placeholders, and what else is checked, of the texts of two locales. */
module PlaceholderAudit {
  import opened Text
  import opened IcuPlaceholders

  /** A left-to-right or right-to-left mark. */
  predicate HasDirectionMark(s: string) {
    '\U{200E}' in s || '\U{200F}' in s
  }

  datatype Mismatch = Mismatch(missing: set<string>, extra: set<string>)

  datatype Findings = Findings(
    mismatches: map<string, Mismatch>, englishLeak: set<string>, empties: set<string>, directionMarks: set<string>)

  predicate Checked(base: map<string, string>, target: map<string, string>, key: string) {
    key in base && key in target && Trim(target[key]) != ""
  }

  predicate Leaks(base: string, target: string, allowed: string -> bool) {
    target == base && |base| > 4 && ' ' in base && !allowed(base)
  }

  /** What the audit owes for one key. */
  ghost predicate Audited(f: Findings, base: map<string, string>, target: map<string, string>, locale: string,
                          allowed: string -> bool, key: string) {
    && (key in f.empties <==> key in base && key in target && Trim(target[key]) == "")
    && (key in f.mismatches <==> Checked(base, target, key) && Extract(base[key]) != Extract(target[key]))
    && (key in f.mismatches ==>
          f.mismatches[key] ==
          Mismatch(Extract(base[key]) - Extract(target[key]), Extract(target[key]) - Extract(base[key])))
    && (key in f.englishLeak <==> Checked(base, target, key) && Leaks(base[key], target[key], allowed))
    && (key in f.directionMarks <==> Checked(base, target, key) && locale == "ar" && HasDirectionMark(target[key]))
  }

  ghost predicate Unreported(f: Findings, key: string) {
    key !in f.empties && key !in f.mismatches && key !in f.englishLeak && key !in f.directionMarks
  }

  /** The findings agree on a key. */
  ghost predicate SameFor(f: Findings, g: Findings, key: string) {
    && (key in f.empties <==> key in g.empties)
    && (key in f.mismatches <==> key in g.mismatches)
    && (key in f.mismatches ==> f.mismatches[key] == g.mismatches[key])
    && (key in f.englishLeak <==> key in g.englishLeak)
    && (key in f.directionMarks <==> key in g.directionMarks)
  }

  /** The loop over the keys of the base locale: a mismatch is reported exactly for the keys whose two
      values name different placeholders. */
  method AuditLocale(base: map<string, string>, target: map<string, string>, locale: string, allowed: string -> bool)
    returns (f: Findings)
    ensures forall key :: Audited(f, base, target, locale, allowed, key)
  {
    f := Findings(map[], {}, {}, {});
    var todo := base.Keys;
    while todo != {}
      invariant todo <= base.Keys
      invariant forall key :: key in todo ==> Unreported(f, key)
      invariant forall key :: key !in todo ==> Audited(f, base, target, locale, allowed, key)
    {
      var key :| key in todo;
      todo := todo - {key};
      ghost var was := f;
      f := AuditKey(f, base, target, locale, allowed, key);
      forall other | other != key
        ensures other in todo ==> Unreported(f, other)
        ensures other !in todo ==> Audited(f, base, target, locale, allowed, other)
      {
        assert SameFor(was, f, other);
      }
    }
  }

  method AuditKey(f: Findings, base: map<string, string>, target: map<string, string>, locale: string,
                  allowed: string -> bool, key: string)
    returns (now: Findings)
    requires key in base && Unreported(f, key)
    ensures Audited(now, base, target, locale, allowed, key)
    ensures forall other | other != key :: SameFor(f, now, other)
  {
    now := f;
    if key !in target {
      return;
    }
    if Trim(target[key]) == "" {
      now := now.(empties := now.empties + {key});
      return;
    }
    var basePh := ExtractPlaceholders(base[key]);
    var targetPh := ExtractPlaceholders(target[key]);
    var missing, extra := basePh - targetPh, targetPh - basePh;
    assert missing == {} && extra == {} <==> basePh == targetPh;
    if missing != {} || extra != {} {
      now := now.(mismatches := now.mismatches[key := Mismatch(missing, extra)]);
    }
    if Leaks(base[key], target[key], allowed) {
      now := now.(englishLeak := now.englishLeak + {key});
    }
    if locale == "ar" && HasDirectionMark(target[key]) {
      now := now.(directionMarks := now.directionMarks + {key});
    }
  }

  /** Of two well-formed messages a mismatch is reported exactly when the names of their groups differ,
      in whatever arrangement the groups stand. */
  lemma SameHeadsNoMismatch(f: Findings, base: map<string, string>, target: map<string, string>, locale: string,
                            allowed: string -> bool, key: string, m: Message, n: Message)
    requires Audited(f, base, target, locale, allowed, key)
    requires Checked(base, target, key) && WellFormed(m) && WellFormed(n)
    requires base[key] == Print(m) && target[key] == Print(n)
    ensures key in f.mismatches <==> Heads(m) != Heads(n)
  {
    ExtractPrinted(m);
    ExtractPrinted(n);
  }
}
