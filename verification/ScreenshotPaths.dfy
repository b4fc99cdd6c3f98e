/** File names of screenshots and keys of their baselines: building them and parsing them back. */
module ScreenshotPaths {
  import opened Digits
  import opened Wrappers

  // ---------- numbers ----------

  /** At least three digits. */
  function FormatIndex(n: nat): string {
    var s := Decimal(n);
    if |s| == 1 then "00" + s else if |s| == 2 then "0" + s else s
  }

  lemma SmallDecimal(n: nat)
    requires n < 1000
    ensures |Decimal(n)| == if n < 10 then 1 else if n < 100 then 2 else 3
    ensures FormatIndex(n) == [DigitChar(n / 100), DigitChar(n / 10 % 10), DigitChar(n % 10)]
  {
    if n < 10 {
      assert n / 100 == 0 && n / 10 == 0;
    } else if n < 100 {
      assert Decimal(n / 10) == [DigitChar(n / 10)] && n / 100 == 0;
    } else {
      assert Decimal(n / 10) == Decimal(n / 100) + [DigitChar(n / 10 % 10)];
      assert Decimal(n / 100) == [DigitChar(n / 100)];
    }
  }

  lemma {:induction false} LongDecimal(n: nat)
    requires n >= 1000
    ensures |Decimal(n)| > 3 && forall c <- Decimal(n) :: IsDigit(c)
  {
    if n < 10000 {
      SmallDecimal(n / 10);
      DecimalDigits(n / 10);
    } else {
      LongDecimal(n / 10);
    }
  }

  // ---------- names ----------

  /** The line ends that `.` does not match. */
  predicate IsLineEnd(c: char) {
    c == '\n' || c == '\r' || c == '\U{2028}' || c == '\U{2029}'
  }

  predicate OneLine(s: string) {
    forall c <- s :: !IsLineEnd(c)
  }

  const VIEWPORTS: seq<string> := ["mobile", "tablet", "desktop"]
  const THEMES: seq<string> := ["light", "dark"]

  datatype Shot = Shot(routeId: string, viewport: string, theme: string, variant: Option<string>)

  /** What a parsed file name says; without a variant it is the default one. */
  datatype Parsed = Parsed(index: nat, routeId: string, viewport: string, theme: string, variant: string)

  function Suffix(viewport: string, theme: string): string {
    "-" + viewport + "-" + theme
  }

  /** The part of the name for the variant: none for the default one. */
  function VariantPart(variant: Option<string>): string {
    if variant.None? || variant.value == "" || variant.value == "default" then "" else "-" + variant.value
  }

  function BuildScreenshotFilename(index: nat, shot: Shot): string {
    FormatIndex(index) + "-" + shot.routeId + Suffix(shot.viewport, shot.theme) + VariantPart(shot.variant) + ".png"
  }

  function BuildBaselineKey(routeId: string, viewport: string, theme: string): string {
    routeId + Suffix(viewport, theme)
  }

  // ---------- the end of a name ----------

  /** What follows the route: a viewport, a theme and perhaps a variant. */
  datatype Tail = Tail(viewport: string, theme: string, variant: Option<string>)

  /** `t` is this viewport and theme, and then nothing or a variant. */
  predicate TailIs(t: string, viewport: string, theme: string) {
    var p := Suffix(viewport, theme);
    p <= t && (t == p || (t[|p|] == '-' && |t| > |p| + 1 && OneLine(t[|p| + 1..])))
  }

  function TailOf(t: string, viewport: string, theme: string): Tail
    requires TailIs(t, viewport, theme)
  {
    var p := Suffix(viewport, theme);
    Tail(viewport, theme, if t == p then None else Some(t[|p| + 1..]))
  }

  function ParseTail(t: string): Option<Tail> {
    if TailIs(t, "mobile", "light") then Some(TailOf(t, "mobile", "light"))
    else if TailIs(t, "mobile", "dark") then Some(TailOf(t, "mobile", "dark"))
    else if TailIs(t, "tablet", "light") then Some(TailOf(t, "tablet", "light"))
    else if TailIs(t, "tablet", "dark") then Some(TailOf(t, "tablet", "dark"))
    else if TailIs(t, "desktop", "light") then Some(TailOf(t, "desktop", "light"))
    else if TailIs(t, "desktop", "dark") then Some(TailOf(t, "desktop", "dark"))
    else None
  }

  predicate Known(viewport: string, theme: string) {
    viewport in VIEWPORTS && theme in THEMES
  }

  /** A name can end in only one viewport and theme. */
  lemma TailUnique(t: string, viewport: string, theme: string)
    requires Known(viewport, theme) && TailIs(t, viewport, theme)
    ensures ParseTail(t) == Some(TailOf(t, viewport, theme))
  {
    var p := Suffix(viewport, theme);
    assert t[..|p|] == p;
    assert t[1] == viewport[0];
    assert t[2 + |viewport|] == p[2 + |viewport|] == theme[0];
  }

  // ---------- parsing ----------

  /** The largest positive number, at most `k`, that `p` holds of. */
  function LastWhere(k: nat, p: nat -> bool): (n: Option<nat>)
    ensures n.Some? ==> 0 < n.value <= k && p(n.value)
    ensures n.None? ==> forall j | 0 < j <= k :: !p(j)
    ensures n.Some? ==> forall j | n.value < j <= k :: !p(j)
  {
    if k == 0 then None else if p(k) then Some(k) else LastWhere(k - 1, p)
  }

  /** Cut at `k`, the text is a route and a tail. */
  predicate CutsAt(r: string, k: nat) {
    k <= |r| && OneLine(r[..k]) && ParseTail(r[k..]).Some?
  }

  /** The longest route there is. */
  function LastCut(r: string): (cut: Option<nat>)
    ensures cut.Some? ==> 0 < cut.value <= |r| && CutsAt(r, cut.value)
    ensures cut.Some? ==> forall j | cut.value < j <= |r| :: !CutsAt(r, j)
    ensures cut.None? ==> forall j | 0 < j <= |r| :: !CutsAt(r, j)
  {
    var cuts := (k: nat) => CutsAt(r, k);
    assert forall k: nat | CutsAt(r, k) :: cuts(k);
    LastWhere(|r|, cuts)
  }

  function ParseShot(base: string): Option<Parsed> {
    if |base| < 4 || !IsDigit(base[0]) || !IsDigit(base[1]) || !IsDigit(base[2]) || base[3] != '-' then None
    else
      ParseRest(100 * Value(base[0]) + 10 * Value(base[1]) + Value(base[2]), base[4..])
  }

  /** What follows the number. */
  function ParseRest(index: nat, r: string): Option<Parsed> {
    var cut := LastCut(r);
    if cut.None? then None
    else
      var tail := ParseTail(r[cut.value..]).value;
      Some(Parsed(index, r[..cut.value], tail.viewport, tail.theme,
                  if tail.variant.Some? then tail.variant.value else "default"))
  }

  /** Without everything up to the last slash of the first line. */
  function WithoutDirectory(name: string): string {
    AfterSlash(name, FirstLine(name))
  }

  function FirstLine(s: string): (n: nat)
    ensures n <= |s| && OneLine(s[..n])
  {
    if s == "" || IsLineEnd(s[0]) then 0
    else
      assert s[..1 + FirstLine(s[1..])] == [s[0]] + s[1..][..FirstLine(s[1..])];
      1 + FirstLine(s[1..])
  }

  function AfterSlash(s: string, n: nat): string
    requires n <= |s|
  {
    if n == 0 then s else if s[n - 1] == '/' then s[n..] else AfterSlash(s, n - 1)
  }

  predicate IsPng(t: string) {
    |t| == 4 && t[0] == '.' && t[1] in "pP" && t[2] in "nN" && t[3] in "gG"
  }

  function WithoutPng(s: string): string {
    if |s| >= 4 && IsPng(s[|s| - 4..]) then s[..|s| - 4] else s
  }

  function ParseScreenshotFilename(filename: string): Option<Parsed> {
    ParseShot(WithoutPng(WithoutDirectory(filename)))
  }

  /** Cut at `k`, the text is a route and a tail without variant. */
  predicate CutsBareAt(r: string, k: nat) {
    CutsAt(r, k) && ParseTail(r[k..]).value.variant.None?
  }

  function LastBareCut(r: string): (cut: Option<nat>)
    ensures cut.Some? ==> 0 < cut.value <= |r| && CutsBareAt(r, cut.value)
    ensures cut.Some? ==> forall j | cut.value < j <= |r| :: !CutsBareAt(r, j)
    ensures cut.None? ==> forall j | 0 < j <= |r| :: !CutsBareAt(r, j)
  {
    var cuts := (k: nat) => CutsBareAt(r, k);
    assert forall k: nat | CutsBareAt(r, k) :: cuts(k);
    LastWhere(|r|, cuts)
  }

  function ParseBaselineKey(key: string): Option<(string, string, string)> {
    var cut := LastBareCut(key);
    if cut.None? then None
    else
      var tail := ParseTail(key[cut.value..]).value;
      Some((key[..cut.value], tail.viewport, tail.theme))
  }

  // ---------- parsing what was built ----------

  /** No viewport and theme start within a viewport and theme. */
  lemma NoTailInside(t: string, viewport: string, theme: string, k: nat)
    requires Known(viewport, theme) && Suffix(viewport, theme) <= t && 0 < k < |Suffix(viewport, theme)|
    ensures ParseTail(t[k..]).None?
  {
    var p := Suffix(viewport, theme);
    assert t[..|p|] == p;
    var u := t[k..];
    TailStart(u);
    assert u[0] == p[k];
    if k == 1 + |viewport| {
      assert u[1] == p[k + 1] == theme[0] && u[2] == p[k + 2] == theme[1];
    }
  }

  lemma TailStart(u: string)
    ensures ParseTail(u).Some? ==> |u| > 2 && u[0] == '-'
    ensures ParseTail(u).Some? ==> (u[1], u[2]) in {('m', 'o'), ('t', 'a'), ('d', 'e')}
  {
    if ParseTail(u).Some? {
      TailSpelled(u);
    }
  }

  /** The parser finds a viewport and a theme, and perhaps a variant, somewhere in `w`. */
  ghost predicate HasTail(w: string) {
    exists j | 0 <= j <= |w| :: TailAt(w, j)
  }

  predicate TailAt(w: string, j: nat)
    requires j <= |w|
  {
    ParseTail(w[j..]).Some?
  }

  /** Where a built name, without its number, can be cut. */
  lemma BuiltCuts(route: string, viewport: string, theme: string, w: string, k: nat)
    requires Known(viewport, theme) && OneLine(route) && OneLine(w) && (w == "" || (w[0] == '-' && |w| > 1))
    requires |route| <= k
    ensures var p := Suffix(viewport, theme);
            CutsAt(route + p + w, k) <==>
            k == |route| || (|route| + |p| <= k <= |route| + |p| + |w| && TailAt(w, k - |route| - |p|))
  {
    var p := Suffix(viewport, theme);
    if k <= |route + p + w| {
      CutsWhereTail(route, viewport, theme, w, k);
      BehindCut(route, p, w, k);
      if k == |route| {
        BuiltTail(viewport, theme, w);
      } else if k < |route| + |p| {
        NoTailInside(p + w, viewport, theme, k - |route|);
      }
    }
  }

  lemma BehindCut(route: string, p: string, w: string, k: nat)
    requires |route| <= k <= |route + p + w|
    ensures (route + p + w)[k..] == (p + w)[k - |route|..]
    ensures k == |route| ==> (route + p + w)[k..] == p + w
    ensures |route| + |p| <= k ==> (route + p + w)[k..] == w[k - |route| - |p|..]
  {
  }

  lemma CutsWhereTail(route: string, viewport: string, theme: string, w: string, k: nat)
    requires Known(viewport, theme) && OneLine(route) && OneLine(w)
    requires k <= |route + Suffix(viewport, theme) + w|
    ensures var r := route + Suffix(viewport, theme) + w; CutsAt(r, k) <==> ParseTail(r[k..]).Some?
  {
    var r := route + Suffix(viewport, theme) + w;
    BuiltOneLine(route, viewport, theme, w);
    assert forall c <- r[..k] :: c in r;
  }

  lemma BuiltTail(viewport: string, theme: string, w: string)
    requires Known(viewport, theme) && OneLine(w) && (w == "" || (w[0] == '-' && |w| > 1))
    ensures ParseTail(Suffix(viewport, theme) + w) ==
            Some(Tail(viewport, theme, if w == "" then None else Some(w[1..])))
  {
    var p := Suffix(viewport, theme);
    var t := p + w;
    if w == "" {
      assert t == p;
    } else {
      assert t[|p| + 1..] == w[1..];
      assert forall c <- w[1..] :: c in w;
    }
    TailUnique(t, viewport, theme);
  }

  lemma BuiltOneLine(route: string, viewport: string, theme: string, w: string)
    requires Known(viewport, theme) && OneLine(route) && OneLine(w)
    ensures OneLine(route + Suffix(viewport, theme) + w)
  {
    SuffixOneLine(viewport, theme);
  }

  /** The parser cuts a built name where it was put together exactly when the part after the theme
      does not itself hold a viewport and a theme that could end a name. */
  lemma CutIsRight(route: string, viewport: string, theme: string, w: string)
    requires Known(viewport, theme) && route != "" && OneLine(route) && OneLine(w)
    requires w == "" || (w[0] == '-' && |w| > 1)
    ensures var r := route + Suffix(viewport, theme) + w;
            LastCut(r).Some? && (LastCut(r) == Some(|route|) <==> !HasTail(w))
  {
    var p := Suffix(viewport, theme);
    var r := route + p + w;
    BuiltCuts(route, viewport, theme, w, |route|);
    var cut := LastCut(r);
    assert CutsAt(r, |route|);
    BuiltCuts(route, viewport, theme, w, cut.value);
    if HasTail(w) {
      LaterCut(route, viewport, theme, w);
    }
  }

  lemma LaterCut(route: string, viewport: string, theme: string, w: string)
    requires Known(viewport, theme) && OneLine(route) && OneLine(w) && HasTail(w)
    requires w == "" || (w[0] == '-' && |w| > 1)
    ensures var r := route + Suffix(viewport, theme) + w;
            exists k | |route| < k <= |r| :: CutsAt(r, k)
  {
    var j :| 0 <= j <= |w| && TailAt(w, j);
    var k := |route| + |Suffix(viewport, theme)| + j;
    BuiltCuts(route, viewport, theme, w, k);
    ghost var r := route + Suffix(viewport, theme) + w;
    assert |route| < k <= |r| && CutsAt(r, k);
  }

  lemma SuffixOneLine(viewport: string, theme: string)
    requires Known(viewport, theme)
    ensures OneLine(Suffix(viewport, theme)) && '/' !in Suffix(viewport, theme)
  {
    assert forall c <- viewport :: 'a' <= c <= 'z';
    assert forall c <- theme :: 'a' <= c <= 'z';
  }

  // ---------- round trips ----------

  lemma {:induction false} NoSlashNoDirectory(s: string, n: nat)
    requires n <= |s| && '/' !in s
    ensures AfterSlash(s, n) == s
  {
    if n == 0 {
    } else {
      assert s[n - 1] in s;
      NoSlashNoDirectory(s, n - 1);
    }
  }

  function RestOfStem(shot: Shot): string {
    shot.routeId + Suffix(shot.viewport, shot.theme) + VariantPart(shot.variant)
  }

  /** A built name without its extension. */
  function Stem(index: nat, shot: Shot): string {
    FormatIndex(index) + "-" + RestOfStem(shot)
  }

  lemma StemOfBuilt(index: nat, shot: Shot)
    ensures BuildScreenshotFilename(index, shot) == Stem(index, shot) + ".png"
  {
  }

  lemma FormatIndexChars(index: nat)
    ensures forall c <- FormatIndex(index) :: IsDigit(c)
    ensures |FormatIndex(index)| >= 3 && (|FormatIndex(index)| == 3 <==> index < 1000)
  {
    DecimalDigits(index);
    if index < 1000 { SmallDecimal(index); } else { LongDecimal(index); }
  }

  ghost predicate NameSafe(shot: Shot) {
    Known(shot.viewport, shot.theme) && '/' !in shot.routeId && '/' !in VariantPart(shot.variant)
    && OneLine(VariantPart(shot.variant))
  }

  lemma BuiltIsStripped(index: nat, shot: Shot)
    requires NameSafe(shot)
    ensures WithoutPng(WithoutDirectory(BuildScreenshotFilename(index, shot))) == Stem(index, shot)
  {
    var name, stem := BuildScreenshotFilename(index, shot), Stem(index, shot);
    StemOfBuilt(index, shot);
    FormatIndexChars(index);
    SuffixOneLine(shot.viewport, shot.theme);
    assert '/' !in name;
    NoSlashNoDirectory(name, FirstLine(name));
    assert name[|name| - 4..] == ".png" && name[..|name| - 4] == stem;
  }

  /** The variant a built name is read back with. */
  function Shown(variant: Option<string>): string {
    if VariantPart(variant) == "" then "default" else variant.value
  }

  /** Nothing that is read from a name holds a slash or a line end. */
  lemma ParsedClean(name: string, p: Parsed)
    requires ParseScreenshotFilename(name) == Some(p)
    ensures Clean(p.routeId) && Clean(p.variant) && Known(p.viewport, p.theme)
  {
    var base := WithoutPng(WithoutDirectory(name));
    ShotOneLine(base, p);
    ShotKnown(base, p);
    assert base <= WithoutDirectory(name);
    LastLineFree(name, base);
    DefaultClean();
  }

  lemma DefaultClean()
    ensures Clean("default")
  {
    assert forall c <- "default" :: 'a' <= c <= 'z';
  }

  lemma ShotKnown(base: string, p: Parsed)
    requires ParseShot(base) == Some(p)
    ensures Known(p.viewport, p.theme)
  {
    var r := base[4..];
    TailSpelled(r[LastCut(r).value..]);
  }

  lemma ShotOneLine(base: string, p: Parsed)
    requires ParseShot(base) == Some(p)
    ensures OneLine(base) && (forall c <- p.routeId :: c in base)
    ensures p.variant == "default" || forall c <- p.variant :: c in base
  {
    assert ParseRest(p.index, base[4..]) == Some(p);
    RestOneLine(p.index, base[4..]);
    assert base == base[..3] + "-" + base[4..];
    assert forall c <- base[4..] :: c in base;
  }

  predicate Clean(s: string) {
    OneLine(s) && '/' !in s
  }

  lemma RestOneLine(index: nat, r: string)
    requires ParseRest(index, r).Some?
    ensures var p := ParseRest(index, r).value;
            && OneLine(r) && (forall c <- p.routeId :: c in r)
            && (p.variant == "default" || forall c <- p.variant :: c in r)
  {
    var cut := LastCut(r).value;
    var route, t := r[..cut], r[cut..];
    TailOneLine(t);
    assert r == route + t;
    assert forall c <- r :: c in route || c in t;
    assert forall c <- route :: c in r;
    assert forall c <- t :: c in r;
  }

  lemma TailOneLine(t: string)
    requires ParseTail(t).Some?
    ensures OneLine(t)
    ensures var v := ParseTail(t).value.variant; v.None? || forall c <- v.value :: c in t
  {
    var tail := ParseTail(t).value;
    TailSpelled(t);
    SuffixOneLine(tail.viewport, tail.theme);
  }

  /** The first line holds no slash once the directory is gone. */
  lemma LastLineFree(name: string, base: string)
    requires base <= WithoutDirectory(name) && OneLine(base)
    ensures '/' !in base
  {
    var n := FirstLine(name);
    var k := SlashGone(name, n);
    FirstLineEnds(name);
    forall m | k <= m < k + |base|
      ensures !IsLineEnd(name[m])
    {
      assert name[m] == base[m - k];
    }
    forall j | 0 <= j < |base|
      ensures base[j] != '/'
    {
      assert base[j] == name[k + j];
    }
  }

  lemma {:induction false} SlashGone(s: string, n: nat) returns (k: nat)
    requires n <= |s|
    ensures k <= n && AfterSlash(s, n) == s[k..] && forall j | k <= j < n :: s[j] != '/'
    ensures k == 0 || s[k - 1] == '/'
  {
    if n == 0 || s[n - 1] == '/' {
      k := n;
    } else {
      k := SlashGone(s, n - 1);
    }
  }

  lemma {:induction false} FirstLineEnds(s: string)
    ensures FirstLine(s) < |s| ==> IsLineEnd(s[FirstLine(s)])
  {
    if s == "" || IsLineEnd(s[0]) {
    } else {
      FirstLineEnds(s[1..]);
    }
  }

  /** Reading a built name gives back what it was built from exactly when viewport and theme are among
      the known ones, the index has three digits, the route is non-empty, neither route nor variant holds a
      slash or a line end, and the variant does not hold another viewport and theme. */
  lemma ScreenshotRoundTrip(index: nat, shot: Shot)
    ensures ParseScreenshotFilename(BuildScreenshotFilename(index, shot)) ==
            Some(Parsed(index, shot.routeId, shot.viewport, shot.theme, Shown(shot.variant))) <==>
            && Known(shot.viewport, shot.theme) && index < 1000 && shot.routeId != ""
            && Clean(shot.routeId) && Clean(Shown(shot.variant)) && !HasTail(VariantPart(shot.variant))
  {
    var name, w := BuildScreenshotFilename(index, shot), VariantPart(shot.variant);
    var p := Parsed(index, shot.routeId, shot.viewport, shot.theme, Shown(shot.variant));
    if ParseScreenshotFilename(name) == Some(p) {
      ParsedClean(name, p);
    }
    if Known(shot.viewport, shot.theme) && Clean(shot.routeId) && Clean(Shown(shot.variant)) {
      assert w != "" ==> w == "-" + Shown(shot.variant);
      CleanRoundTrip(index, shot);
    }
  }

  lemma CleanRoundTrip(index: nat, shot: Shot)
    requires NameSafe(shot)
    ensures ParseScreenshotFilename(BuildScreenshotFilename(index, shot)) ==
            Some(Parsed(index, shot.routeId, shot.viewport, shot.theme, Shown(shot.variant))) <==>
            index < 1000 && shot.routeId != "" && OneLine(shot.routeId) && !HasTail(VariantPart(shot.variant))
  {
    BuiltIsStripped(index, shot);
    FormatIndexChars(index);
    var base, r := Stem(index, shot), RestOfStem(shot);
    if index < 1000 {
      NumberReadBack(index, r);
      RestRoundTrip(index, shot);
    } else {
      assert base[3] == FormatIndex(index)[3] && IsDigit(base[3]);
    }
  }

  lemma NumberReadBack(index: nat, r: string)
    requires index < 1000
    ensures ParseShot(FormatIndex(index) + "-" + r) == ParseRest(index, r)
  {
    var a, b, c := ThreeDigits(index);
    DigitsRead(a, b, c, r);
  }

  lemma ThreeDigits(index: nat) returns (a: char, b: char, c: char)
    requires index < 1000
    ensures IsDigit(a) && IsDigit(b) && IsDigit(c)
    ensures FormatIndex(index) == [a, b, c] && index == 100 * Value(a) + 10 * Value(b) + Value(c)
  {
    SmallDecimal(index);
    a, b, c := DigitChar(index / 100), DigitChar(index / 10 % 10), DigitChar(index % 10);
    DigitValue(index / 100);
    DigitValue(index / 10 % 10);
    DigitValue(index % 10);
  }

  lemma DigitsRead(a: char, b: char, c: char, r: string)
    requires IsDigit(a) && IsDigit(b) && IsDigit(c)
    ensures ParseShot([a, b, c] + "-" + r) == ParseRest(100 * Value(a) + 10 * Value(b) + Value(c), r)
  {
    BehindNumber([a, b, c] + "-", r);
    ShotIs([a, b, c] + "-" + r, a, b, c, r);
  }

  lemma ShotIs(base: string, a: char, b: char, c: char, r: string)
    requires IsDigit(a) && IsDigit(b) && IsDigit(c) && |base| >= 4
    requires base[0] == a && base[1] == b && base[2] == c && base[3] == '-' && base[4..] == r
    ensures ParseShot(base) == ParseRest(100 * Value(a) + 10 * Value(b) + Value(c), r)
  {
  }

  lemma BehindNumber(number: string, r: string)
    requires |number| == 4
    ensures |number + r| >= 4 && (number + r)[4..] == r && forall i | 0 <= i < 4 :: (number + r)[i] == number[i]
  {
    assert (number + r)[4..] == r;
  }

  lemma RestRoundTrip(index: nat, shot: Shot)
    requires NameSafe(shot)
    ensures ParseRest(index, RestOfStem(shot)) ==
            Some(Parsed(index, shot.routeId, shot.viewport, shot.theme, Shown(shot.variant))) <==>
            shot.routeId != "" && OneLine(shot.routeId) && !HasTail(VariantPart(shot.variant))
  {
    var w, r := VariantPart(shot.variant), RestOfStem(shot);
    var cut := LastCut(r);
    RestOfBuilt(shot.routeId, shot.viewport, shot.theme, w);
    if shot.routeId != "" && OneLine(shot.routeId) {
      CutIsRight(shot.routeId, shot.viewport, shot.theme, w);
      assert cut != Some(|shot.routeId|) ==> |r[..cut.value]| != |shot.routeId|;
      assert w != "" ==> w[1..] == shot.variant.value;
    } else if cut.Some? {
      assert r[..cut.value] != shot.routeId;
    }
  }

  lemma RestOfBuilt(route: string, viewport: string, theme: string, w: string)
    requires Known(viewport, theme) && OneLine(w) && (w == "" || (w[0] == '-' && |w| > 1))
    ensures var r := route + Suffix(viewport, theme) + w;
            r[..|route|] == route &&
            ParseTail(r[|route|..]) == Some(Tail(viewport, theme, if w == "" then None else Some(w[1..])))
  {
    var r := route + Suffix(viewport, theme) + w;
    assert r[|route|..] == Suffix(viewport, theme) + w;
    BuiltTail(viewport, theme, w);
  }

  /** Without a variant nothing can go wrong behind the theme. */
  lemma NoVariantNoTail()
    ensures !HasTail("")
  {
    assert ""[0..] == "";
  }

  /** A variant that looks like a viewport and a theme is taken for them. */
  lemma VariantTakenForViewport()
    ensures HasTail("-mobile-dark")
  {
    var w := "-mobile-dark";
    assert w[0..] == w == Suffix("mobile", "dark");
    TailUnique(w, "mobile", "dark");
    assert TailAt(w, 0);
  }

  lemma BareCutIsRight(route: string, viewport: string, theme: string)
    requires Known(viewport, theme) && route != "" && OneLine(route)
    ensures LastBareCut(BuildBaselineKey(route, viewport, theme)) == Some(|route|)
  {
    var key := BuildBaselineKey(route, viewport, theme);
    assert key == route + Suffix(viewport, theme) + "";
    RestOfBuilt(route, viewport, theme, "");
    BuiltCuts(route, viewport, theme, "", |route|);
    assert CutsBareAt(key, |route|);
    var cut := LastBareCut(key).value;
    BuiltCuts(route, viewport, theme, "", cut);
    NoVariantNoTail();
    assert !TailAt("", 0);
  }

  /** A baseline key is read back exactly when viewport and theme are among the known ones and its route is
      a non-empty line. */
  lemma BaselineRoundTrip(route: string, viewport: string, theme: string)
    ensures ParseBaselineKey(BuildBaselineKey(route, viewport, theme)) == Some((route, viewport, theme)) <==>
            Known(viewport, theme) && route != "" && OneLine(route)
  {
    var key := BuildBaselineKey(route, viewport, theme);
    var cut := LastBareCut(key);
    if Known(viewport, theme) && route != "" && OneLine(route) {
      assert key == route + Suffix(viewport, theme) + "";
      RestOfBuilt(route, viewport, theme, "");
      BareCutIsRight(route, viewport, theme);
    } else if cut.Some? {
      TailSpelled(key[cut.value..]);
    }
  }

  /** Between a directory, if there is one, and an extension, if there is one, `name` has a part from `k`
      to `e`. */
  ghost predicate HasPart(name: string, k: nat, e: nat) {
    k <= e <= |name| && (k == 0 || name[k - 1] == '/') && (e == |name| || IsPng(name[e..]))
  }

  /** Of every name that can be read, what stands between its directory and its extension is the name
      built again from what was read, but for a variant spelled out as `default`, which is left off. */
  lemma ParseThenBuild(name: string, p: Parsed) returns (k: nat, e: nat)
    requires ParseScreenshotFilename(name) == Some(p)
    ensures HasPart(name, k, e)
    ensures var stem := Stem(p.index, Shot(p.routeId, p.viewport, p.theme, Some(p.variant)));
            name[k..e] == stem || (p.variant == "default" && name[k..e] == stem + "-default")
  {
    k, e := StrippedPart(name);
    ShotSpelled(name[k..e], p);
  }

  lemma StrippedPart(name: string) returns (k: nat, e: nat)
    ensures HasPart(name, k, e) && WithoutPng(WithoutDirectory(name)) == name[k..e]
  {
    k := SlashGone(name, FirstLine(name));
    var s := name[k..];
    if |s| >= 4 && IsPng(s[|s| - 4..]) {
      e := |name| - 4;
      assert name[e..] == s[|s| - 4..] && s[..|s| - 4] == name[k..e];
    } else {
      e := |name|;
    }
  }

  lemma ShotSpelled(base: string, p: Parsed)
    requires ParseShot(base) == Some(p)
    ensures var stem := Stem(p.index, Shot(p.routeId, p.viewport, p.theme, Some(p.variant)));
            base == stem || (p.variant == "default" && base == stem + "-default")
  {
    var f, r := base[..3], base[4..];
    assert base == f + "-" + r;
    assert ParseRest(p.index, r) == Some(p);
    assert FormatIndex(p.index) == f by {
      NumberSpelled(base[0], base[1], base[2]);
      assert f == [base[0], base[1], base[2]];
    }
    RestSpelled(p.index, r);
    NumberThenRest(f, r, RestOfStem(Shot(p.routeId, p.viewport, p.theme, Some(p.variant))));
  }

  lemma NumberThenRest(f: string, r: string, rest: string)
    ensures r == rest + "-default" ==> f + "-" + r == f + "-" + rest + "-default"
  {
    assert r == rest + "-default" ==> f + "-" + r == f + "-" + (rest + "-default");
  }

  lemma NumberSpelled(a: char, b: char, c: char)
    requires IsDigit(a) && IsDigit(b) && IsDigit(c)
    ensures FormatIndex(100 * Value(a) + 10 * Value(b) + Value(c)) == [a, b, c]
  {
    var n := 100 * Value(a) + 10 * Value(b) + Value(c);
    SmallDecimal(n);
    assert n / 100 == Value(a) && n / 10 == 10 * Value(a) + Value(b) && n % 10 == Value(c);
  }

  lemma RestSpelled(index: nat, r: string)
    requires ParseRest(index, r).Some?
    ensures var p := ParseRest(index, r).value;
            var rest := RestOfStem(Shot(p.routeId, p.viewport, p.theme, Some(p.variant)));
            p.index == index && (r == rest || (p.variant == "default" && r == rest + "-default"))
  {
    var cut := LastCut(r).value;
    var route, t := r[..cut], r[cut..];
    TailSpelled(t);
    assert r == route + t;
    var tail := ParseTail(t).value;
    RestSpelledFrom(route, tail);
  }

  function Spelling(tail: Tail): string {
    Suffix(tail.viewport, tail.theme) + (if tail.variant.None? then "" else "-" + tail.variant.value)
  }

  lemma RestSpelledFrom(route: string, tail: Tail)
    requires tail.variant.Some? ==> tail.variant.value != ""
    ensures var v := if tail.variant.Some? then tail.variant.value else "default";
            var rest := RestOfStem(Shot(route, tail.viewport, tail.theme, Some(v)));
            route + Spelling(tail) == rest || (v == "default" && route + Spelling(tail) == rest + "-default")
  {
  }

  lemma TailSpelled(t: string)
    requires ParseTail(t).Some?
    ensures var tail := ParseTail(t).value;
            && t == Spelling(tail)
            && Known(tail.viewport, tail.theme)
            && (tail.variant.Some? ==> tail.variant.value != "" && OneLine(tail.variant.value))
  {
    var tail := ParseTail(t).value;
    TailIsSpelled(t, tail.viewport, tail.theme);
  }

  lemma TailIsSpelled(t: string, viewport: string, theme: string)
    requires TailIs(t, viewport, theme)
    ensures var tail := TailOf(t, viewport, theme);
            && t == Spelling(tail)
            && (tail.variant.Some? ==> tail.variant.value != "" && OneLine(tail.variant.value))
  {
    var p := Suffix(viewport, theme);
    if t != p {
      assert t == p + [t[|p|]] + t[|p| + 1..];
    }
  }
}
