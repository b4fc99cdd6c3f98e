/** Why a payment run is held back: the expired documents, grouped by contractor. */
module PaymentGate {
  import opened Digits
  import opened Sequences
  import opened Wrappers

  // ---------- ids of policy rules ----------

  predicate IsLower(c: char) {
    'a' <= c <= 'z'
  }

  predicate IsNameChar(c: char) {
    IsLower(c) || c == '_' || IsDigit(c)
  }

  /** How far from `i` on all characters pass the test. */
  function Span(s: string, i: nat, ok: char -> bool): (j: nat)
    requires i <= |s|
    ensures i <= j <= |s| && (j < |s| ==> !ok(s[j])) && forall k | i <= k < j :: ok(s[k])
    decreases |s| - i
  {
    if i < |s| && ok(s[i]) then Span(s, i + 1, ok) else i
  }

  /** Where the namespace of an id ends, if it is one: `<jurisdiction>.<name>@v<version>`. */
  function NamespaceEnd(id: string): Option<nat> {
    var dot := Span(id, 0, IsLower);
    if dot == 0 || dot + 1 >= |id| || id[dot] != '.' || !IsLower(id[dot + 1]) then None
    else
      var at := Span(id, dot + 1, IsNameChar);
      if at + 2 >= |id| || id[at] != '@' || id[at + 1] != 'v' || Span(id, at + 2, IsDigit) != |id| then None
      else Some(at)
  }

  datatype Parsed = Parsed(stableNamespace: string, version: nat)

  function ParsePolicyRuleId(id: string): Result<Parsed, string> {
    var end := NamespaceEnd(id);
    if end.None? then Err("Cannot parse policyRuleId: '" + id + "'")
    else
      assert forall c <- id[end.value + 2..] :: IsDigit(c);
      Ok(Parsed(id[..end.value], Number(id[end.value + 2..])))
  }

  ghost predicate AllPass(s: string, ok: char -> bool) {
    forall c <- s :: ok(c)
  }

  ghost predicate IsName(s: string) {
    s != "" && IsLower(s[0]) && AllPass(s, IsNameChar)
  }

  function RuleId(jurisdiction: string, name: string, version: string): string {
    jurisdiction + "." + name + "@v" + version
  }

  lemma {:induction false} SpanIs(s: string, i: nat, j: nat, ok: char -> bool)
    requires i <= j <= |s| && (j < |s| ==> !ok(s[j])) && forall k | i <= k < j :: ok(s[k])
    ensures Span(s, i, ok) == j
    decreases j - i
  {
    if i == j {
    } else {
      SpanIs(s, i + 1, j, ok);
    }
  }

  /** Every well-formed id is read, and gives its parts back. */
  lemma RuleIdIsRead(jurisdiction: string, name: string, version: string)
    requires jurisdiction != "" && AllPass(jurisdiction, IsLower) && IsName(name)
    requires version != "" && AllPass(version, IsDigit)
    ensures ParsePolicyRuleId(RuleId(jurisdiction, name, version)) ==
            Ok(Parsed(jurisdiction + "." + name, Number(version)))
  {
    var id := RuleId(jurisdiction, name, version);
    var dot, at := |jurisdiction|, |jurisdiction| + 1 + |name|;
    RuleIdChars(jurisdiction, name, version);
    NamespaceEndIs(id, dot, at);
  }

  lemma NamespaceEndIs(id: string, dot: nat, at: nat)
    requires 0 < dot && dot + 1 < at && at + 2 < |id|
    requires (forall k | 0 <= k < dot :: IsLower(id[k])) && id[dot] == '.'
    requires (forall k | dot + 1 <= k < at :: IsNameChar(id[k])) && IsLower(id[dot + 1])
    requires id[at] == '@' && id[at + 1] == 'v' && forall k | at + 2 <= k < |id| :: IsDigit(id[k])
    ensures NamespaceEnd(id) == Some(at)
  {
    SpanIs(id, 0, dot, IsLower);
    SpanIs(id, dot + 1, at, IsNameChar);
    SpanIs(id, at + 2, |id|, IsDigit);
  }

  lemma RuleIdChars(jurisdiction: string, name: string, version: string)
    requires AllPass(jurisdiction, IsLower) && IsName(name) && AllPass(version, IsDigit)
    ensures var id, dot := RuleId(jurisdiction, name, version), |jurisdiction|;
            var at := dot + 1 + |name|;
            && |id| == at + 2 + |version|
            && (forall k | 0 <= k < dot :: IsLower(id[k])) && id[dot] == '.'
            && (forall k | dot + 1 <= k < at :: IsNameChar(id[k])) && IsLower(id[dot + 1])
            && id[at] == '@' && id[at + 1] == 'v'
            && (forall k | at + 2 <= k < |id| :: IsDigit(id[k]))
            && id[..at] == jurisdiction + "." + name && id[at + 2..] == version
  {
    var id, dot := RuleId(jurisdiction, name, version), |jurisdiction|;
    var at := dot + 1 + |name|;
    assert forall k | 0 <= k < dot :: id[k] == jurisdiction[k];
    assert forall k | dot + 1 <= k < at :: id[k] == name[k - dot - 1];
    assert forall k | at + 2 <= k < |id| :: id[k] == version[k - at - 2];
  }

  /** And nothing else is read. */
  lemma OnlyRuleIdsAreRead(id: string) returns (jurisdiction: string, name: string, version: string)
    requires ParsePolicyRuleId(id).Ok?
    ensures id == RuleId(jurisdiction, name, version)
    ensures jurisdiction != "" && AllPass(jurisdiction, IsLower) && IsName(name)
    ensures version != "" && AllPass(version, IsDigit)
    ensures ParsePolicyRuleId(id).value.stableNamespace == jurisdiction + "." + name
  {
    var dot := Span(id, 0, IsLower);
    var at := NamespaceEnd(id).value;
    jurisdiction, name, version := id[..dot], id[dot + 1..at], id[at + 2..];
    assert id == id[..dot] + [id[dot]] + id[dot + 1..at] + [id[at], id[at + 1]] + id[at + 2..];
    assert id[..at] == id[..dot] + [id[dot]] + id[dot + 1..at];
  }

  /** The second pattern, which takes the namespace out of an id, can match in only this one way. */
  lemma NamespaceIsOnlySplit(id: string, before: string, version: string)
    requires ParsePolicyRuleId(id).Ok? && id == before + "@v" + version
    requires forall c <- version :: IsDigit(c)
    ensures ParsePolicyRuleId(id).value == Parsed(before, Number(version))
  {
    var dot, at := Span(id, 0, IsLower), NamespaceEnd(id).value;
    assert forall k | 0 <= k < |id| && id[k] == '@' :: k == at;
    assert id[|before|] == '@';
    assert id[..at] == before && id[at + 2..] == version;
  }

  // ---------- reasons ----------

  datatype Item = Item(
    id: string, contractorId: string, policyRuleId: Option<string>, documentType: string,
    expiresAt: Option<string>, expiryJurisdictionTz: Option<string>, displayName: string)

  datatype Reason = Reason(
    itemId: string, policyRuleId: Option<string>, documentTypeLabelKey: string,
    expiredOnDate: Option<string>, jurisdictionTz: string, deepLinkPath: string)

  datatype Group = Group(contractorId: string, contractorName: string, reasons: seq<Reason>)

  const LABELS: string := "Compliance.documentType.compliance-policy-engine."

  function LowerCase(s: string): string {
    seq(|s|, i requires 0 <= i < |s| => if 'A' <= s[i] <= 'Z' then s[i] - 'A' + 'a' else s[i])
  }

  function LabelKey(documentType: string, policyRuleId: Option<string>): Result<string, string> {
    if policyRuleId.Some? && policyRuleId.value != "" then
      match ParsePolicyRuleId(policyRuleId.value)
      case Err(e) => Err(e)
      case Ok(parsed) => Ok(LABELS + parsed.stableNamespace)
    else Ok(LABELS + LowerCase(documentType))
  }

  /** The day of a time in ISO notation. */
  function Day(time: string): string {
    if |time| <= 10 then time else time[..10]
  }

  function ReasonOf(item: Item): Result<Reason, string> {
    match LabelKey(item.documentType, item.policyRuleId)
    case Err(e) => Err(e)
    case Ok(key) =>
      Ok(Reason(item.id, item.policyRuleId, key,
                if item.expiresAt.Some? then Some(Day(item.expiresAt.value)) else None,
                if item.expiryJurisdictionTz.Some? then item.expiryJurisdictionTz.value else "UTC",
                "/contractors/" + item.contractorId + "/compliance#item-" + item.id))
  }

  predicate Readable(item: Item) {
    ReasonOf(item).Ok?
  }

  /** An item stops the whole grouping exactly when it names a rule by something that is no rule id. */
  lemma ReadableIff(item: Item)
    ensures Readable(item) <==>
            item.policyRuleId.None? || item.policyRuleId.value == "" || NamespaceEnd(item.policyRuleId.value).Some?
  {
  }

  // ---------- what the groups are ----------

  /** The contractors of the items, in the order of their first item. */
  function Contractors(items: seq<Item>): seq<string> {
    FirstSeen(items, CONTRACTOR)
  }

  const CONTRACTOR: Item -> string := (item: Item) => item.contractorId

  /** The reasons of a contractor's items, in their order. */
  function ReasonsOf(items: seq<Item>, contractor: string): seq<Reason> {
    if items == [] then []
    else
      var before, last := ReasonsOf(items[..|items| - 1], contractor), items[|items| - 1];
      if last.contractorId == contractor && Readable(last) then before + [ReasonOf(last).value] else before
  }

  /** The name on a contractor's first item. */
  function NameOf(items: seq<Item>, contractor: string): string
    requires contractor in Contractors(items)
  {
    var before := items[..|items| - 1];
    if contractor in Contractors(before) then NameOf(before, contractor) else items[|items| - 1].displayName
  }

  function GroupOf(items: seq<Item>, contractor: string): Group
    requires contractor in Contractors(items)
  {
    Group(contractor, NameOf(items, contractor), ReasonsOf(items, contractor))
  }

  ghost predicate AreGroups(groups: seq<Group>, items: seq<Item>) {
    && |groups| == |Contractors(items)|
    && forall i | 0 <= i < |groups| :: groups[i] == GroupOf(items, Contractors(items)[i])
  }

  ghost predicate AllReadable(items: seq<Item>) {
    forall item <- items :: Readable(item)
  }

  /** The first item that cannot be read stops everything with its error. */
  ghost predicate StoppedBy(items: seq<Item>, i: nat, error: string) {
    && i < |items| && AllReadable(items[..i])
    && ReasonOf(items[i]) == Err(error)
  }

  // ---------- the program ----------

  method GroupPaymentBlockReasons(items: seq<Item>) returns (r: Result<seq<Group>, string>)
    ensures r.Ok? <==> AllReadable(items)
    ensures r.Ok? ==> AreGroups(r.value, items)
    ensures r.Err? ==> exists i :: StoppedBy(items, i, r.error)
  {
    var grouped: map<string, Group> := map[];
    var order: seq<string> := [];
    for i := 0 to |items|
      invariant AllReadable(items[..i])
      invariant Tracks(grouped, order, items[..i])
    {
      var item := items[i];
      var reason := ReasonOf(item);
      assert items[..i + 1] == items[..i] + [item];
      if reason.Err? {
        assert StoppedBy(items, i, reason.error);
        assert item in items && !Readable(item);
        return Err(reason.error);
      }
      AddReason(grouped, order, items, i);
      if item.contractorId !in grouped {
        grouped := grouped[item.contractorId := Group(item.contractorId, item.displayName, [])];
        order := order + [item.contractorId];
      }
      var group := grouped[item.contractorId];
      grouped := grouped[item.contractorId := group.(reasons := group.reasons + [reason.value])];
    }
    assert items[..|items|] == items;
    var groups := seq(|order|, j requires 0 <= j < |order| && order[j] in grouped => grouped[order[j]]);
    return Ok(groups);
  }

  /** The map holds the groups of these items, entered in this order. */
  ghost predicate Tracks(grouped: map<string, Group>, order: seq<string>, items: seq<Item>) {
    && order == Contractors(items)
    && (forall c :: c in grouped <==> c in order)
    && forall c | c in order :: grouped[c] == GroupOf(items, c)
  }

  lemma AddReason(grouped: map<string, Group>, order: seq<string>, items: seq<Item>, i: nat)
    requires i < |items| && Readable(items[i]) && Tracks(grouped, order, items[..i])
    ensures var id, reason := items[i].contractorId, ReasonOf(items[i]).value;
            var group := if id in grouped then grouped[id] else Group(id, items[i].displayName, []);
            Tracks(grouped[id := group.(reasons := group.reasons + [reason])],
                  if id in grouped then order else order + [id], items[..i + 1])
  {
    NextGroups(items, i);
  }

  lemma NextGroups(items: seq<Item>, i: nat)
    requires i < |items| && Readable(items[i])
    ensures var before, now, id, reason := items[..i], items[..i + 1], items[i].contractorId, ReasonOf(items[i]).value;
            var all := Contractors(before);
            && Contractors(now) == (if id in all then all else all + [id])
            && (forall c | c in all && c != id :: GroupOf(now, c) == GroupOf(before, c))
            && (var group := if id in all then GroupOf(before, id) else Group(id, items[i].displayName, []);
                GroupOf(now, id) == group.(reasons := group.reasons + [reason]))
  {
    NextItem(items, i);
    if items[i].contractorId !in Contractors(items[..i]) {
      NoReasonsYet(items[..i], items[i].contractorId);
    }
  }

  lemma NextItem(items: seq<Item>, i: nat)
    requires i < |items| && Readable(items[i])
    ensures var before, now, item := items[..i], items[..i + 1], items[i];
            && Contractors(now) == (if item.contractorId in Contractors(before) then Contractors(before)
                                    else Contractors(before) + [item.contractorId])
            && (forall c | c in Contractors(before) :: NameOf(now, c) == NameOf(before, c))
            && (item.contractorId !in Contractors(before) ==> NameOf(now, item.contractorId) == item.displayName)
            && forall c :: ReasonsOf(now, c) == ReasonsOf(before, c) +
                             if c == item.contractorId then [ReasonOf(item).value] else []
  {
    assert items[..i + 1][..i] == items[..i];
  }

  lemma {:induction false} NoReasonsYet(items: seq<Item>, contractor: string)
    requires contractor !in Contractors(items)
    ensures ReasonsOf(items, contractor) == []
  {
    if items == [] {
    } else {
      NoReasonsYet(items[..|items| - 1], contractor);
    }
  }

  datatype Verdict = Verdict(blocked: bool, wouldBlock: bool, contractorReasons: seq<Group>)

  /** A payment run is blocked, or would be without the switch to enforce it, exactly when there are items. */
  method EvaluatePaymentEligibility(items: seq<Item>, enforce: bool) returns (r: Result<Verdict, string>)
    ensures r.Ok? <==> AllReadable(items)
    ensures r.Ok? ==> AreGroups(r.value.contractorReasons, items)
    ensures r.Ok? ==> !(r.value.blocked && r.value.wouldBlock)
    ensures r.Ok? ==> (r.value.blocked || r.value.wouldBlock <==> items != [])
    ensures r.Ok? && items != [] ==> (r.value.blocked <==> enforce)
  {
    var groups := GroupPaymentBlockReasons(items);
    if groups.Err? {
      return Err(groups.error);
    }
    var contractorReasons := groups.value;
    SomeContractor(items);
    return Ok(Verdict(enforce && |contractorReasons| > 0, !enforce && |contractorReasons| > 0, contractorReasons));
  }

  lemma {:induction false} SomeContractor(items: seq<Item>)
    ensures Contractors(items) == [] <==> items == []
  {
  }

  // ---------- nothing is lost ----------

  lemma ContractorsDistinct(items: seq<Item>)
    ensures Distinct(Contractors(items))
  {
    FirstSeenDistinct(items, CONTRACTOR);
  }

  /** The `j`-th contractor comes in with an item before which exactly the first `j` contractors have come. */
  lemma {:induction false} FirstAppearanceOrder(items: seq<Item>, j: nat) returns (k: nat)
    requires j < |Contractors(items)|
    ensures k < |items| && items[k].contractorId == Contractors(items)[j]
    ensures Contractors(items[..k]) == Contractors(items)[..j]
    ensures NameOf(items, Contractors(items)[j]) == items[k].displayName
  {
    var before := items[..|items| - 1];
    ContractorsDistinct(items);
    if j < |Contractors(before)| {
      k := FirstAppearanceOrder(before, j);
      assert before[..k] == items[..k];
    } else {
      k := |items| - 1;
    }
  }

  /** Every item has its reason in the group of its contractor, right behind those of the contractor's
      earlier items. */
  lemma {:induction false} ReasonInPlace(items: seq<Item>, k: nat)
    requires k < |items| && Readable(items[k])
    ensures var reasons := ReasonsOf(items, items[k].contractorId);
            var n := |ReasonsOf(items[..k], items[k].contractorId)|;
            n < |reasons| && reasons[n] == ReasonOf(items[k]).value
  {
    var before := items[..|items| - 1];
    if k == |items| - 1 {
    } else {
      ReasonInPlace(before, k);
      assert before[..k] == items[..k];
    }
  }

  /** All reasons of these contractors. */
  function AllReasons(items: seq<Item>, contractors: seq<string>): multiset<Reason> {
    if contractors == [] then multiset{}
    else multiset(ReasonsOf(items, contractors[0])) + AllReasons(items, contractors[1..])
  }

  function ReasonsOfItems(items: seq<Item>): multiset<Reason> {
    if items == [] then multiset{}
    else
      var before, last := items[..|items| - 1], items[|items| - 1];
      ReasonsOfItems(before) + if Readable(last) then multiset{ReasonOf(last).value} else multiset{}
  }

  lemma {:induction false} OneMoreReason(items: seq<Item>, contractors: seq<string>)
    requires items != [] && Readable(items[|items| - 1])
    requires forall i, j | 0 <= i < j < |contractors| :: contractors[i] != contractors[j]
    ensures var before, last := items[..|items| - 1], items[|items| - 1];
            AllReasons(items, contractors) == AllReasons(before, contractors) +
              if last.contractorId in contractors then multiset{ReasonOf(last).value} else multiset{}
  {
    if contractors == [] {
    } else {
      OneMoreReason(items, contractors[1..]);
    }
  }

  lemma {:induction false} AllReasonsAppend(items: seq<Item>, contractors: seq<string>, more: string)
    ensures AllReasons(items, contractors + [more]) ==
            AllReasons(items, contractors) + multiset(ReasonsOf(items, more))
  {
    if contractors == [] {
    } else {
      assert (contractors + [more])[1..] == contractors[1..] + [more];
      AllReasonsAppend(items, contractors[1..], more);
    }
  }

  /** The reasons of all groups together are the reasons of all items: none lost, none twice. */
  lemma {:induction false} GroupingConserves(items: seq<Item>)
    requires AllReadable(items)
    ensures AllReasons(items, Contractors(items)) == ReasonsOfItems(items)
    ensures |ReasonsOfItems(items)| == |items|
  {
    if items == [] {
    } else {
      var before, last := items[..|items| - 1], items[|items| - 1];
      GroupingConserves(before);
      ContractorsDistinct(items);
      OneMoreReason(items, Contractors(items));
      if last.contractorId !in Contractors(before) {
        AllReasonsAppend(before, Contractors(before), last.contractorId);
        NoReasonsYet(before, last.contractorId);
      }
    }
  }
}
