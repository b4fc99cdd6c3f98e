/** The list of pricing plans: building and sorting it, cutting it by market, and the cache that overlapping
    calls share. */
module PricingCache {
  import opened Sorting
  import opened Wrappers

  // ---------- plans ----------

  /** In the order in which their names sort. */
  datatype Market = DE | INTL | PL | SA | UAE | UK

  datatype Plan = Plan(id: string, market: Market, sortOrder: int)

  datatype Product = Product(id: string, metadata: map<string, string>)

  datatype Price = Price(id: string, productId: string)

  /** Turning one product and its prices into a plan, or the error this throws. */
  type Builder = (Product, seq<Price>) -> Result<Plan, string>

  function Rank(market: Market): nat {
    match market
    case DE => 0
    case INTL => 1
    case PL => 2
    case SA => 3
    case UAE => 4
    case UK => 5
  }

  /** By market, then by the order within it. */
  predicate Before(a: Plan, b: Plan) {
    if a.market != b.market then Rank(a.market) < Rank(b.market) else a.sortOrder <= b.sortOrder
  }

  predicate LowerOrder(a: Plan, b: Plan) {
    a.sortOrder <= b.sortOrder
  }

  predicate HasTier(product: Product) {
    "tier" in product.metadata && product.metadata["tier"] != ""
  }

  function InMarket(market: Market): Plan -> bool {
    (plan: Plan) => plan.market == market
  }

  /** The plans of all products, or the first error. */
  function BuildAll(products: seq<Product>, prices: seq<Price>, build: Builder): Result<seq<Plan>, string> {
    if products == [] then Ok([])
    else
      var last := |products| - 1;
      match BuildAll(products[..last], prices, build)
      case Err(e) => Err(e)
      case Ok(plans) =>
        match build(products[last], prices)
        case Err(e) => Err(e)
        case Ok(plan) => Ok(plans + [plan])
  }

  /** What a fetch comes to. */
  function Fetched(products: seq<Product>, prices: seq<Price>, build: Builder): Result<seq<Plan>, string> {
    match BuildAll(Filter(products, HasTier), prices, build)
    case Err(e) => Err(e)
    case Ok(plans) => Ok(Sort(plans, Before))
  }

  function FilterByMarket(plans: seq<Plan>, market: Market): seq<Plan> {
    Sort(Filter(plans, InMarket(market)), LowerOrder)
  }

  // ---------- the cache ----------

  datatype Entry = Entry(plans: seq<Plan>, expiresAt: int)

  /** What is answered from the cache, without a fetch. */
  function Hit(cache: Option<Entry>, now: int, forceRefresh: bool): Option<seq<Plan>> {
    if !forceRefresh && cache.Some? && cache.value.expiresAt > now then Some(cache.value.plans) else None
  }

  class Fetcher {
    var cache: Option<Entry>

    constructor ()
      ensures cache == None
    {
      cache := None;
    }

    method ResetPricingCache()
      modifies this
      ensures cache == None
    {
      cache := None;
    }

    /** A call up to the point where it starts to wait. */
    method FetchFromCache(now: int, forceRefresh: bool) returns (plans: Option<seq<Plan>>)
      ensures plans == Hit(cache, now, forceRefresh)
    {
      if !forceRefresh && cache.Some? && cache.value.expiresAt > now {
        return Some(cache.value.plans);
      }
      return None;
    }

    /** The rest of a call that began at `now`, once all products and prices have arrived. */
    method CompleteFetch(listed: seq<Product>, allPrices: seq<Price>, build: Builder, now: int, ttl: int)
      returns (r: Result<seq<Plan>, string>)
      modifies this
      ensures r == Fetched(listed, allPrices, build)
      ensures cache == if r.Ok? then Some(Entry(r.value, now + ttl)) else old(cache)
      ensures cache == Next(State(old(cache), map[0 := Waiting(now, ttl)]),
                            if r.Ok? then Finish(0, r.value) else Fail(0)).cache
    {
      var products: seq<Product> := [];
      for i := 0 to |listed|
        invariant products == Filter(listed[..i], HasTier) && cache == old(cache)
      {
        assert listed[..i + 1] == listed[..i] + [listed[i]];
        FilterAppend(listed[..i], [listed[i]], HasTier);
        if HasTier(listed[i]) {
          products := products + [listed[i]];
        }
      }
      assert listed[..|listed|] == listed;
      if |products| == 0 {
        cache := Some(Entry([], now + ttl));
        return Ok([]);
      }
      var plans: seq<Plan> := [];
      for i := 0 to |products|
        invariant BuildAll(products[..i], allPrices, build) == Ok(plans) && cache == old(cache)
      {
        BuildNext(products, i, allPrices, build);
        var built := build(products[i], allPrices);
        if built.Err? {
          BuildStops(products, i + 1, allPrices, build);
          return Err(built.error);
        }
        plans := plans + [built.value];
      }
      assert products[..|products|] == products;
      plans := Sort(plans, Before);
      cache := Some(Entry(plans, now + ttl));
      return Ok(plans);
    }
  }

  lemma BuildNext(products: seq<Product>, i: nat, prices: seq<Price>, build: Builder)
    requires i < |products|
    ensures BuildAll(products[..i + 1], prices, build) ==
            match BuildAll(products[..i], prices, build)
            case Err(e) => Err(e)
            case Ok(plans) =>
              match build(products[i], prices)
              case Err(e) => Err(e)
              case Ok(plan) => Ok(plans + [plan])
  {
    assert products[..i + 1][..i] == products[..i];
  }

  /** After an error nothing more is built. */
  lemma {:induction false} BuildStops(products: seq<Product>, i: nat, prices: seq<Price>, build: Builder)
    requires i <= |products| && BuildAll(products[..i], prices, build).Err?
    ensures BuildAll(products, prices, build) == BuildAll(products[..i], prices, build)
    decreases |products| - i
  {
    if i < |products| {
      BuildNext(products, i, prices, build);
      BuildStops(products, i + 1, prices, build);
    } else {
      assert products[..i] == products;
    }
  }

  // ---------- overlapping calls ----------

  /** One uninterrupted piece of work: a call begins, and ends at once if the cache answers it; a waiting
      call ends with a list or with an error; the cache is reset. */
  datatype Event =
    | Begin(call: nat, now: int, forceRefresh: bool, ttl: int)
    | Finish(call: nat, plans: seq<Plan>)
    | Fail(call: nat)
    | Reset

  datatype Waiting = Waiting(start: int, ttl: int)

  datatype State = State(cache: Option<Entry>, waiting: map<nat, Waiting>)

  const INITIAL: State := State(None, map[])

  predicate Enabled(s: State, e: Event) {
    match e
    case Begin(call, _, _, _) => call !in s.waiting
    case Finish(call, _) => call in s.waiting
    case Fail(call) => call in s.waiting
    case Reset => true
  }

  function Next(s: State, e: Event): State
    requires Enabled(s, e)
  {
    match e
    case Begin(call, now, forceRefresh, ttl) =>
      if Hit(s.cache, now, forceRefresh).Some? then s
      else s.(waiting := s.waiting[call := Waiting(now, ttl)])
    case Finish(call, plans) =>
      var w := s.waiting[call];
      State(Some(Entry(plans, w.start + w.ttl)), s.waiting - {call})
    case Fail(call) => s.(waiting := s.waiting - {call})
    case Reset => s.(cache := None)
  }

  /** The state after a run, if every event of it could happen. */
  function Run(events: seq<Event>): Option<State> {
    if events == [] then Some(INITIAL)
    else
      var last := |events| - 1;
      var s := Run(events[..last]);
      if s.Some? && Enabled(s.value, events[last]) then Some(Next(s.value, events[last])) else None
  }

  predicate EndsCall(e: Event, call: nat) {
    (e.Finish? || e.Fail?) && e.call == call
  }

  /** At `b` a call began that had to wait and did not end before `n`. */
  ghost predicate BeganAt(events: seq<Event>, b: nat, n: nat, call: nat) {
    && b < n <= |events| && events[b].Begin? && events[b].call == call
    && Run(events[..b]).Some? && Hit(Run(events[..b]).value.cache, events[b].now, events[b].forceRefresh).None?
    && forall k | b < k < n :: !EndsCall(events[k], call)
  }

  /** The last fetch to finish, without a reset since: it began at `b` and finished at `f`. */
  ghost predicate LastFetch(events: seq<Event>, b: nat, f: nat, entry: Entry) {
    && f < |events| && events[f].Finish? && BeganAt(events, b, f, events[f].call)
    && (forall k | f < k < |events| :: !events[k].Finish? && !events[k].Reset?)
    && entry == Entry(events[f].plans, events[b].now + events[b].ttl)
  }

  ghost predicate HasLastFetch(events: seq<Event>, entry: Entry) {
    exists b: nat, f: nat :: LastFetch(events, b, f, entry)
  }

  lemma {:induction false} WaitingBegan(events: seq<Event>, call: nat) returns (b: nat)
    requires Run(events).Some? && call in Run(events).value.waiting
    ensures BeganAt(events, b, |events|, call)
    ensures Run(events).value.waiting[call] == Waiting(events[b].now, events[b].ttl)
  {
    var before, last := events[..|events| - 1], events[|events| - 1];
    if last.Begin? && last.call == call {
      b := |events| - 1;
    } else {
      b := WaitingBegan(before, call);
      assert events[..b] == before[..b];
    }
  }

  lemma {:induction false} StillWaiting(events: seq<Event>, b: nat, call: nat)
    requires Run(events).Some? && BeganAt(events, b, |events|, call)
    ensures var waiting := Run(events).value.waiting;
            call in waiting && waiting[call] == Waiting(events[b].now, events[b].ttl)
  {
    var before := events[..|events| - 1];
    if b == |events| - 1 {
    } else {
      assert before[..b] == events[..b];
      StillWaiting(before, b, call);
    }
  }

  lemma {:induction false} LastFetchIsCached(events: seq<Event>, b: nat, f: nat, entry: Entry)
    requires Run(events).Some? && LastFetch(events, b, f, entry)
    ensures Run(events).value.cache == Some(entry)
  {
    var before := events[..|events| - 1];
    assert before[..b] == events[..b];
    if f == |events| - 1 {
      StillWaiting(before, b, events[f].call);
    } else {
      LastFetchIsCached(before, b, f, entry);
    }
  }

  lemma {:induction false} CachedIsLastFetch(events: seq<Event>) returns (b: nat, f: nat)
    requires Run(events).Some? && Run(events).value.cache.Some?
    ensures LastFetch(events, b, f, Run(events).value.cache.value)
  {
    var before, last := events[..|events| - 1], events[|events| - 1];
    if last.Finish? {
      b := WaitingBegan(before, last.call);
      f := |events| - 1;
    } else {
      b, f := CachedIsLastFetch(before);
    }
    assert events[..b] == before[..b];
  }

  /** In every run the cache holds exactly what the last fetch to finish since the last reset brought. */
  lemma CacheIsLastFetch(events: seq<Event>, entry: Entry)
    requires Run(events).Some?
    ensures Run(events).value.cache == Some(entry) <==> HasLastFetch(events, entry)
  {
    if Run(events).value.cache == Some(entry) {
      var b, f := CachedIsLastFetch(events);
    }
    if HasLastFetch(events, entry) {
      var b: nat, f: nat :| LastFetch(events, b, f, entry);
      LastFetchIsCached(events, b, f, entry);
    }
  }

  /** A call that begins at the end of a run is answered from the cache exactly when it does not force a
      refresh and the last fetch to finish began less than its time to live ago; the answer is its list. */
  lemma HitIsLastFetch(events: seq<Event>, now: int, forceRefresh: bool, plans: seq<Plan>)
    requires Run(events).Some?
    ensures Hit(Run(events).value.cache, now, forceRefresh) == Some(plans) <==>
            !forceRefresh && exists b: nat, f: nat :: FreshAt(events, b, f, now) && plans == events[f].plans
  {
    var cache := Run(events).value.cache;
    if cache.Some? {
      var b, f := CachedIsLastFetch(events);
      assert cache.value.expiresAt > now ==> FreshAt(events, b, f, now);
    }
    if b: nat, f: nat :| FreshAt(events, b, f, now) && plans == events[f].plans {
      LastFetchIsCached(events, b, f, Entry(events[f].plans, events[b].now + events[b].ttl));
    }
  }

  /** The last fetch to finish began at `b`, less than its time to live before `now`. */
  ghost predicate FreshAt(events: seq<Event>, b: nat, f: nat, now: int) {
    && b < |events| && f < |events| && events[b].Begin? && events[f].Finish?
    && LastFetch(events, b, f, Entry(events[f].plans, events[b].now + events[b].ttl))
    && now - events[b].now < events[b].ttl
  }

  /** When two fetches overlap, the one that ends last stays, even if it began first. */
  lemma LateFinishWins(t0: int, ttl0: int, slow: seq<Plan>, t1: int, ttl1: int, quick: seq<Plan>)
    ensures Run([Begin(0, t0, false, ttl0), Begin(1, t1, false, ttl1), Finish(1, quick), Finish(0, slow)]) ==
            Some(State(Some(Entry(slow, t0 + ttl0)), map[]))
  {
    var events := [Begin(0, t0, false, ttl0), Begin(1, t1, false, ttl1), Finish(1, quick), Finish(0, slow)];
    assert events[..3][..2] == [events[0], events[1]];
    assert events[..3] == [events[0], events[1], events[2]];
    assert [events[0], events[1]][..1] == [events[0]] && [events[0]][..0] == [];
    assert Run([events[0]]) == Some(State(None, map[0 := Waiting(t0, ttl0)]));
    assert Run([events[0], events[1]]) == Some(State(None, map[0 := Waiting(t0, ttl0), 1 := Waiting(t1, ttl1)]));
    assert map[0 := Waiting(t0, ttl0), 1 := Waiting(t1, ttl1)] - {1} == map[0 := Waiting(t0, ttl0)];
    assert Run(events[..3]) == Some(State(Some(Entry(quick, t1 + ttl1)), map[0 := Waiting(t0, ttl0)]));
  }

  // ---------- the list and its blocks ----------

  lemma BeforeIsOrder()
    ensures TotalPreorder(Before) && TotalPreorder(LowerOrder)
  {
    assert forall a: Market, b: Market :: Rank(a) == Rank(b) ==> a == b;
  }

  /** The list that is fetched holds exactly the plans that were built, by market and then by their order
      there; plans that tie keep the order of their products. */
  lemma FetchedIsSorted(products: seq<Product>, prices: seq<Price>, build: Builder, keep: Plan -> bool)
    requires Fetched(products, prices, build).Ok?
    ensures var built := BuildAll(Filter(products, HasTier), prices, build);
            var plans := Fetched(products, prices, build).value;
            && built.Ok? && multiset(plans) == multiset(built.value) && Sorted(plans, Before)
            && (Ties(keep, Before) ==> Filter(plans, keep) == Filter(built.value, keep))
  {
    var built := BuildAll(Filter(products, HasTier), prices, build).value;
    BeforeIsOrder();
    SortPermutes(built, Before);
    SortSorts(built, Before);
    if Ties(keep, Before) {
      SortStable(built, Before, keep);
    }
  }

  /** A plan stands in the list for each product with a tier, in their order; one error stops it all. */
  lemma {:induction false} BuiltInOrder(products: seq<Product>, prices: seq<Price>, build: Builder)
    ensures var r := BuildAll(products, prices, build);
            && (r.Ok? <==> forall p <- products :: build(p, prices).Ok?)
            && (r.Ok? ==> |r.value| == |products| &&
                          forall i | 0 <= i < |products| :: build(products[i], prices) == Ok(r.value[i]))
            && (r.Err? ==> exists i | 0 <= i < |products| ::
                  build(products[i], prices) == Err(r.error) && forall j | 0 <= j < i :: build(products[j], prices).Ok?)
  {
    if products == [] {
    } else {
      var before := products[..|products| - 1];
      BuiltInOrder(before, prices, build);
      assert products == before + [products[|products| - 1]];
      assert forall i | 0 <= i < |before| :: before[i] == products[i];
    }
  }

  lemma {:induction false} FilterInsert(plan: Plan, plans: seq<Plan>, market: Market)
    requires Sorted(plans, Before)
    ensures Filter(Insert(plan, plans, Before), InMarket(market)) ==
            if plan.market == market then Insert(plan, Filter(plans, InMarket(market)), LowerOrder)
            else Filter(plans, InMarket(market))
  {
    var keep := InMarket(market);
    assert ([plan] + plans)[1..] == plans;
    if plans != [] && !Before(plan, plans[0]) {
      var rest := Insert(plan, plans[1..], Before);
      FilterInsert(plan, plans[1..], market);
      assert ([plans[0]] + rest)[1..] == rest;
      var kept := Filter(plans[1..], keep);
      assert ([plans[0]] + kept)[1..] == kept;
    } else if plan.market == market {
      FilterMembers(plans, keep);
      var kept := Filter(plans, keep);
      assert kept != [] ==> kept[0] in plans;
    }
  }

  /** Cutting the sorted list by market is cutting the plans as they were built: the two sorts agree. */
  lemma {:induction false} FilterOfSorted(plans: seq<Plan>, market: Market)
    ensures Filter(Sort(plans, Before), InMarket(market)) == FilterByMarket(plans, market)
  {
    if plans == [] {
    } else {
      FilterOfSorted(plans[1..], market);
      BeforeIsOrder();
      SortSorts(plans[1..], Before);
      FilterInsert(plans[0], Sort(plans[1..], Before), market);
      var kept := Filter(plans[1..], InMarket(market));
      assert ([plans[0]] + kept)[1..] == kept;
    }
  }

  /** How many plans of a sorted list stand in markets before the given rank. */
  function Below(plans: seq<Plan>, rank: nat): (n: nat)
    ensures n <= |plans|
  {
    if plans == [] || Rank(plans[|plans| - 1].market) < rank then |plans|
    else Below(plans[..|plans| - 1], rank)
  }

  lemma {:induction false} BelowIs(plans: seq<Plan>, rank: nat)
    requires Sorted(plans, Before)
    ensures forall k | 0 <= k < |plans| :: Rank(plans[k].market) < rank <==> k < Below(plans, rank)
    ensures Below(plans, rank) <= Below(plans, rank + 1)
    ensures Below(plans, 0) == 0 && Below(plans, 6) == |plans|
  {
    if plans == [] {
    } else {
      BelowIs(plans[..|plans| - 1], rank);
    }
  }

  /** On a sorted list the plans of a market are one block, cut out as it stands. */
  lemma MarketIsBlock(plans: seq<Plan>, market: Market)
    requires Sorted(plans, Before)
    ensures var i, j := Below(plans, Rank(market)), Below(plans, Rank(market) + 1);
            && i <= j <= |plans| && FilterByMarket(plans, market) == plans[i..j]
            && forall k | 0 <= k < |plans| :: plans[k].market == market <==> i <= k < j
  {
    var i, j := Below(plans, Rank(market)), Below(plans, Rank(market) + 1);
    MarketBounds(plans, market);
    FilterBlock(plans, InMarket(market), i, j);
    BlockIsSorted(plans, market, i, j);
    SortedIsFixed(plans[i..j], LowerOrder);
  }

  lemma MarketBounds(plans: seq<Plan>, market: Market)
    requires Sorted(plans, Before)
    ensures var i, j := Below(plans, Rank(market)), Below(plans, Rank(market) + 1);
            && i <= j <= |plans|
            && forall k | 0 <= k < |plans| :: plans[k].market == market <==> i <= k < j
  {
    BelowIs(plans, Rank(market));
    BelowIs(plans, Rank(market) + 1);
    assert forall a: Market, b: Market :: Rank(a) == Rank(b) ==> a == b;
  }

  lemma BlockIsSorted(plans: seq<Plan>, market: Market, i: nat, j: nat)
    requires i <= j <= |plans| && Sorted(plans, Before)
    requires forall k | i <= k < j :: plans[k].market == market
    ensures Sorted(plans[i..j], LowerOrder)
  {
    forall m, n | 0 <= m < n < j - i
      ensures LowerOrder(plans[i..j][m], plans[i..j][n])
    {
      assert Before(plans[i + m], plans[i + n]);
    }
  }

  lemma FilterBlock<T>(s: seq<T>, keep: T -> bool, i: nat, j: nat)
    requires i <= j <= |s| && forall k | 0 <= k < |s| :: keep(s[k]) <==> i <= k < j
    ensures Filter(s, keep) == s[i..j]
  {
    FilterNone(s[..i], keep);
    FilterEvery(s[i..j], keep);
    FilterNone(s[j..], keep);
    ThreeParts(s, i, j);
    FilterThree(s[..i], s[i..j], s[j..], keep);
  }

  lemma ThreeParts<T>(s: seq<T>, i: nat, j: nat)
    requires i <= j <= |s|
    ensures s == s[..i] + (s[i..j] + s[j..])
  {
  }

  lemma FilterThree<T>(a: seq<T>, b: seq<T>, c: seq<T>, keep: T -> bool)
    ensures Filter(a + (b + c), keep) == Filter(a, keep) + (Filter(b, keep) + Filter(c, keep))
  {
    FilterAppend(a, b + c, keep);
    FilterAppend(b, c, keep);
  }

  lemma {:induction false} FilterNone<T>(s: seq<T>, keep: T -> bool)
    requires forall x <- s :: !keep(x)
    ensures Filter(s, keep) == []
  {
    if s == [] {
    } else {
      FilterNone(s[1..], keep);
    }
  }

  lemma {:induction false} FilterEvery<T>(s: seq<T>, keep: T -> bool)
    requires forall x <- s :: keep(x)
    ensures Filter(s, keep) == s
  {
    if s == [] {
    } else {
      FilterEvery(s[1..], keep);
    }
  }

  function MarketAt(rank: nat): (market: Market)
    requires rank < 6
    ensures Rank(market) == rank
  {
    if rank == 0 then DE else if rank == 1 then INTL else if rank == 2 then PL
    else if rank == 3 then SA else if rank == 4 then UAE else UK
  }

  /** The plans of the first `n` markets, market by market. */
  function Blocks(plans: seq<Plan>, n: nat): seq<Plan>
    requires n <= 6
  {
    if n == 0 then [] else Blocks(plans, n - 1) + FilterByMarket(plans, MarketAt(n - 1))
  }

  lemma {:induction false} BlocksArePrefix(plans: seq<Plan>, n: nat)
    requires Sorted(plans, Before) && n <= 6
    ensures Blocks(plans, n) == plans[..Below(plans, n)]
  {
    if n == 0 {
      BelowIs(plans, 0);
    } else {
      BlocksArePrefix(plans, n - 1);
      BlockBehind(plans, n, Below(plans, n - 1), Below(plans, n));
    }
  }

  lemma BlockBehind(plans: seq<Plan>, n: nat, m: nat, k: nat)
    requires Sorted(plans, Before) && 0 < n <= 6 && m == Below(plans, n - 1) && k == Below(plans, n)
    ensures m <= k && plans[..m] + FilterByMarket(plans, MarketAt(n - 1)) == plans[..k]
  {
    MarketIsBlock(plans, MarketAt(n - 1));
    TwoParts(plans, m, k);
  }

  lemma TwoParts(plans: seq<Plan>, m: nat, k: nat)
    requires m <= k <= |plans|
    ensures plans[..m] + plans[m..k] == plans[..k]
  {
  }

  /** The blocks of all markets, one after the other, are the list again. */
  lemma BlocksMakeTheList(plans: seq<Plan>)
    requires Sorted(plans, Before)
    ensures Blocks(plans, 6) == plans
    ensures forall market: Market :: Rank(market) < 6 && MarketAt(Rank(market)) == market
  {
    BlocksArePrefix(plans, 6);
    BelowIs(plans, 6);
  }
}
