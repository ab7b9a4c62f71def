/** `ExchangeRateConvertor`: rate resolution (same-code shortcut, stored rate,
    or fetch and persist) and price conversion. */
module Convertor {
  import opened Wrappers
  import opened Codes
  import opened Clock
  import opened Currencies
  import opened Rates
  import opened Fetcher
  import opened Manager
  import opened Repository

  /** Everything a conversion reads or writes: the currency registry, the rate
      table with the repository memo, and the requests sent to the rate service
      so far. */
  datatype Shop = Shop(registry: Registry, rates: RateStore, requests: seq<Request>)

  /** A price argument: a bare amount, or a price object that also names its
      currency. */
  datatype Price = Amount(value: real) | Priced(value: real, currency: Currency)

  /** An argument whose pair text matches its record: a record, or a code
      already in stored form. */
  predicate NormalArg(a: CurrencyArg) {
    a.Entity? || IsStoredCode(a.code)
  }

  /** Same code on both sides: a fresh rate of 1 dated `now`; nothing is
      looked up, checked or persisted. */
  function SameCodeRate(shop: Shop, source: Currency, target: Currency, now: Stamp): (r: (Result<ExchangeRate>, Shop))
    ensures r.1 == shop
    ensures r.0.Ok? <==> ValidateCode(source.code).Pass? && ValidateCode(target.code).Pass?
    ensures r.0.Ok? ==> r.0.value.source == source && r.0.value.target == target && r.0.value.date == now
                        && r.0.value.middle == Some(1.0) && GetValue(r.0.value) == Ok(1.0)
  {
    match NewRate(source, target, now)
    case Err(e) => (Err(e), shop)
    case Ok(rate) =>
      var one := SetMiddle(rate, Some(1.0)).state;
      MiddleOfOne(one);
      (Ok(one), shop)
  }

  /** A rate whose middle is 1 is worth 1, whatever its buy and sell. */
  lemma MiddleOfOne(r: ExchangeRate)
    requires r.middle == Some(1.0)
    ensures GetValue(r) == Ok(1.0)
  {
  }

  /** The `catch` branch: look both currencies up again, then fetch and
      persist. */
  function FetchAndPersist(shop: Shop, source: CurrencyArg, target: CurrencyArg, day: Stamp,
                           now: Stamp, api: Request -> Reply): (r: (Result<ExchangeRate>, Shop))
    ensures r.1.rates.memo == shop.rates.memo
    ensures MemoSound(shop.rates) ==> MemoSound(r.1.rates)
    ensures r.0.Ok? ==> r.1.rates.rows == shop.rates.rows + [r.0.value]
    ensures r.0.Err? ==> r.1.rates.rows == shop.rates.rows
    ensures shop.requests <= r.1.requests && |r.1.requests| <= |shop.requests| + 1
    ensures |r.1.requests| == |shop.requests| + 1 ==>
      ResolveDate(day, now).Ok? && r.1.requests[|shop.requests|].day == ResolveDate(day, now).value
    ensures r.0.Err? && r.0.error.FutureDate? ==> ResolveDate(day, now).Err?
    ensures var a := GetCurrency(shop.registry, source);
      a.0.Err? ==> r.0 == Err(a.0.error) && r.1.requests == shop.requests
    ensures var a := GetCurrency(shop.registry, source);
      var b := GetCurrency(a.1, target);
      a.0.Ok? && b.0.Err? ==> r.0 == Err(b.0.error) && r.1.requests == shop.requests
    ensures var a := GetCurrency(shop.registry, source);
      var b := GetCurrency(a.1, target);
      a.0.Ok? && b.0.Ok? ==> r.0 == Fetch(a.0.value, b.0.value, day, now, api).0
  {
    var a := GetCurrency(shop.registry, source);
    if a.0.Err? then (Err(a.0.error), shop.(registry := a.1))
    else
      var b := GetCurrency(a.1, target);
      if b.0.Err? then (Err(b.0.error), shop.(registry := b.1))
      else FetchInto(shop.(registry := b.1), a.0.value, b.0.value, day, now, api)
  }

  /** Fetch for the resolved day, record the request, and persist the rate
      when one came back. */
  function FetchInto(shop: Shop, s: Currency, t: Currency, day: Stamp, now: Stamp,
                     api: Request -> Reply): (r: (Result<ExchangeRate>, Shop))
    ensures r.0 == Fetch(s, t, day, now, api).0
    ensures r.1.registry == shop.registry && r.1.rates.memo == shop.rates.memo
    ensures r.0.Ok? ==> r.1.rates.rows == shop.rates.rows + [r.0.value]
    ensures r.0.Err? ==> r.1.rates.rows == shop.rates.rows
    ensures Fetch(s, t, day, now, api).1.Some? ==> r.1.requests == shop.requests + [Fetch(s, t, day, now, api).1.value]
    ensures Fetch(s, t, day, now, api).1.None? ==> r.1.requests == shop.requests
  {
    var f := Fetch(s, t, day, now, api);
    var sent := if f.1.Some? then [f.1.value] else [];
    var shop2 := shop.(requests := shop.requests + sent);
    match f.0
    case Err(e) => (Err(e), shop2)
    case Ok(v) => (Ok(v), shop2.(rates := Persist(shop2.rates, v)))
  }

  /** Stored rate first; on `NoResultException` fetch and persist; any other
      failure of the lookup propagates. */
  function LookupOrFetch(shop: Shop, source: CurrencyArg, target: CurrencyArg, day: Stamp,
                         now: Stamp, api: Request -> Reply): (r: (Result<ExchangeRate>, Shop))
    ensures r.1.rates.rows == shop.rates.rows || (r.0.Ok? && r.1.rates.rows == shop.rates.rows + [r.0.value])
    ensures shop.requests <= r.1.requests && |r.1.requests| <= |shop.requests| + 1
    ensures |r.1.requests| == |shop.requests| + 1 ==>
      ResolveDate(day, now).Ok? && r.1.requests[|shop.requests|].day == ResolveDate(day, now).value
    ensures MemoSound(shop.rates) ==> MemoSound(r.1.rates)
    ensures r.0.Err? && r.0.error.FutureDate? ==> ResolveDate(day, now).Err?
    ensures var found := FindRatePair(shop.rates, source, target, day);
      found.0.Ok? || found.0.error != NoResult ==> r == (found.0, shop.(rates := found.1))
    ensures var found := FindRatePair(shop.rates, source, target, day);
      found.0 == Err(NoResult) ==> r == FetchAndPersist(shop.(rates := found.1), source, target, day, now, api)
  {
    var found := FindRatePair(shop.rates, source, target, day);
    var shop1 := shop.(rates := found.1);
    assert MemoSound(shop.rates) ==> MemoSound(shop1.rates);
    if found.0.Ok? || found.0.error != NoResult then (found.0, shop1)
    else FetchAndPersist(shop1, source, target, day, now, api)
  }

  /** `getRate`: both currencies are looked up first (a missing one fails
      before anything else), then the rate is resolved for the two records. */
  function GetRate(shop: Shop, source: CurrencyArg, target: CurrencyArg, date: Stamp,
                   now: Stamp, api: Request -> Reply): (r: (Result<ExchangeRate>, Shop))
    ensures r.1.rates.rows == shop.rates.rows || (r.0.Ok? && r.1.rates.rows == shop.rates.rows + [r.0.value])
    ensures shop.requests <= r.1.requests && |r.1.requests| <= |shop.requests| + 1
    ensures |r.1.requests| == |shop.requests| + 1 ==>
      ResolveDate(date, now).Ok? && r.1.requests[|shop.requests|].day == ResolveDate(date, now).value
    ensures MemoSound(shop.rates) ==> MemoSound(r.1.rates)
    ensures r.0.Err? && r.0.error.FutureDate? ==> ResolveDate(date, now).Err?
  {
    var a := GetCurrency(shop.registry, source);
    if a.0.Err? then (Err(a.0.error), shop.(registry := a.1))
    else
      var b := GetCurrency(a.1, target);
      if b.0.Err? then (Err(b.0.error), shop.(registry := b.1))
      else RateFor(shop.(registry := b.1), source, target, a.0.value, b.0.value, date, now, api)
  }

  /** The rest of `getRate` once both records are known: equal codes
      short-circuit before the date is looked at; otherwise the date is
      resolved, and the lookup receives the caller's ORIGINAL arguments. */
  function RateFor(shop: Shop, source: CurrencyArg, target: CurrencyArg, s: Currency, t: Currency,
                   date: Stamp, now: Stamp, api: Request -> Reply): (r: (Result<ExchangeRate>, Shop))
    ensures r.1.rates.rows == shop.rates.rows || (r.0.Ok? && r.1.rates.rows == shop.rates.rows + [r.0.value])
    ensures shop.requests <= r.1.requests && |r.1.requests| <= |shop.requests| + 1
    ensures |r.1.requests| == |shop.requests| + 1 ==>
      ResolveDate(date, now).Ok? && r.1.requests[|shop.requests|].day == ResolveDate(date, now).value
    ensures MemoSound(shop.rates) ==> MemoSound(r.1.rates)
    ensures r.0.Err? && r.0.error.FutureDate? ==> ResolveDate(date, now).Err?
  {
    if s.code == t.code then SameCodeRate(shop, s, t, now)
    else
      match ResolveDate(date, now)
      case Err(e) => (Err(e), shop)
      case Ok(day) =>
        ResolveDateIdempotent(date, now);
        LookupOrFetch(shop, source, target, day, now, api)
  }

  /** `getRateToday`: `getRate` for today's midnight, which is never refused
      as a future date; a fetch asks for today, or for yesterday before the
      cutoff. */
  function GetRateToday(shop: Shop, source: CurrencyArg, target: CurrencyArg,
                        now: Stamp, api: Request -> Reply): (r: (Result<ExchangeRate>, Shop))
    ensures r.0.Err? ==> !r.0.error.FutureDate?
    ensures |r.1.requests| == |shop.requests| + 1 ==>
      r.1.requests[|shop.requests|].day == (if BeforeCutoff(now) then Midnight(Day(now) - 1) else Midnight(Day(now)))
  {
    DayOfMidnight(Day(now));
    GetRate(shop, source, target, Midnight(Day(now)), now, api)
  }

  /** bcdiv's truncation: the integer part toward zero. */
  function TowardZero(x: real): (n: int)
    ensures 0.0 <= x ==> n as real <= x < n as real + 1.0
    ensures x < 0.0 ==> n as real - 1.0 < x <= n as real
  {
    if x >= 0.0 then x.Floor else -((-x).Floor)
  }

  /** The division step of `convert`: `getValue` (its LogicException
      propagates), the zero check, then the quotient in hundredths truncated
      toward zero (`bcdiv(price, rate, 2)`). */
  function Quote(rate: ExchangeRate, amount: real): (r: Result<int>)
    ensures r.Ok? <==> ResolvedValue(rate) != 0.0
    ensures r.Err? ==> r.error == RateUnresolved(rate.pair)
    ensures r.Ok? ==> var q := amount * 100.0 / ResolvedValue(rate);
      && (0.0 <= q ==> r.value as real <= q < r.value as real + 1.0)
      && (q < 0.0 ==> r.value as real - 1.0 < q <= r.value as real)
  {
    match GetValue(rate)
    case Err(e) => Err(e)
    case Ok(v) =>
      if v == 0.0 then Err(ZeroRate)
      else Ok(TowardZero(amount * 100.0 / v))
  }

  /** `convert`: a price object supplies both the amount and the source; the
      date defaults to today's midnight. */
  function Convert(shop: Shop, price: Price, source: CurrencyArg, target: CurrencyArg,
                   date: Option<Stamp>, now: Stamp, api: Request -> Reply): (r: (Result<int>, Shop))
    ensures r.0.Err? && r.0.error.FutureDate? ==> date.Some?
    ensures var from := if price.Priced? then Entity(price.currency) else source;
      var q := GetRate(shop, from, target, date.GetOr(Midnight(Day(now))), now, api);
      && r.1 == q.1
      && (q.0.Err? ==> r.0 == Err(q.0.error))
      && (q.0.Ok? ==> r.0 == Quote(q.0.value, price.value))
  {
    var src := match price
      case Priced(_, c) => Entity(c)
      case Amount(_) => source;
    var day := date.GetOr(Midnight(Day(now)));
    DayBounds(now);
    assert date.None? ==> ResolveDate(day, now).Ok?;
    var q := GetRate(shop, src, target, day, now, api);
    if q.0.Err? then (Err(q.0.error), q.1)
    else (Quote(q.0.value, price.value), q.1)
  }

  // ---------------------------------------------------------------- lemmas

  /** Truncation toward zero is symmetric around zero. */
  lemma TowardZeroOdd(x: real)
    ensures TowardZero(-x) == -TowardZero(x)
  {
    if x > 0.0 {
      assert -x < 0.0;
    }
  }

  /** Equal codes give a rate of 1 for ANY date, even one years ahead: the
      date is never checked, nothing is fetched and nothing is persisted. */
  lemma SameCodeIgnoresDate(shop: Shop, source: CurrencyArg, target: CurrencyArg, date: Stamp,
                            now: Stamp, api: Request -> Reply)
    requires GetCurrency(shop.registry, source).0.Ok?
    requires var a := GetCurrency(shop.registry, source);
      var s := a.0; var t := GetCurrency(a.1, target).0;
      t.Ok? && s.value.code == t.value.code && ValidateCode(s.value.code).Pass?
    ensures var r := GetRate(shop, source, target, date, now, api);
      && r.0.Ok? && GetValue(r.0.value) == Ok(1.0) && r.0.value.date == now
      && r.1.rates == shop.rates && r.1.requests == shop.requests
  {
    var a := GetCurrency(shop.registry, source);
    var b := GetCurrency(a.1, target);
    FoundBoth(shop, source, target, date, now, api, a.0.value, b.0.value, b.1);
    SameCodeShortCircuits(shop.(registry := b.1), source, target, a.0.value, b.0.value, date, now, api);
    SameStoredCodeRate(GetRate(shop, source, target, date, now, api), shop, b.1, a.0.value, b.0.value, now);
  }

  /** The short-circuit's rate for two records of one stored code: worth 1,
      dated `now`, with nothing persisted or sent. */
  lemma SameStoredCodeRate(r: (Result<ExchangeRate>, Shop), shop: Shop, reg: Registry,
                           s: Currency, t: Currency, now: Stamp)
    requires s.code == t.code && ValidateCode(s.code).Pass?
    requires r == SameCodeRate(shop.(registry := reg), s, t, now)
    ensures && r.0.Ok? && GetValue(r.0.value) == Ok(1.0) && r.0.value.date == now
            && r.1.rates == shop.rates && r.1.requests == shop.requests
  {
  }

  /** Equal codes never reach the date or the lookup. */
  lemma SameCodeShortCircuits(shop: Shop, source: CurrencyArg, target: CurrencyArg, s: Currency, t: Currency,
                              date: Stamp, now: Stamp, api: Request -> Reply)
    requires s.code == t.code
    ensures RateFor(shop, source, target, s, t, date, now, api) == SameCodeRate(shop, s, t, now)
  {
  }

  /** An unknown or malformed source fails first: no lookup, no fetch, no row. */
  lemma UnknownSourceFailsFirst(shop: Shop, source: CurrencyArg, target: CurrencyArg, date: Stamp,
                                now: Stamp, api: Request -> Reply)
    requires GetCurrency(shop.registry, source).0.Err?
    ensures var r := GetRate(shop, source, target, date, now, api);
      && r.0 == Err(GetCurrency(shop.registry, source).0.error)
      && r.1.rates == shop.rates && r.1.requests == shop.requests
  {
  }

  /** The same for an unknown target, even when the date is in the future. */
  lemma UnknownTargetFailsFirst(shop: Shop, source: CurrencyArg, target: CurrencyArg, date: Stamp,
                                now: Stamp, api: Request -> Reply)
    requires GetCurrency(shop.registry, source).0.Ok?
    requires GetCurrency(GetCurrency(shop.registry, source).1, target).0.Err?
    ensures var r := GetRate(shop, source, target, date, now, api);
      && r.0 == Err(GetCurrency(GetCurrency(shop.registry, source).1, target).0.error)
      && r.1.rates == shop.rates && r.1.requests == shop.requests
  {
  }

  /** Different codes and a date at or after tomorrow: refused before the
      lookup, so the memo is not touched and nothing is fetched. */
  lemma FutureDateFailsBeforeLookup(shop: Shop, source: CurrencyArg, target: CurrencyArg, date: Stamp,
                                    now: Stamp, api: Request -> Reply)
    requires GetCurrency(shop.registry, source).0.Ok?
    requires var a := GetCurrency(shop.registry, source);
      var s := a.0; var t := GetCurrency(a.1, target).0;
      t.Ok? && s.value.code != t.value.code
    requires date >= Midnight(Day(now) + 1)
    ensures var r := GetRate(shop, source, target, date, now, api);
      && r.0 == Err(FutureDate(Day(date)))
      && r.1.rates == shop.rates && r.1.requests == shop.requests
  {
    var a := GetCurrency(shop.registry, source);
    var b := GetCurrency(a.1, target);
    FoundBoth(shop, source, target, date, now, api, a.0.value, b.0.value, b.1);
  }

  /** A stored (or memoised) rate is returned as it is: no fetch, no new row. */
  lemma StoredRateIsReturned(shop: Shop, source: CurrencyArg, target: CurrencyArg, date: Stamp,
                             now: Stamp, api: Request -> Reply)
    requires GetCurrency(shop.registry, source).0.Ok?
    requires var a := GetCurrency(shop.registry, source);
      var s := a.0; var t := GetCurrency(a.1, target).0;
      t.Ok? && s.value.code != t.value.code
    requires ResolveDate(date, now).Ok?
    requires FindRatePair(shop.rates, source, target, ResolveDate(date, now).value).0.Ok?
    ensures var r := GetRate(shop, source, target, date, now, api);
      && r.0 == FindRatePair(shop.rates, source, target, ResolveDate(date, now).value).0
      && r.1.rates.rows == shop.rates.rows && r.1.requests == shop.requests
  {
    var a := GetCurrency(shop.registry, source);
    var b := GetCurrency(a.1, target);
    FoundBoth(shop, source, target, date, now, api, a.0.value, b.0.value, b.1);
  }

  /** On a miss there is exactly one request, for the two looked-up codes and
      the resolved day; the fetch result is returned and, when it is a rate,
      persisted as one new row. */
  lemma MissFetchesOnce(shop: Shop, source: CurrencyArg, target: CurrencyArg, date: Stamp,
                        now: Stamp, api: Request -> Reply)
    requires GetCurrency(shop.registry, source).0.Ok?
    requires var a := GetCurrency(shop.registry, source);
      var s := a.0; var t := GetCurrency(a.1, target).0;
      t.Ok? && s.value.code != t.value.code
    requires ResolveDate(date, now).Ok?
    requires FindRatePair(shop.rates, source, target, ResolveDate(date, now).value).0 == Err(NoResult)
    ensures var a := GetCurrency(shop.registry, source);
      var s := a.0; var t := GetCurrency(a.1, target).0;
      var day := ResolveDate(date, now).value;
      var r := GetRate(shop, source, target, date, now, api);
      && r.1.requests == shop.requests + [Request(s.value.code, t.value.code, day)]
      && r.0 == Fetch(s.value, t.value, day, now, api).0
      && (r.0.Ok? ==> r.1.rates.rows == shop.rates.rows + [r.0.value])
      && (r.0.Err? ==> r.1.rates.rows == shop.rates.rows)
  {
    var a := GetCurrency(shop.registry, source);
    var b := GetCurrency(a.1, target);
    var day := ResolveDate(date, now).value;
    var shop2 := shop.(registry := b.1);
    FoundBoth(shop, source, target, date, now, api, a.0.value, b.0.value, b.1);
    ResolveDateIdempotent(date, now);
    assert RateFor(shop2, source, target, a.0.value, b.0.value, date, now, api)
        == LookupOrFetch(shop2, source, target, day, now, api);
    assert LookupOrFetch(shop2, source, target, day, now, api) == FetchAndPersist(shop2, source, target, day, now, api);
    LookupSettles(shop.registry, source, target);
    FetchWithSettledLookups(shop2, source, target, a.0.value, b.0.value, day, now, api);
  }

  /** The fetch branch once both lookups are settled: exactly the fetcher's
      request and result. */
  lemma FetchWithSettledLookups(shop: Shop, source: CurrencyArg, target: CurrencyArg,
                                s: Currency, t: Currency, day: Stamp, now: Stamp, api: Request -> Reply)
    requires GetCurrency(shop.registry, source) == (Ok(s), shop.registry)
    requires GetCurrency(shop.registry, target) == (Ok(t), shop.registry)
    requires ResolveDate(day, now).Ok?
    ensures var r := FetchAndPersist(shop, source, target, day, now, api);
      var f := Fetch(s, t, day, now, api);
      && r.0 == f.0
      && r.1.requests == shop.requests + [Request(s.code, t.code, ResolveDate(day, now).value)]
    ensures FetchAndPersist(shop, source, target, day, now, api) == FetchInto(shop, s, t, day, now, api)
  {
    assert FetchAndPersist(shop, source, target, day, now, api) == FetchInto(shop, s, t, day, now, api);
  }

  /** A record, or a code in stored form, contributes to the pair exactly the
      code of the currency it looks up. */
  lemma NormalArgCode(reg: Registry, a: CurrencyArg)
    requires NormalArg(a)
    requires GetCurrency(reg, a).0.Ok?
    ensures ArgCode(a) == GetCurrency(reg, a).0.value.code
  {
  }

  /** With arguments in stored form, a successful `getRate` leaves the shop in
      a state where the same call is answered without a request and without a
      new row: from the memo, or from the row just persisted. */
  lemma SecondCallMakesNoRequest(shop: Shop, source: CurrencyArg, target: CurrencyArg, date: Stamp,
                                 now: Stamp, api: Request -> Reply)
    requires NormalArg(source) && NormalArg(target)
    requires GetRate(shop, source, target, date, now, api).0.Ok?
    ensures var r1 := GetRate(shop, source, target, date, now, api);
      var r2 := GetRate(r1.1, source, target, date, now, api);
      r2.0.Ok? && r2.1.requests == r1.1.requests && r2.1.rates.rows == r1.1.rates.rows
  {
    RateNeedsBothCurrencies(shop, source, target, date, now, api);
    var a := GetCurrency(shop.registry, source);
    var b := GetCurrency(a.1, target);
    LookupSettles(shop.registry, source, target);
    FoundBoth(shop, source, target, date, now, api, a.0.value, b.0.value, b.1);
    NormalArgCode(shop.registry, source);
    NormalArgCode(a.1, target);
    SecondCallFound(shop, source, target, date, now, api, a.0.value, b.0.value, b.1);
  }

  /** `SecondCallMakesNoRequest` once both records and the settled registry
      are known. */
  lemma SecondCallFound(shop: Shop, source: CurrencyArg, target: CurrencyArg, date: Stamp,
                        now: Stamp, api: Request -> Reply, s: Currency, t: Currency, reg2: Registry)
    requires ArgCode(source) == s.code && ArgCode(target) == t.code
    requires GetRate(shop, source, target, date, now, api)
          == RateFor(shop.(registry := reg2), source, target, s, t, date, now, api)
    requires GetCurrency(reg2, source) == (Ok(s), reg2) && GetCurrency(reg2, target) == (Ok(t), reg2)
    requires GetRate(shop, source, target, date, now, api).0.Ok?
    ensures var r1 := GetRate(shop, source, target, date, now, api);
      var r2 := GetRate(r1.1, source, target, date, now, api);
      r2.0.Ok? && r2.1.requests == r1.1.requests && r2.1.rates.rows == r1.1.rates.rows
  {
    if s.code == t.code {
      SecondCallSameCode(shop, source, target, date, now, api, s, t, reg2);
    } else {
      SecondCallOtherCodes(shop, source, target, date, now, api, s, t, reg2);
    }
  }

  /** Once both lookups have succeeded, `getRate` continues with the two
      records and the registry the lookups left behind. */
  lemma FoundBoth(shop: Shop, source: CurrencyArg, target: CurrencyArg, date: Stamp,
                  now: Stamp, api: Request -> Reply, s: Currency, t: Currency, reg2: Registry)
    requires GetCurrency(shop.registry, source).0 == Ok(s)
    requires GetCurrency(GetCurrency(shop.registry, source).1, target) == (Ok(t), reg2)
    ensures GetRate(shop, source, target, date, now, api)
         == RateFor(shop.(registry := reg2), source, target, s, t, date, now, api)
  {
  }

  /** A rate comes back only when both currencies were found. */
  lemma RateNeedsBothCurrencies(shop: Shop, source: CurrencyArg, target: CurrencyArg, date: Stamp,
                                now: Stamp, api: Request -> Reply)
    requires GetRate(shop, source, target, date, now, api).0.Ok?
    ensures GetCurrency(shop.registry, source).0.Ok?
    ensures GetCurrency(GetCurrency(shop.registry, source).1, target).0.Ok?
  {
  }

  /** `SecondCallMakesNoRequest` when both codes are equal. */
  lemma SecondCallSameCode(shop: Shop, source: CurrencyArg, target: CurrencyArg, date: Stamp,
                           now: Stamp, api: Request -> Reply, s: Currency, t: Currency, reg2: Registry)
    requires GetRate(shop, source, target, date, now, api)
          == RateFor(shop.(registry := reg2), source, target, s, t, date, now, api)
    requires GetCurrency(reg2, source) == (Ok(s), reg2) && GetCurrency(reg2, target) == (Ok(t), reg2)
    requires s.code == t.code
    requires GetRate(shop, source, target, date, now, api).0.Ok?
    ensures var r1 := GetRate(shop, source, target, date, now, api);
      var r2 := GetRate(r1.1, source, target, date, now, api);
      r2.0.Ok? && r2.1.requests == r1.1.requests && r2.1.rates.rows == r1.1.rates.rows
  {
    var r1 := GetRate(shop, source, target, date, now, api);
    assert r1 == SameCodeRate(shop.(registry := reg2), s, t, now);
    SettledCall(r1.1, source, target, date, now, api, s, t);
  }

  /** `SecondCallMakesNoRequest` when the codes differ. */
  lemma SecondCallOtherCodes(shop: Shop, source: CurrencyArg, target: CurrencyArg, date: Stamp,
                             now: Stamp, api: Request -> Reply, s: Currency, t: Currency, reg2: Registry)
    requires ArgCode(source) == s.code && ArgCode(target) == t.code
    requires GetRate(shop, source, target, date, now, api)
          == RateFor(shop.(registry := reg2), source, target, s, t, date, now, api)
    requires GetCurrency(reg2, source) == (Ok(s), reg2) && GetCurrency(reg2, target) == (Ok(t), reg2)
    requires s.code != t.code
    requires GetRate(shop, source, target, date, now, api).0.Ok?
    ensures var r1 := GetRate(shop, source, target, date, now, api);
      var r2 := GetRate(r1.1, source, target, date, now, api);
      r2.0.Ok? && r2.1.requests == r1.1.requests && r2.1.rates.rows == r1.1.rates.rows
  {
    var r1 := GetRate(shop, source, target, date, now, api);
    OtherCodesSettle(shop.(registry := reg2), source, target, date, now, api, s, t);
    SettledCall(r1.1, source, target, date, now, api, s, t);
  }

  /** With distinct codes, a successful first call keeps the registry and
      leaves a row that the lookup for the resolved day finds. */
  lemma OtherCodesSettle(shop: Shop, source: CurrencyArg, target: CurrencyArg, date: Stamp,
                         now: Stamp, api: Request -> Reply, s: Currency, t: Currency)
    requires ArgCode(source) == s.code && ArgCode(target) == t.code
    requires GetCurrency(shop.registry, source) == (Ok(s), shop.registry)
    requires GetCurrency(shop.registry, target) == (Ok(t), shop.registry)
    requires s.code != t.code
    requires RateFor(shop, source, target, s, t, date, now, api).0.Ok?
    ensures ResolveDate(date, now).Ok?
    ensures var r1 := RateFor(shop, source, target, s, t, date, now, api);
      r1.1.registry == shop.registry && FindRatePair(r1.1.rates, source, target, ResolveDate(date, now).value).0.Ok?
  {
    var day := ResolveDate(date, now).value;
    assert RateFor(shop, source, target, s, t, date, now, api) == LookupOrFetch(shop, source, target, day, now, api);
    ResolveDateIdempotent(date, now);
    FetchWithSettledLookups(shop, source, target, s, t, day, now, api);
    ResolvedDayHasBegun(date, now);
    FirstCallAnswersSecond(shop, source, target, day, now, api, s, t);
  }

  /** After a successful lookup-or-fetch whose fetch branch reuses the
      records `s` and `t`, and whose arguments contribute their codes to the
      pair, the lookup for the same day succeeds. */
  lemma FirstCallAnswersSecond(shop: Shop, source: CurrencyArg, target: CurrencyArg, day: Stamp,
                               now: Stamp, api: Request -> Reply, s: Currency, t: Currency)
    requires ArgCode(source) == s.code && ArgCode(target) == t.code
    requires Midnight(Day(day)) <= now
    requires FetchAndPersist(shop, source, target, day, now, api) == FetchInto(shop, s, t, day, now, api)
    requires LookupOrFetch(shop, source, target, day, now, api).0.Ok?
    ensures var r1 := LookupOrFetch(shop, source, target, day, now, api);
      r1.1.registry == shop.registry && FindRatePair(r1.1.rates, source, target, day).0.Ok?
  {
    var found := FindRatePair(shop.rates, source, target, day);
    if found.0.Ok? {
      assert LookupOrFetch(shop, source, target, day, now, api).1 == shop.(rates := found.1);
    } else {
      FetchedRowAnswers(shop, source, target, day, now, api, s, t);
    }
  }

  /** The miss case of `FirstCallAnswersSecond`: the persisted row answers. */
  lemma FetchedRowAnswers(shop: Shop, source: CurrencyArg, target: CurrencyArg, day: Stamp,
                          now: Stamp, api: Request -> Reply, s: Currency, t: Currency)
    requires ArgCode(source) == s.code && ArgCode(target) == t.code
    requires Midnight(Day(day)) <= now
    requires FetchAndPersist(shop, source, target, day, now, api) == FetchInto(shop, s, t, day, now, api)
    requires FindRatePair(shop.rates, source, target, day).0.Err?
    requires LookupOrFetch(shop, source, target, day, now, api).0.Ok?
    ensures var r1 := LookupOrFetch(shop, source, target, day, now, api);
      r1.1.registry == shop.registry && FindRatePair(r1.1.rates, source, target, day).0.Ok?
  {
    FetchedRowFacts(shop, source, target, day, now, api, s, t);
    var r1 := LookupOrFetch(shop, source, target, day, now, api);
    QualifyingRowAnswers(r1.1.rates, FormatPair(source, target).value, day, |r1.1.rates.rows| - 1);
  }

  /** The day a date resolves to has already begun at `now`. */
  lemma ResolvedDayHasBegun(date: Stamp, now: Stamp)
    requires ResolveDate(date, now).Ok?
    ensures Midnight(Day(ResolveDate(date, now).value)) <= now
  {
    var day := ResolveDate(date, now).value;
    DayBounds(day);
    DayBounds(now);
  }

  /** On a miss, the fetched rate is persisted last, carries the argument
      pair, and is dated `now`. */
  lemma FetchedRowFacts(shop: Shop, source: CurrencyArg, target: CurrencyArg, day: Stamp,
                        now: Stamp, api: Request -> Reply, s: Currency, t: Currency)
    requires ArgCode(source) == s.code && ArgCode(target) == t.code
    requires FetchAndPersist(shop, source, target, day, now, api) == FetchInto(shop, s, t, day, now, api)
    requires FindRatePair(shop.rates, source, target, day).0.Err?
    requires LookupOrFetch(shop, source, target, day, now, api).0.Ok?
    ensures var r1 := LookupOrFetch(shop, source, target, day, now, api);
      && r1.1.registry == shop.registry
      && r1.1.rates.rows == shop.rates.rows + [r1.0.value]
      && FormatPair(source, target).Ok?
      && r1.0.value.pair == FormatPair(source, target).value
      && r1.0.value.date == now
  {
    var r1 := LookupOrFetch(shop, source, target, day, now, api);
    assert r1 == FetchAndPersist(shop, source, target, day, now, api);
  }

  /** On settled lookups, with the stored lookup succeeding or the codes
      equal, `getRate` neither sends a request nor adds a row. */
  lemma SettledCall(shop: Shop, source: CurrencyArg, target: CurrencyArg, date: Stamp,
                    now: Stamp, api: Request -> Reply, s: Currency, t: Currency)
    requires GetCurrency(shop.registry, source) == (Ok(s), shop.registry)
    requires GetCurrency(shop.registry, target) == (Ok(t), shop.registry)
    requires s.code == t.code ==> ValidateCode(s.code).Pass? && ValidateCode(t.code).Pass?
    requires s.code != t.code ==>
      ResolveDate(date, now).Ok? && FindRatePair(shop.rates, source, target, ResolveDate(date, now).value).0.Ok?
    ensures var r := GetRate(shop, source, target, date, now, api);
      r.0.Ok? && r.1.requests == shop.requests && r.1.rates.rows == shop.rates.rows
  {
  }

  /** Rows built from stored currencies have pair keys that start with an
      upper-case letter. */
  predicate UpperPairs(store: RateStore) {
    forall i :: 0 <= i < |store.rows| ==> |store.rows[i].pair| > 0 && IsUpperLetter(store.rows[i].pair[0])
  }

  /** A source code typed in lower case validates and finds its currency, but
      its raw pair key matches no upper-case row: every such call, however
      often repeated, misses and sends a request. */
  lemma LowerCaseSourceAlwaysFetches(shop: Shop, code: string, target: CurrencyArg, date: Stamp,
                                     now: Stamp, api: Request -> Reply)
    requires MemoSound(shop.rates) && UpperPairs(shop.rates)
    requires |code| > 0 && 'a' <= code[0] <= 'z'
    requires GetCurrency(shop.registry, Code(code)).0.Ok?
    requires var a := GetCurrency(shop.registry, Code(code));
      var t := GetCurrency(a.1, target).0;
      t.Ok? && a.0.value.code != t.value.code
    requires ResolveDate(date, now).Ok?
    requires ValidateCode(ArgCode(target)).Pass?
    ensures |GetRate(shop, Code(code), target, date, now, api).1.requests| == |shop.requests| + 1
  {
    var pair := FormatPair(Code(code), target).value;
    assert pair[0] == code[0];
    AbsentPairNoResult(shop.rates, Code(code), target, ResolveDate(date, now).value);
    MissFetchesOnce(shop, Code(code), target, date, now, api);
  }

  /** 100 at a rate of 25 is 4.00, that is 400 hundredths. */
  lemma QuoteExample(rate: ExchangeRate)
    requires rate.middle == Some(25.0)
    ensures Quote(rate, 100.0) == Ok(400)
  {
    assert 100.0 * 100.0 / 25.0 == 400.0;
  }

  /** The hundredths are truncated, not rounded: 2 at a rate of 3 is 0.66. */
  lemma QuoteTruncates(rate: ExchangeRate)
    requires rate.middle == Some(3.0)
    ensures Quote(rate, 2.0) == Ok(66)
  {
    assert 2.0 * 100.0 / 3.0 == 200.0 / 3.0;
  }

  /** Converting a price into its own currency gives the price back, in
      hundredths truncated toward zero, for any date. */
  lemma ConvertIntoOwnCurrency(shop: Shop, amount: real, c: Currency, source: CurrencyArg,
                               date: Option<Stamp>, now: Stamp, api: Request -> Reply)
    requires IsStoredCode(c.code)
    ensures Convert(shop, Priced(amount, c), source, Entity(c), date, now, api).0
            == Ok(TowardZero(amount * 100.0))
  {
    var day := date.GetOr(Midnight(Day(now)));
    SameCodeIgnoresDate(shop, Entity(c), Entity(c), day, now, api);
    assert amount * 100.0 / 1.0 == amount * 100.0;
  }

  /** A price object's own currency is the source: the source argument is
      ignored. */
  lemma PriceCurrencyWins(shop: Shop, amount: real, c: Currency, s1: CurrencyArg, s2: CurrencyArg,
                          target: CurrencyArg, date: Option<Stamp>, now: Stamp, api: Request -> Reply)
    ensures Convert(shop, Priced(amount, c), s1, target, date, now, api)
         == Convert(shop, Priced(amount, c), s2, target, date, now, api)
  {
  }
}
