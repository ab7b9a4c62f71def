/** `ExchangeRateFetcher`: the banking-day date rule and the interpretation of
    the rate service's decoded reply. The HTTP round trip itself is the
    parameter `api`, a function from the request to the reply it produces. */
module Fetcher {
  import opened Wrappers
  import opened Codes
  import opened Clock
  import opened Currencies
  import opened Rates

  /** Rates of the current business day are announced after 14:30; the fetcher
      waits until 14:45 before asking for them. */
  const CutoffHour: int := 14
  const CutoffMinute: int := 45

  predicate BeforeCutoff(now: Stamp) {
    Hour(now) < CutoffHour || (Hour(now) == CutoffHour && Minute(now) < CutoffMinute)
  }

  /** `resolveDate`: an instant at or after tomorrow's midnight is refused;
      today before the cutoff means yesterday's midnight; otherwise the
      midnight of the requested day. */
  function ResolveDate(date: Stamp, now: Stamp): (r: Result<Stamp>)
    ensures r.Err? <==> date >= Midnight(Day(now) + 1)
    ensures r.Err? ==> r.error == FutureDate(Day(date))
    ensures r.Ok? ==> IsMidnight(r.value) && r.value <= Midnight(Day(now))
    ensures r.Ok? ==> Day(r.value) == Day(date) || Day(r.value) == Day(date) - 1
    ensures r.Ok? && Day(date) == Day(now) && BeforeCutoff(now) ==> r.value == Midnight(Day(now) - 1)
    ensures r.Ok? && !(Day(date) == Day(now) && BeforeCutoff(now)) ==> r.value == Midnight(Day(date))
  {
    if date >= Midnight(Day(now) + 1) then Err(FutureDate(Day(date)))
    else if Day(date) == Day(now) && BeforeCutoff(now) then Ok(Midnight(Day(now) - 1))
    else Ok(Midnight(Day(date)))
  }

  /** What is sent to the rate service: both codes and the resolved day. */
  datatype Request = Request(source: string, target: string, day: Stamp)

  /** The decoded JSON object. `error` is `None` when the key is missing; a
      non-boolean `error` value is written `Some(true)`, since the source only
      tests for the boolean `false`. A missing numeric key reads as null. */
  datatype Body = Body(error: Option<bool>, middle: Option<real>, buy: Option<real>, sell: Option<real>)

  /** The service's reply: text that does not decode as JSON (including the empty
      text of a failed transfer), or a decoded body with its raw text. */
  datatype Reply = Undecodable(payload: string) | Decoded(body: Body, payload: string)

  /** The reply branch of `fetch`: the rate is filled only when `error` is
      present and `false`, by `setMiddle`, `setBuy` and `setSell` in that order. */
  function Interpret(rate: ExchangeRate, body: Body, payload: string): (r: Result<ExchangeRate>)
    ensures body.error != Some(false) ==> r == Err(UpstreamFailed(payload))
    ensures r.Ok? <==> (body.error == Some(false)
                        && NonNegative(body.middle) && NonNegative(body.buy) && NonNegative(body.sell))
    ensures r.Ok? ==> r.value == rate.(middle := body.middle, buy := body.buy, sell := body.sell)
    ensures r.Err? && body.error == Some(false) ==> r.error.NegativeRateField?
  {
    if body.error != Some(false) then Err(UpstreamFailed(payload))
    else
      var m := SetMiddle(rate, body.middle);
      if m.outcome.Fail? then Err(m.outcome.error)
      else
        var b := SetBuy(m.state, body.buy);
        if b.outcome.Fail? then Err(b.outcome.error)
        else
          var s := SetSell(b.state, body.sell);
          if s.outcome.Fail? then Err(s.outcome.error)
          else Ok(s.state)
  }

  /** `fetch`: resolve the date (a future date fails before anything is sent),
      send the request, decode the reply, construct the rate at `now` and
      interpret the reply. The second component is the request sent, if any. */
  function Fetch(source: Currency, target: Currency, date: Stamp, now: Stamp,
                 api: Request -> Reply): (r: (Result<ExchangeRate>, Option<Request>))
    ensures ResolveDate(date, now).Err? <==> r.1.None?
    ensures r.1.None? ==> r.0 == Err(ResolveDate(date, now).error)
    ensures r.1.Some? ==> r.1.value == Request(source.code, target.code, ResolveDate(date, now).value)
    ensures r.0.Ok? ==> r.1.Some? && api(r.1.value).Decoded? && api(r.1.value).body.error == Some(false)
    ensures r.0.Ok? ==> var v := r.0.value; var body := api(r.1.value).body;
      v.source == source && v.target == target && v.pair == source.code + target.code
      && v.date == now && v.middle == body.middle && v.buy == body.buy && v.sell == body.sell
    ensures r.0.Ok? ==> ValidRate(r.0.value)
    ensures r.0.Ok? ==> ValidateCode(source.code).Pass? && ValidateCode(target.code).Pass?
    ensures r.0.Err? && r.1.Some? ==> !r.0.error.FutureDate?
  {
    match ResolveDate(date, now)
    case Err(e) => (Err(e), None)
    case Ok(day) =>
      var request := Request(source.code, target.code, day);
      var reply := api(request);
      if reply.Undecodable? then (Err(UndecodableResponse(reply.payload)), Some(request))
      else
        match NewRate(source, target, now)
        case Err(e) => (Err(e), Some(request))
        case Ok(rate) => (Interpret(rate, reply.body, reply.payload), Some(request))
  }

  // ---------------------------------------------------------------- lemmas

  /** For a fixed `now`, resolving an already resolved date changes nothing, so
      `fetch` asks the service for the very day the convertor resolved. */
  lemma ResolveDateIdempotent(date: Stamp, now: Stamp)
    requires ResolveDate(date, now).Ok?
    ensures ResolveDate(ResolveDate(date, now).value, now) == ResolveDate(date, now)
  {
    var d := ResolveDate(date, now).value;
    DayOfMidnight(Day(now) - 1);
    DayOfMidnight(Day(date));
    DayOfMidnight(Day(now));
    assert d < Midnight(Day(now) + 1);
  }

  /** At 14:44 today's request resolves to yesterday; at 14:45 to today. */
  lemma CutoffBoundary(today: int, s: int, date: Stamp)
    requires 0 <= s < 60
    requires Day(date) == today
    ensures ResolveDate(date, Midnight(today) + 14 * 3600 + 44 * 60 + s) == Ok(Midnight(today - 1))
    ensures ResolveDate(date, Midnight(today) + 14 * 3600 + 45 * 60 + s) == Ok(Midnight(today))
  {
    ClockFields(today, 14, 44, s);
    ClockFields(today, 14, 45, s);
    DayBounds(date);
  }

  /** A date two days ahead is refused as future. */
  lemma TwoDaysAheadRefused(now: Stamp)
    ensures ResolveDate(now + 2 * SecondsPerDay, now).Err?
  {
    DayBounds(now);
  }

  /** Any instant of an earlier day resolves to that day's midnight, whatever
      the time of day now. */
  lemma PastDayResolvesToItself(date: Stamp, now: Stamp)
    requires Day(date) < Day(now)
    ensures ResolveDate(date, now) == Ok(Midnight(Day(date)))
  {
    DayBounds(date);
    DayBounds(now);
  }

  /** A reply whose `error` key is missing or true yields no rate and carries
      the raw payload, whatever the numbers say. */
  lemma ErrorReplyFails(source: Currency, target: Currency, date: Stamp, now: Stamp,
                        api: Request -> Reply)
    requires ResolveDate(date, now).Ok?
    requires var q := Request(source.code, target.code, ResolveDate(date, now).value);
      api(q).Decoded? && api(q).body.error != Some(false)
    ensures Fetch(source, target, date, now, api).0.Err?
    ensures IsStoredCode(source.code) && IsStoredCode(target.code) ==>
      var q := Request(source.code, target.code, ResolveDate(date, now).value);
      Fetch(source, target, date, now, api).0 == Err(UpstreamFailed(api(q).payload))
  {
  }
}
