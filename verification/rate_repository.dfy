/** `ExchangeRateRepository::findRatePair`: the stored-rate lookup with its
    per-request memo, keyed by pair and calendar day. */
module Repository {
  import opened Wrappers
  import opened Clock
  import opened Currencies
  import opened Rates

  /** The memo key `pair|Y-m-d`. A date text contains no `|`, so the last `|`
      splits the key uniquely and a (pair, day) record is the same key. */
  datatype MemoKey = MemoKey(pair: string, day: int)

  /** The rate table, in insertion order, and the repository's memo. */
  datatype RateStore = RateStore(rows: seq<ExchangeRate>, memo: map<MemoKey, ExchangeRate>)

  /** The query's filter: `rate.pair = :pair AND rate.date >= :date`. */
  predicate Qualifies(r: ExchangeRate, pair: string, from: Stamp) {
    r.pair == pair && r.date >= from
  }

  /** `ORDER BY rate.date ASC LIMIT 1`: the index of a qualifying row with the
      least date; among rows of equal date the first in table order. */
  function Earliest(rows: seq<ExchangeRate>, pair: string, from: Stamp): (r: Option<nat>)
    ensures r.None? <==> forall i :: 0 <= i < |rows| ==> !Qualifies(rows[i], pair, from)
    ensures r.Some? ==> r.value < |rows| && Qualifies(rows[r.value], pair, from)
    ensures r.Some? ==> forall i :: 0 <= i < |rows| && Qualifies(rows[i], pair, from) ==>
      rows[r.value].date <= rows[i].date
    ensures r.Some? ==> forall i :: 0 <= i < r.value && Qualifies(rows[i], pair, from) ==>
      rows[r.value].date < rows[i].date
  {
    if |rows| == 0 then None
    else
      var rest := Earliest(rows[1..], pair, from);
      assert forall i :: 1 <= i < |rows| ==> rows[i] == rows[1..][i - 1];
      if Qualifies(rows[0], pair, from) && (rest.None? || rows[0].date <= rows[rest.value + 1].date)
      then Some(0)
      else if rest.Some? then Some(rest.value + 1)
      else None
  }

  /** Every memo entry is a stored row of its key's pair dated on or after its
      key's day. */
  predicate MemoSound(store: RateStore) {
    forall k :: k in store.memo ==>
      store.memo[k] in store.rows && Qualifies(store.memo[k], k.pair, Midnight(k.day))
  }

  /** The memo and the query for an already formatted pair: answer from the
      memo when the key is present, otherwise take the earliest qualifying row
      and remember it; no row is `NoResultException`. The table is never
      written. */
  function LookupPair(store: RateStore, pair: string, date: Stamp): (r: (Result<ExchangeRate>, RateStore))
    ensures r.1.rows == store.rows
    ensures r.0.Err? ==> r == (Err(NoResult), store)
    ensures r.0.Ok? ==> MemoKey(pair, Day(date)) in r.1.memo && r.1.memo[MemoKey(pair, Day(date))] == r.0.value
    ensures MemoKey(pair, Day(date)) in store.memo ==> r == (Ok(store.memo[MemoKey(pair, Day(date))]), store)
    ensures MemoKey(pair, Day(date)) !in store.memo ==>
      var from := Midnight(Day(date));
      && (r.0.Ok? <==> exists i :: 0 <= i < |store.rows| && Qualifies(store.rows[i], pair, from))
      && (r.0.Ok? ==> r.0.value in store.rows && Qualifies(r.0.value, pair, from)
                      && (forall i :: 0 <= i < |store.rows| && Qualifies(store.rows[i], pair, from) ==>
                            r.0.value.date <= store.rows[i].date)
                      && r.1 == store.(memo := store.memo[MemoKey(pair, Day(date)) := r.0.value]))
    ensures MemoSound(store) ==> MemoSound(r.1)
  {
    var key := MemoKey(pair, Day(date));
    if key in store.memo then (Ok(store.memo[key]), store)
    else
      match Earliest(store.rows, pair, Midnight(Day(date)))
      case None => (Err(NoResult), store)
      case Some(i) =>
        var rate := store.rows[i];
        (Ok(rate), store.(memo := store.memo[key := rate]))
  }

  /** `findRatePair`: format the pair, whose validation errors propagate
      before the memo or the table is consulted, then look it up. */
  function FindRatePair(store: RateStore, source: CurrencyArg, target: CurrencyArg,
                        date: Stamp): (r: (Result<ExchangeRate>, RateStore))
    ensures r.1.rows == store.rows
    ensures FormatPair(source, target).Err? ==> r == (Err(FormatPair(source, target).error), store)
    ensures FormatPair(source, target).Ok? ==> r == LookupPair(store, FormatPair(source, target).value, date)
    ensures r.0.Err? ==> r.0.error == NoResult || r.0.error.CodeRequired? || r.0.error.CodeMalformed?
    ensures MemoSound(store) ==> MemoSound(r.1)
  {
    match FormatPair(source, target)
    case Err(e) => (Err(e), store)
    case Ok(pair) => LookupPair(store, pair, date)
  }

  /** Persisting a rate appends a row; the memo is untouched. */
  function Persist(store: RateStore, rate: ExchangeRate): (r: RateStore)
    ensures r.rows == store.rows + [rate] && r.memo == store.memo
    ensures MemoSound(store) ==> MemoSound(r)
  {
    store.(rows := store.rows + [rate])
  }

  // ---------------------------------------------------------------- lemmas

  /** Whether answered from the memo or by the query, the result has the
      requested pair, is not dated before the requested day, and is a stored
      row. */
  lemma FindRatePairSound(store: RateStore, source: CurrencyArg, target: CurrencyArg, date: Stamp)
    requires MemoSound(store)
    ensures var r := FindRatePair(store, source, target, date);
      r.0.Ok? ==> && r.0.value.pair == FormatPair(source, target).value
                  && r.0.value.date >= Midnight(Day(date))
                  && r.0.value in store.rows
  {
  }

  /** Once a (pair, day) is answered, the same pair on the same calendar day,
      at any time of that day, gets the same rate back without a query and
      without any state change, whatever rows were added meanwhile. */
  lemma MemoOutlivesTable(store: RateStore, source: CurrencyArg, target: CurrencyArg,
                          date: Stamp, later: Stamp, added: seq<ExchangeRate>)
    requires FindRatePair(store, source, target, date).0.Ok?
    requires Day(later) == Day(date)
    ensures var (r, s1) := FindRatePair(store, source, target, date);
      var s2 := s1.(rows := s1.rows + added);
      FindRatePair(s2, source, target, later) == (r, s2)
  {
  }

  /** A row stored after the requested day answers it when nothing earlier
      qualifies: the lookup tolerates rates dated ahead of the request. */
  lemma LaterRowAnswersEarlierDay(rate: ExchangeRate, source: CurrencyArg, target: CurrencyArg,
                                  date: Stamp)
    requires FormatPair(source, target) == Ok(rate.pair)
    requires Day(rate.date) > Day(date)
    ensures FindRatePair(RateStore([rate], map[]), source, target, date).0 == Ok(rate)
  {
    assert FindRatePair(RateStore([rate], map[]), source, target, date)
        == LookupPair(RateStore([rate], map[]), rate.pair, date);
    LaterRowLookup(rate, date);
  }

  lemma LaterRowLookup(rate: ExchangeRate, date: Stamp)
    requires Day(rate.date) > Day(date)
    ensures LookupPair(RateStore([rate], map[]), rate.pair, date).0 == Ok(rate)
  {
    DayBounds(rate.date);
    assert Qualifies(rate, rate.pair, Midnight(Day(date)));
    assert Earliest([rate], rate.pair, Midnight(Day(date))) == Some(0);
  }

  /** A row of the pair dated on or after the day's midnight makes the
      lookup succeed, from the memo or from the table. */
  lemma QualifyingRowAnswers(store: RateStore, pair: string, date: Stamp, i: nat)
    requires i < |store.rows| && store.rows[i].pair == pair
    requires Midnight(Day(date)) <= store.rows[i].date
    ensures LookupPair(store, pair, date).0.Ok?
  {
    assert Qualifies(store.rows[i], pair, Midnight(Day(date)));
  }

  /** With no row of the pair, and a sound memo, the lookup fails with
      `NoResultException` whatever the date. */
  lemma AbsentPairNoResult(store: RateStore, source: CurrencyArg, target: CurrencyArg, date: Stamp)
    requires MemoSound(store)
    requires FormatPair(source, target).Ok?
    requires forall i :: 0 <= i < |store.rows| ==> store.rows[i].pair != FormatPair(source, target).value
    ensures FindRatePair(store, source, target, date) == (Err(NoResult), store)
  {
    AbsentPairLookup(store, FormatPair(source, target).value, date);
  }

  lemma AbsentPairLookup(store: RateStore, pair: string, date: Stamp)
    requires MemoSound(store)
    requires forall i :: 0 <= i < |store.rows| ==> store.rows[i].pair != pair
    ensures LookupPair(store, pair, date) == (Err(NoResult), store)
  {
    forall k | k in store.memo
      ensures k.pair != pair
    {
      var i :| 0 <= i < |store.rows| && store.rows[i] == store.memo[k];
    }
    assert MemoKey(pair, Day(date)) !in store.memo;
  }
}
