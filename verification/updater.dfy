/** `ExchangeRateUpdater`: seed the default currencies into an empty table,
    then fetch every ordered pair of active currencies in nested-loop order. */
module Updater {
  import opened Wrappers
  import opened Codes
  import opened Clock
  import opened Currencies
  import opened Rates
  import opened Fetcher
  import opened Manager

  /** One entry of `DEFAULT_CURRENCIES`: code, symbol, display schema. */
  datatype DefaultRow = DefaultRow(code: string, symbol: string, schema: string)

  const DefaultCurrencies: seq<DefaultRow> := [
    DefaultRow("CZK", "Kč", "%NUM% %SYMBOL%"),
    DefaultRow("EUR", "€", "%SYMBOL% %NUM%"),
    DefaultRow("USD", "$", "%SYMBOL% %NUM%"),
    DefaultRow("GBP", "£", "%NUM% %SYMBOL%")
  ]

  /** Three upper-case letters: a code every constructor accepts unchanged. */
  predicate IsWord(code: string) {
    |code| == 3 && forall i :: 0 <= i < 3 ==> IsUpperLetter(code[i])
  }

  /** A row the seeding loop wrote for `d` under `id`: the default's code,
      symbol and schema, the default unit, active, unlocked, without a locale. */
  predicate SeededRow(c: Currency, d: DefaultRow, id: nat) {
    && c.code == d.code && c.symbol == d.symbol && c.defaultSchema == Some(d.schema)
    && c.id == id && c.unit == 1 && c.active && !c.rateLock && c.locale.None?
  }

  /** One iteration of the seeding loop: construct with the default unit,
      then `setDefaultSchema` and `setMain`, which write their field only. */
  function SeedOne(id: nat, d: DefaultRow, isMain: bool): (c: Currency)
    requires IsWord(d.code)
    ensures SeededRow(c, d, id) && c.main == isMain
  {
    Currency(id, d.code, d.symbol, 1, isMain, None, true, false, Some(d.schema))
  }

  /** The seeding loop from `defaults` on: the `isMain` flag is cleared after
      its first iteration. Ids are those the table assigns on insertion,
      consecutive from `firstId`. */
  function SeedFrom(defaults: seq<DefaultRow>, firstId: nat, isMain: bool): (r: seq<Currency>)
    requires forall k :: 0 <= k < |defaults| ==> IsWord(defaults[k].code)
    ensures |r| == |defaults|
    ensures forall k :: 0 <= k < |r| ==> SeededRow(r[k], defaults[k], firstId + k)
    ensures forall k :: 0 <= k < |r| ==> (r[k].main <==> isMain && k == 0)
  {
    if defaults == [] then []
    else
      assert IsWord(defaults[0].code);
      [SeedOne(firstId, defaults[0], isMain)] + SeedFrom(defaults[1..], firstId + 1, false)
  }

  /** `createDefaultConfiguration`: a no-op unless the table is empty; an
      empty table receives the four defaults with distinct ids, the first of
      them main. */
  function CreateDefaultConfiguration(store: seq<Currency>): (r: seq<Currency>)
    ensures store != [] ==> r == store
    ensures store == [] ==> |r| == |DefaultCurrencies|
    ensures store == [] ==> forall k :: 0 <= k < |r| ==> SeededRow(r[k], DefaultCurrencies[k], k + 1)
    ensures store == [] ==> forall k :: 0 <= k < |r| ==> (r[k].main <==> k == 0)
    ensures store == [] ==> UniqueIds(r)
  {
    if store != [] then store
    else
      DefaultsAreWords();
      SeedFrom(DefaultCurrencies, NextId(store), true)
  }

  /** `getAllCurrencies`: the active rows, in table order. */
  function Active(store: seq<Currency>): (r: seq<Currency>)
    ensures forall c :: c in r <==> c in store && c.active
    ensures |r| <= |store|
  {
    if store == [] then []
    else
      var last := store[|store| - 1];
      assert store == store[..|store| - 1] + [last];
      Active(store[..|store| - 1]) + (if last.active then [last] else [])
  }

  /** The loop body's filter: a rate-locked target, or the same code on both
      sides, is skipped. */
  predicate Fetchable(s: Currency, t: Currency) {
    !t.rateLock && s.code != t.code
  }

  /** The inner loop: the pairs (s, t) for t in `targets`, in order. */
  function Targets(s: Currency, targets: seq<Currency>): seq<(Currency, Currency)> {
    if targets == [] then []
    else
      var last := targets[|targets| - 1];
      Targets(s, targets[..|targets| - 1]) + (if Fetchable(s, last) then [(s, last)] else [])
  }

  /** The outer loop over `sources`, each running the inner loop over `all`. */
  function PairsOf(sources: seq<Currency>, all: seq<Currency>): seq<(Currency, Currency)> {
    if sources == [] then []
    else
      var last := sources[|sources| - 1];
      PairsOf(sources[..|sources| - 1], all) + Targets(last, all)
  }

  /** Every ordered pair the two nested loops over `cs` fetch. */
  function Pairs(cs: seq<Currency>): seq<(Currency, Currency)> {
    PairsOf(cs, cs)
  }

  /** The loop body's call: fetch one pair for a fixed date, clock and
      service; the rate or error, and the request sent if any. */
  function FetchFor(date: Stamp, now: Stamp, api: Request -> Reply): (Currency, Currency) -> (Result<ExchangeRate>, Option<Request>) {
    (s: Currency, t: Currency) => Fetch(s, t, date, now, api)
  }

  /** The loop body after a successful run so far: the request `f` sent, if
      any, is recorded; its rate is appended, or its error ends the run. */
  function Extend(run: (Result<seq<ExchangeRate>>, seq<Request>), f: (Result<ExchangeRate>, Option<Request>)): (Result<seq<ExchangeRate>>, seq<Request>)
    requires run.0.Ok?
  {
    var sent := run.1 + (if f.1.Some? then [f.1.value] else []);
    match f.0
    case Err(e) => (Err(e), sent)
    case Ok(v) => (Ok(run.0.value + [v]), sent)
  }

  /** Fetch each pair in order, stopping at the first failure: the exception
      leaves the loop, and the flush that would have written the rates fetched
      so far is never reached. The second component lists the requests sent. */
  function FetchAll(pairs: seq<(Currency, Currency)>,
                    fetch: (Currency, Currency) -> (Result<ExchangeRate>, Option<Request>)): (Result<seq<ExchangeRate>>, seq<Request>)
  {
    if pairs == [] then (Ok([]), [])
    else
      var n := |pairs| - 1;
      var prev := FetchAll(pairs[..n], fetch);
      if prev.0.Err? then prev else Extend(prev, fetch(pairs[n].0, pairs[n].1))
  }

  /** The pairs the loops have handled when the outer loop is at source `i`
      and the inner loop at target `j`. */
  function Done(cs: seq<Currency>, i: nat, j: nat): seq<(Currency, Currency)>
    requires i < |cs| && j <= |cs|
  {
    PairsOf(cs[..i], cs) + Targets(cs[i], cs[..j])
  }

  /** `updateAll`: default the date to today's midnight, seed an empty table,
      then run the nested loops over the active currencies. Rates are written
      by the single flush at the end, so a failure writes none of them. */
  method UpdateAll(store: seq<Currency>, rows: seq<ExchangeRate>, date: Option<Stamp>,
                   now: Stamp, api: Request -> Reply)
    returns (outcome: Outcome, seeded: seq<Currency>, stored: seq<ExchangeRate>, sent: seq<Request>)
    ensures seeded == CreateDefaultConfiguration(store)
    ensures var run := FetchAll(Pairs(Active(seeded)), FetchFor(date.GetOr(Midnight(Day(now))), now, api));
      && sent == run.1
      && (run.0.Ok? ==> outcome == Pass && stored == rows + run.0.value)
      && (run.0.Err? ==> outcome == Fail(run.0.error) && stored == rows)
  {
    var d := if date.Some? then date.value else Midnight(Day(now));
    seeded := CreateDefaultConfiguration(store);
    var fetched;
    outcome, fetched, sent := RunLoops(Active(seeded), FetchFor(d, now, api));
    stored := if outcome.Pass? then rows + fetched else rows;
  }

  /** The two nested loops of `updateAll` over the active currencies `cs`:
      the outcome, the rates fetched (to be flushed on success) and the
      requests sent, exactly as `FetchAll` over `Pairs(cs)` describes them. */
  method RunLoops(cs: seq<Currency>, fetch: (Currency, Currency) -> (Result<ExchangeRate>, Option<Request>))
    returns (outcome: Outcome, fetched: seq<ExchangeRate>, sent: seq<Request>)
    ensures var run := FetchAll(Pairs(cs), fetch);
      && sent == run.1
      && (run.0.Ok? ==> outcome == Pass && fetched == run.0.value)
      && (run.0.Err? ==> outcome == Fail(run.0.error))
  {
    fetched, sent := [], [];
    var i := 0;
    while i < |cs|
      invariant 0 <= i <= |cs|
      invariant FetchAll(PairsOf(cs[..i], cs), fetch) == (Ok(fetched), sent)
    {
      var j := 0;
      DoneAtStart(cs, i);
      while j < |cs|
        invariant 0 <= j <= |cs|
        invariant FetchAll(Done(cs, i, j), fetch) == (Ok(fetched), sent)
      {
        InnerStep(cs, i, j, fetch);
        if Fetchable(cs[i], cs[j]) {
          var next := Extend((Ok(fetched), sent), fetch(cs[i], cs[j]));
          sent := next.1;
          if next.0.Err? {
            RunStopsAtFailure(cs, i, j + 1, fetch);
            outcome := Fail(next.0.error);
            return;
          }
          fetched := next.0.value;
        }
        j := j + 1;
      }
      DoneAtEnd(cs, i);
      i := i + 1;
    }
    assert cs[..|cs|] == cs;
    outcome := Pass;
  }

  // ---------------------------------------------------------------- lemmas

  /** A successful run holds one rate per pair, each what fetching that pair
      gives; a failed run fails with the error of one of its pairs. At most
      one request is sent per pair. */
  lemma {:induction false} FetchAllMeaning(pairs: seq<(Currency, Currency)>,
                                           fetch: (Currency, Currency) -> (Result<ExchangeRate>, Option<Request>))
    ensures var r := FetchAll(pairs, fetch);
      && |r.1| <= |pairs|
      && (r.0.Ok? ==> |r.0.value| == |pairs|
                      && forall i :: 0 <= i < |pairs| ==> fetch(pairs[i].0, pairs[i].1).0 == Ok(r.0.value[i]))
      && (r.0.Err? ==> exists k :: 0 <= k < |pairs| && fetch(pairs[k].0, pairs[k].1).0 == Err(r.0.error))
    decreases |pairs|
  {
    if pairs != [] {
      var n := |pairs| - 1;
      FetchAllMeaning(pairs[..n], fetch);
      var prev := FetchAll(pairs[..n], fetch);
      if prev.0.Err? {
        var k :| 0 <= k < n && fetch(pairs[..n][k].0, pairs[..n][k].1).0 == Err(prev.0.error);
        assert pairs[..n][k] == pairs[k];
      }
    }
  }

  lemma DefaultsAreWords()
    ensures forall k :: 0 <= k < |DefaultCurrencies| ==> IsWord(DefaultCurrencies[k].code)
  {
    assert IsWord("CZK") && IsWord("EUR") && IsWord("USD") && IsWord("GBP");
  }

  /** A failure partway through the loops is the failure of the whole run. */
  lemma RunStopsAtFailure(cs: seq<Currency>, i: nat, j: nat,
                          fetch: (Currency, Currency) -> (Result<ExchangeRate>, Option<Request>))
    requires i < |cs| && j <= |cs|
    requires FetchAll(Done(cs, i, j), fetch).0.Err?
    ensures FetchAll(Pairs(cs), fetch) == FetchAll(Done(cs, i, j), fetch)
  {
    LoopPrefix(cs, i, j);
    FetchAllFailurePersists(Done(cs, i, j), Pairs(cs), fetch);
  }

  lemma DoneAtStart(cs: seq<Currency>, i: nat)
    requires i < |cs|
    ensures Done(cs, i, 0) == PairsOf(cs[..i], cs)
  {
    assert cs[..0] == [];
  }

  lemma DoneAtEnd(cs: seq<Currency>, i: nat)
    requires i < |cs|
    ensures Done(cs, i, |cs|) == PairsOf(cs[..i + 1], cs)
  {
    assert cs[..|cs|] == cs;
    assert cs[..i + 1][..i] == cs[..i];
  }

  /** One iteration of the inner loop: a fetchable pair extends the run by
      its fetch, any other pair leaves it as it was. */
  lemma InnerStep(cs: seq<Currency>, i: nat, j: nat,
                  fetch: (Currency, Currency) -> (Result<ExchangeRate>, Option<Request>))
    requires i < |cs| && j < |cs|
    requires FetchAll(Done(cs, i, j), fetch).0.Ok?
    ensures FetchAll(Done(cs, i, j + 1), fetch)
      == if Fetchable(cs[i], cs[j]) then Extend(FetchAll(Done(cs, i, j), fetch), fetch(cs[i], cs[j]))
         else FetchAll(Done(cs, i, j), fetch)
  {
    var done := Done(cs, i, j);
    assert cs[..j + 1][..j] == cs[..j];
    if Fetchable(cs[i], cs[j]) {
      assert Done(cs, i, j + 1) == done + [(cs[i], cs[j])];
      FetchAllSnoc(done, (cs[i], cs[j]), fetch);
    } else {
      assert Done(cs, i, j + 1) == done;
    }
  }

  lemma FetchAllSnoc(ps: seq<(Currency, Currency)>, p: (Currency, Currency),
                     fetch: (Currency, Currency) -> (Result<ExchangeRate>, Option<Request>))
    requires FetchAll(ps, fetch).0.Ok?
    ensures FetchAll(ps + [p], fetch) == Extend(FetchAll(ps, fetch), fetch(p.0, p.1))
  {
    assert (ps + [p])[..|ps|] == ps;
  }

  /** The pairs handled up to iteration (i, j) of the loops are a prefix of
      all the pairs. */
  lemma LoopPrefix(cs: seq<Currency>, i: nat, j: nat)
    requires i < |cs| && j <= |cs|
    ensures Done(cs, i, j) <= Pairs(cs)
  {
    var head := PairsOf(cs[..i], cs);
    assert Done(cs, i, j) == head + Targets(cs[i], cs[..j]);
    TargetsPrefix(cs[i], cs, j);
    assert cs[..i + 1][..i] == cs[..i];
    assert PairsOf(cs[..i + 1], cs) == head + Targets(cs[i], cs);
    PairsOfPrefix(cs, cs, i + 1);
    assert cs[..|cs|] == cs;
    PrefixExtends(head, Targets(cs[i], cs[..j]), Targets(cs[i], cs));
  }

  lemma PrefixExtends<T>(a: seq<T>, b: seq<T>, c: seq<T>)
    requires b <= c
    ensures a + b <= a + c
  {
    assert (a + c)[..|a + b|] == a + c[..|b|];
  }

  /** The inner loop cut short is a prefix of the full inner loop. */
  lemma {:induction false} TargetsPrefix(s: Currency, ts: seq<Currency>, j: nat)
    requires j <= |ts|
    ensures Targets(s, ts[..j]) <= Targets(s, ts)
    decreases |ts|
  {
    if j < |ts| {
      var n := |ts| - 1;
      assert ts[..n][..j] == ts[..j];
      TargetsPrefix(s, ts[..n], j);
    } else {
      assert ts[..j] == ts;
    }
  }

  /** The outer loop cut short is a prefix of the full outer loop. */
  lemma {:induction false} PairsOfPrefix(sources: seq<Currency>, all: seq<Currency>, i: nat)
    requires i <= |sources|
    ensures PairsOf(sources[..i], all) <= PairsOf(sources, all)
    decreases |sources|
  {
    if i < |sources| {
      var n := |sources| - 1;
      assert sources[..n][..i] == sources[..i];
      PairsOfPrefix(sources[..n], all, i);
    } else {
      assert sources[..i] == sources;
    }
  }

  /** Once a prefix of the pairs fails, running further pairs changes neither
      the failure nor the requests sent. */
  lemma {:induction false} FetchAllFailurePersists(ps: seq<(Currency, Currency)>, qs: seq<(Currency, Currency)>,
                                                   fetch: (Currency, Currency) -> (Result<ExchangeRate>, Option<Request>))
    requires ps <= qs
    requires FetchAll(ps, fetch).0.Err?
    ensures FetchAll(qs, fetch) == FetchAll(ps, fetch)
    decreases |qs|
  {
    if |qs| > |ps| {
      var n := |qs| - 1;
      assert ps <= qs[..n];
      FetchAllFailurePersists(ps, qs[..n], fetch);
    } else {
      assert ps == qs;
    }
  }

  // ------------------------------------------------------ seeding properties

  /** Seeding builds exactly what `new Currency($code, $symbol)` builds, with
      the schema and the main flag written afterwards. */
  lemma SeedOneIsConstructed(id: nat, d: DefaultRow, isMain: bool)
    requires IsWord(d.code)
    ensures NewCurrency(id, d.code, d.symbol, 1).Ok?
    ensures SeedOne(id, d, isMain)
      == NewCurrency(id, d.code, d.symbol, 1).value.(defaultSchema := Some(d.schema), main := isMain)
  {
    NewCurrencyOfWord(id, d.code, d.symbol);
  }

  /** An empty table is seeded with CZK, EUR, USD and GBP, in that order, all
      valid; CZK alone is main. */
  lemma DefaultConfigurationSeeds()
    ensures var r := CreateDefaultConfiguration([]);
      && |r| == 4 && r[0].code == "CZK" && r[1].code == "EUR" && r[2].code == "USD" && r[3].code == "GBP"
      && r[0].main && !r[1].main && !r[2].main && !r[3].main
      && forall k :: 0 <= k < |r| ==> Valid(r[k])
  {
    var r := CreateDefaultConfiguration([]);
    DefaultsAreWords();
    forall k | 0 <= k < |r|
      ensures Valid(r[k])
    {
      assert SeededRow(r[k], DefaultCurrencies[k], k + 1);
      UpperWordIsStored(r[k].code);
    }
  }

  // ------------------------------------------------- enumeration properties

  lemma {:induction false} TargetsMembers(s: Currency, targets: seq<Currency>)
    ensures forall p :: p in Targets(s, targets) <==> p.0 == s && p.1 in targets && Fetchable(s, p.1)
    decreases |targets|
  {
    if targets != [] {
      var n := |targets| - 1;
      TargetsMembers(s, targets[..n]);
      assert targets == targets[..n] + [targets[n]];
    }
  }

  lemma {:induction false} PairsOfMembers(sources: seq<Currency>, all: seq<Currency>)
    ensures forall p :: p in PairsOf(sources, all) <==> p.0 in sources && p.1 in all && Fetchable(p.0, p.1)
    decreases |sources|
  {
    if sources != [] {
      var n := |sources| - 1;
      PairsOfMembers(sources[..n], all);
      TargetsMembers(sources[n], all);
      assert sources == sources[..n] + [sources[n]];
    }
  }

  /** The loops visit exactly the ordered pairs of distinct codes whose target
      is not rate-locked. */
  lemma PairsMembers(cs: seq<Currency>)
    ensures forall p :: p in Pairs(cs) <==> p.0 in cs && p.1 in cs && !p.1.rateLock && p.0.code != p.1.code
  {
    PairsOfMembers(cs, cs);
  }

  /** The rate lock only keeps a currency from being a target: a locked
      currency is still fetched as the source of every other currency. */
  lemma LockedCurrencyStillSource(cs: seq<Currency>, locked: Currency, t: Currency)
    requires locked in cs && t in cs && locked.rateLock
    requires !t.rateLock && locked.code != t.code
    ensures (locked, t) in Pairs(cs)
    ensures (t, locked) !in Pairs(cs)
  {
    PairsMembers(cs);
  }

  /** No value repeats in `s`. */
  predicate Distinct<T(==)>(s: seq<T>) {
    forall i, j :: 0 <= i < j < |s| ==> s[i] != s[j]
  }

  lemma {:induction false} TargetsDistinct(s: Currency, targets: seq<Currency>)
    requires Distinct(targets)
    ensures Distinct(Targets(s, targets))
    decreases |targets|
  {
    if targets != [] {
      var n := |targets| - 1;
      var last := targets[n];
      assert Distinct(targets[..n]);
      TargetsDistinct(s, targets[..n]);
      TargetsMembers(s, targets[..n]);
      assert last !in targets[..n];
    }
  }

  lemma {:induction false} PairsOfDistinct(sources: seq<Currency>, all: seq<Currency>)
    requires Distinct(sources) && Distinct(all)
    ensures Distinct(PairsOf(sources, all))
    decreases |sources|
  {
    if sources != [] {
      var n := |sources| - 1;
      var head := PairsOf(sources[..n], all);
      var tail := Targets(sources[n], all);
      assert Distinct(sources[..n]);
      PairsOfDistinct(sources[..n], all);
      TargetsDistinct(sources[n], all);
      PairsOfMembers(sources[..n], all);
      TargetsMembers(sources[n], all);
      assert sources[n] !in sources[..n];
      DistinctConcat(head, tail);
    }
  }

  lemma DistinctConcat<T>(a: seq<T>, b: seq<T>)
    requires Distinct(a) && Distinct(b)
    requires forall x :: x in a ==> x !in b
    ensures Distinct(a + b)
  {
    forall i, j | 0 <= i < j < |a + b|
      ensures (a + b)[i] != (a + b)[j]
    {
      if i < |a| && j >= |a| {
        assert (a + b)[i] in a && (a + b)[j] in b;
      }
    }
  }

  /** Over distinct currencies every pair is fetched exactly once. */
  lemma PairsFetchedOnce(cs: seq<Currency>)
    requires Distinct(cs)
    ensures Distinct(Pairs(cs))
  {
    PairsOfDistinct(cs, cs);
  }

  // --------------------------------------------------------- run properties

  /** A date past today fails every run before any request is sent. */
  lemma {:induction false} FutureDateSendsNothing(pairs: seq<(Currency, Currency)>, date: Stamp, now: Stamp,
                                                  api: Request -> Reply)
    requires ResolveDate(date, now).Err?
    ensures FetchAll(pairs, FetchFor(date, now, api)).1 == []
    ensures pairs != [] ==> FetchAll(pairs, FetchFor(date, now, api)).0 == Err(FutureDate(Day(date)))
    decreases |pairs|
  {
    if pairs != [] {
      var n := |pairs| - 1;
      FutureDateSendsNothing(pairs[..n], date, now, api);
      var f := Fetch(pairs[n].0, pairs[n].1, date, now, api);
      assert f == (Err(FutureDate(Day(date))), None);
    }
  }

  /** A successful run sends one request per pair, in pair order, each for
      the resolved day. */
  lemma SuccessfulRunRequests(pairs: seq<(Currency, Currency)>, date: Stamp, now: Stamp,
                              api: Request -> Reply)
    requires FetchAll(pairs, FetchFor(date, now, api)).0.Ok?
    ensures pairs != [] ==> ResolveDate(date, now).Ok?
    ensures var sent := FetchAll(pairs, FetchFor(date, now, api)).1;
      && |sent| == |pairs|
      && forall i :: 0 <= i < |pairs| ==>
           sent[i] == Request(pairs[i].0.code, pairs[i].1.code, ResolveDate(date, now).value)
  {
    var fetch := FetchFor(date, now, api);
    forall s, t | fetch(s, t).0.Ok?
      ensures fetch(s, t).1.Some?
    {
      assert fetch(s, t) == Fetch(s, t, date, now, api);
    }
    RunRequests(pairs, fetch);
    FetchAllMeaning(pairs, fetch);
    var sent := FetchAll(pairs, fetch).1;
    forall i | 0 <= i < |pairs|
      ensures ResolveDate(date, now).Ok?
      ensures sent[i] == Request(pairs[i].0.code, pairs[i].1.code, ResolveDate(date, now).value)
    {
      assert fetch(pairs[i].0, pairs[i].1) == Fetch(pairs[i].0, pairs[i].1, date, now, api);
    }
  }

  /** For a fetch that always reports the request behind a success, a
      successful run lists exactly those requests, one per pair. */
  lemma {:induction false} RunRequests(pairs: seq<(Currency, Currency)>,
                                       fetch: (Currency, Currency) -> (Result<ExchangeRate>, Option<Request>))
    requires forall s, t :: fetch(s, t).0.Ok? ==> fetch(s, t).1.Some?
    requires FetchAll(pairs, fetch).0.Ok?
    ensures var sent := FetchAll(pairs, fetch).1;
      && |sent| == |pairs|
      && forall i :: 0 <= i < |pairs| ==> fetch(pairs[i].0, pairs[i].1).1 == Some(sent[i])
    decreases |pairs|
  {
    if pairs != [] {
      var n := |pairs| - 1;
      var prev := FetchAll(pairs[..n], fetch);
      assert prev.0.Ok?;
      RunRequests(pairs[..n], fetch);
      var f := fetch(pairs[n].0, pairs[n].1);
      assert f.0.Ok?;
      var sent := FetchAll(pairs, fetch).1;
      assert sent == prev.1 + [f.1.value];
      forall i | 0 <= i < |pairs|
        ensures fetch(pairs[i].0, pairs[i].1).1 == Some(sent[i])
      {
        if i < n {
          assert pairs[..n][i] == pairs[i];
        }
      }
    }
  }
}
