/** The `ExchangeRate` entity: a source and a target currency, the pair key,
    the instant it was created, and three optional non-negative components. */
module Rates {
  import opened Wrappers
  import opened Codes
  import opened Clock
  import opened Currencies

  datatype ExchangeRate = ExchangeRate(
    source: Currency,
    target: Currency,
    pair: string,
    date: Stamp,
    buy: Option<real>,
    sell: Option<real>,
    middle: Option<real>)

  predicate NonNegative(v: Option<real>) {
    v.None? || v.value >= 0.0
  }

  /** What the setters guarantee of every rate: no negative component. */
  predicate ValidRate(r: ExchangeRate) {
    NonNegative(r.buy) && NonNegative(r.sell) && NonNegative(r.middle)
  }

  /** `ExchangeRate::formatPair`: both sides must validate; the key is the two
      codes concatenated AS GIVEN. A record contributes its stored code, a string
      contributes itself, without trimming or upper-casing. */
  function FormatPair(source: CurrencyArg, target: CurrencyArg): (r: Result<string>)
    ensures r.Ok? <==> ValidateCode(ArgCode(source)).Pass? && ValidateCode(ArgCode(target)).Pass?
    ensures r.Ok? ==> r.value == ArgCode(source) + ArgCode(target)
    ensures ValidateCode(ArgCode(source)).Fail? ==> r == Err(ValidateCode(ArgCode(source)).error)
    ensures ValidateCode(ArgCode(source)).Pass? && ValidateCode(ArgCode(target)).Fail?
            ==> r == Err(ValidateCode(ArgCode(target)).error)
    ensures r.Err? ==> r.error.CodeRequired? || r.error.CodeMalformed?
  {
    var s := ArgCode(source);
    var t := ArgCode(target);
    match ValidateCode(s)
    case Fail(e) => Err(e)
    case Pass =>
      match ValidateCode(t)
      case Fail(e) => Err(e)
      case Pass => Ok(s + t)
  }

  /** `new ExchangeRate($source, $target)`: the pair is formatted from the two
      records, the date is the construction instant, all components are null. */
  function NewRate(source: Currency, target: Currency, now: Stamp): (r: Result<ExchangeRate>)
    ensures r.Ok? <==> ValidateCode(source.code).Pass? && ValidateCode(target.code).Pass?
    ensures r.Ok? ==> r.value.source == source && r.value.target == target
                      && r.value.pair == source.code + target.code && r.value.date == now
    ensures r.Ok? ==> r.value.buy.None? && r.value.sell.None? && r.value.middle.None?
  {
    match FormatPair(Entity(source), Entity(target))
    case Err(e) => Err(e)
    case Ok(pair) => Ok(ExchangeRate(source, target, pair, now, None, None, None))
  }

  /** `middle ?? ((buy ?? 0) + (sell ?? 0)) / 2`. */
  function ResolvedValue(r: ExchangeRate): real {
    match r.middle
    case Some(m) => m
    case None => (r.buy.GetOr(0.0) + r.sell.GetOr(0.0)) / 2.0
  }

  /** `getValue`: the resolved value, or a LogicException when it is zero
      (the float tolerance of `Floats::isZero` is taken as exact zero). */
  function GetValue(r: ExchangeRate): (v: Result<real>)
    ensures v.Ok? <==> ResolvedValue(r) != 0.0
    ensures v.Ok? ==> v.value == ResolvedValue(r)
    ensures v.Err? ==> v.error == RateUnresolved(r.pair)
  {
    var value := ResolvedValue(r);
    if value == 0.0 then Err(RateUnresolved(r.pair)) else Ok(value)
  }

  /** Guard shared by the three setters: null and non-negative values are stored,
      a negative one throws and leaves the rate as it was. */
  function SetField(r: ExchangeRate, field: RateField, v: Option<real>): (s: Step<ExchangeRate>)
    ensures s.outcome.Pass? <==> NonNegative(v)
    ensures s.outcome.Fail? ==> s.state == r && s.outcome.error == NegativeRateField(field, r.pair)
    ensures s.outcome.Pass? && field == Buy ==> s.state == r.(buy := v)
    ensures s.outcome.Pass? && field == Sell ==> s.state == r.(sell := v)
    ensures s.outcome.Pass? && field == Middle ==> s.state == r.(middle := v)
  {
    if v.Some? && v.value < 0.0 then Step(r, Fail(NegativeRateField(field, r.pair)))
    else
      match field
      case Buy => Step(r.(buy := v), Pass)
      case Sell => Step(r.(sell := v), Pass)
      case Middle => Step(r.(middle := v), Pass)
  }

  function SetBuy(r: ExchangeRate, v: Option<real>): Step<ExchangeRate> {
    SetField(r, Buy, v)
  }

  function SetSell(r: ExchangeRate, v: Option<real>): Step<ExchangeRate> {
    SetField(r, Sell, v)
  }

  function SetMiddle(r: ExchangeRate, v: Option<real>): Step<ExchangeRate> {
    SetField(r, Middle, v)
  }

  // ---------------------------------------------------------------- lemmas

  /** Each setter touches its own component only: the pair, the date and both
      currencies survive every setter call, successful or not, and validity
      is kept. */
  lemma SettersFrame(r: ExchangeRate, field: RateField, v: Option<real>)
    ensures var s := SetField(r, field, v).state;
      s.pair == r.pair && s.date == r.date && s.source == r.source && s.target == r.target
    ensures var s := SetField(r, field, v).state;
      (field != Buy ==> s.buy == r.buy) && (field != Sell ==> s.sell == r.sell)
      && (field != Middle ==> s.middle == r.middle)
    ensures ValidRate(r) ==> ValidRate(SetField(r, field, v).state)
  {
  }

  /** Because no component is ever negative, a value `getValue` returns is
      strictly positive. */
  lemma ValueIsPositive(r: ExchangeRate)
    requires ValidRate(r)
    requires GetValue(r).Ok?
    ensures GetValue(r).value > 0.0
  {
  }

  /** A middle of zero fails even when buy and sell are set: middle wins. */
  lemma ZeroMiddleFails(r: ExchangeRate)
    requires r.middle == Some(0.0)
    ensures GetValue(r) == Err(RateUnresolved(r.pair))
  {
  }

  /** A rate with nothing set cannot be resolved. */
  lemma UnsetRateFails(r: ExchangeRate)
    requires r.middle.None? && r.buy.None? && r.sell.None?
    ensures GetValue(r).Err?
  {
  }

  /** Without a middle, the value is the mean of buy and sell, a missing side
      counting as zero. */
  lemma ValueWithoutMiddle(r: ExchangeRate, b: real, s: real)
    requires r.middle.None? && r.buy.GetOr(0.0) == b && r.sell.GetOr(0.0) == s
    requires b + s != 0.0
    ensures GetValue(r) == Ok((b + s) / 2.0)
  {
  }

  /** Two stored three-letter codes make a six-character key that splits back
      into the two codes. */
  lemma PairOfStoredCodes(source: Currency, target: Currency)
    requires IsStoredCode(source.code) && |source.code| == 3
    requires IsStoredCode(target.code) && |target.code| == 3
    ensures FormatPair(Entity(source), Entity(target)).Ok?
    ensures var p := FormatPair(Entity(source), Entity(target)).value;
      |p| == 6 && p[..3] == source.code && p[3..] == target.code
  {
    var p := source.code + target.code;
    assert p[..3] == source.code;
    assert p[3..] == target.code;
  }

  /** Strings go into the key unnormalised: "usd" and "eur" validate but make
      the key "usdeur", which no record-built rate carries. */
  lemma RawCodesKeepTheirCase()
    ensures FormatPair(Code("usd"), Code("eur")) == Ok("usdeur")
  {
    LowerUsdNormalizes();
    LowerEurNormalizes();
    assert ValidateCode("usd").Pass? && ValidateCode("eur").Pass?;
    assert forall i :: 0 <= i < 6 ==> ("usd" + "eur")[i] == "usdeur"[i];
    assert "usd" + "eur" == "usdeur";
  }

  lemma LowerUsdNormalizes()
    ensures Normalize("usd") == "USD"
  {
    TrimOfTrimmed("usd");
    assert UpperChar('u') == 'U' && UpperChar('s') == 'S' && UpperChar('d') == 'D';
    assert forall i :: 0 <= i < 3 ==> ToUpper("usd")[i] == "USD"[i];
  }

  lemma LowerEurNormalizes()
    ensures Normalize("eur") == "EUR"
  {
    TrimOfTrimmed("eur");
    assert UpperChar('e') == 'E' && UpperChar('u') == 'U' && UpperChar('r') == 'R';
    assert forall i :: 0 <= i < 3 ==> ToUpper("eur")[i] == "EUR"[i];
  }

  /** A freshly constructed rate keeps both records and carries their pair key. */
  lemma NewRateOfStored(source: Currency, target: Currency, now: Stamp)
    requires IsStoredCode(source.code) && IsStoredCode(target.code)
    ensures NewRate(source, target, now).Ok?
    ensures NewRate(source, target, now).value.pair == source.code + target.code
    ensures ValidRate(NewRate(source, target, now).value)
  {
  }
}
