/** The `Currency` entity: a code, a symbol, a positive unit, the main flag and
    an optional locale, with the setters that guard them. */
module Currencies {
  import opened Wrappers
  import opened Codes

  /** One row of the currency table. `id` is the row identity (the ORM
      identifier); `active`, `rateLock` and `defaultSchema` are the columns the
      bulk updater reads and writes. The inserted-date column is not modelled. */
  datatype Currency = Currency(
    id: nat,
    code: string,
    symbol: string,
    unit: int,
    main: bool,
    locale: Option<string>,
    active: bool,
    rateLock: bool,
    defaultSchema: Option<string>)

  /** Most entry points accept a currency record or a code string. */
  datatype CurrencyArg = Entity(currency: Currency) | Code(code: string)

  /** The text a `CurrencyArg` contributes to a pair: `getCode()` of a record,
      the string itself otherwise. */
  function ArgCode(a: CurrencyArg): string {
    match a
    case Entity(c) => c.code
    case Code(s) => s
  }

  /** What the setters guarantee of every constructed currency. */
  predicate Valid(c: Currency) {
    IsStoredCode(c.code) && c.unit > 0
  }

  /** `setCode`: store the normalised code, or throw and keep the old one. */
  function SetCode(c: Currency, code: string): (r: Step<Currency>)
    ensures r.outcome == ValidateCode(code)
    ensures r.outcome.Pass? ==> r.state == c.(code := Normalize(code)) && IsStoredCode(r.state.code)
    ensures r.outcome.Fail? ==> r.state == c
  {
    var n := Normalize(code);
    ValidateNormalized(code);
    match ValidateCode(n)
    case Fail(e) => Step(c, Fail(e))
    case Pass => NormalizedValidIsStored(code); Step(c.(code := n), Pass)
  }

  function SetSymbol(c: Currency, symbol: string): Currency {
    c.(symbol := symbol)
  }

  /** `setUnit`: a unit of zero or below throws and keeps the old unit. */
  function SetUnit(c: Currency, unit: int): (r: Step<Currency>)
    ensures r.outcome.Pass? <==> unit > 0
    ensures r.outcome.Pass? ==> r.state == c.(unit := unit)
    ensures r.outcome.Fail? ==> r.state == c && r.outcome.error == UnitNotPositive(unit)
  {
    if unit <= 0 then Step(c, Fail(UnitNotPositive(unit))) else Step(c.(unit := unit), Pass)
  }

  /** `setMain`: only the flag changes. */
  function SetMain(c: Currency, main: bool): (r: Currency)
    ensures r.main == main
    ensures r.(main := c.main) == c
  {
    c.(main := main)
  }

  /** `setLocale`: a non-null locale is stored in its normalised form
      (`Localization::normalize`, passed in as `norm`); null clears it. */
  function SetLocale(c: Currency, locale: Option<string>, norm: string -> string): (r: Currency)
    ensures locale.Some? ==> r.locale == Some(norm(locale.value))
    ensures locale.None? ==> r.locale.None?
    ensures r.(locale := c.locale) == c
  {
    match locale
    case Some(l) => c.(locale := Some(norm(l)))
    case None => c.(locale := None)
  }

  /** The state of a `Currency` before its constructor body runs: the property
      defaults `unit = 1`, `main = false`, `locale = null`. */
  function Blank(id: nat): Currency {
    Currency(id, "", "", 1, false, None, true, false, None)
  }

  /** `new Currency($code, $symbol, $unit)`: `setCode`, `setSymbol`, `setUnit`
      in that order; the first setter that throws aborts construction. */
  function NewCurrency(id: nat, code: string, symbol: string, unit: int): (r: Result<Currency>)
    ensures r.Ok? <==> ValidateCode(code).Pass? && unit > 0
    ensures ValidateCode(code).Fail? ==> r == Err(ValidateCode(code).error)
    ensures ValidateCode(code).Pass? && unit <= 0 ==> r == Err(UnitNotPositive(unit))
    ensures r.Ok? ==> Valid(r.value)
    ensures r.Ok? ==> r.value.id == id && r.value.code == Normalize(code)
                      && r.value.symbol == symbol && r.value.unit == unit
    ensures r.Ok? ==> !r.value.main && r.value.locale.None?
                      && r.value.active && !r.value.rateLock && r.value.defaultSchema.None?
  {
    var withCode := SetCode(Blank(id), code);
    if withCode.outcome.Fail? then Err(withCode.outcome.error)
    else
      var withUnit := SetUnit(SetSymbol(withCode.state, symbol), unit);
      if withUnit.outcome.Fail? then Err(withUnit.outcome.error)
      else Ok(withUnit.state)
  }

  /** `unit > 0` and a stored code hold from construction on: no setter can
      break them, whether it succeeds or throws. */
  lemma SettersKeepValid(c: Currency, code: string, symbol: string, unit: int,
                         main: bool, locale: Option<string>, norm: string -> string)
    requires Valid(c)
    ensures Valid(SetCode(c, code).state)
    ensures Valid(SetSymbol(c, symbol))
    ensures Valid(SetUnit(c, unit).state)
    ensures Valid(SetMain(c, main))
    ensures Valid(SetLocale(c, locale, norm))
  {
    SetCodeKeepsValid(c, code);
    SetUnitKeepsValid(c, unit);
    assert SetSymbol(c, symbol).code == c.code && SetSymbol(c, symbol).unit == c.unit;
    assert SetMain(c, main).code == c.code && SetMain(c, main).unit == c.unit;
    var l := SetLocale(c, locale, norm);
    assert l.code == c.code && l.unit == c.unit;
  }

  lemma SetCodeKeepsValid(c: Currency, code: string)
    requires Valid(c)
    ensures Valid(SetCode(c, code).state)
  {
    var r := SetCode(c, code);
    if r.outcome.Pass? {
      assert r.state == c.(code := Normalize(code));
    } else {
      assert r.state == c;
    }
  }

  lemma SetUnitKeepsValid(c: Currency, unit: int)
    requires Valid(c)
    ensures Valid(SetUnit(c, unit).state)
  {
    var r := SetUnit(c, unit);
    if r.outcome.Pass? {
      assert r.state == c.(unit := unit);
    } else {
      assert r.state == c;
    }
  }

  /** A currency built from a three-letter upper-case word with the default
      unit always constructs. */
  lemma NewCurrencyOfWord(id: nat, code: string, symbol: string)
    requires |code| == 3 && forall i :: 0 <= i < 3 ==> IsUpperLetter(code[i])
    ensures NewCurrency(id, code, symbol, 1).Ok?
    ensures NewCurrency(id, code, symbol, 1).value.code == code
  {
    UpperWordIsStored(code);
  }
}
