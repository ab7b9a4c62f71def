/** `CurrencyResolver`: the acting currency of a request, from an explicit
    currency, the session, or the locale. The session is a string map and the
    request locale and `Localization::normalize` are parameters. */
module Resolver {
  import opened Wrappers
  import opened Codes
  import opened Currencies
  import opened Manager

  /** The session variables, `$_SESSION`, with string values. */
  type Session = map<string, string>

  const SessionKey: string := "baraja_shop__currency"

  /** `getSessionValue`: a missing key and an empty string both mean "no
      preference". */
  function SessionValue(session: Session): (r: Option<string>)
    ensures r.None? <==> SessionKey !in session || session[SessionKey] == ""
    ensures r.Some? ==> r.value == session[SessionKey] && r.value != ""
  {
    if SessionKey in session && session[SessionKey] != "" then Some(session[SessionKey]) else None
  }

  /** `setSessionValue`: null unsets the key, a string stores it. */
  function SetSessionValue(session: Session, value: Option<string>): (r: Session)
    ensures value.None? ==> SessionKey !in r
    ensures value.Some? ==> SessionKey in r && r[SessionKey] == value.value
    ensures forall k :: k != SessionKey ==> (k in r <==> k in session)
    ensures forall k :: k != SessionKey && k in r ==> r[k] == session[k]
  {
    match value
    case None => session - {SessionKey}
    case Some(v) => session[SessionKey := v]
  }

  /** `setCurrency`: remember the currency's code, or forget the preference. */
  function SetCurrency(session: Session, currency: Option<Currency>): (r: Session)
    ensures currency.Some? ==> SessionKey in r && r[SessionKey] == currency.value.code
    ensures currency.None? ==> SessionKey !in r
    ensures forall k :: k != SessionKey ==> (k in r <==> k in session)
    ensures forall k :: k != SessionKey && k in r ==> r[k] == session[k]
  {
    match currency
    case None => SetSessionValue(session, None)
    case Some(c) => SetSessionValue(session, Some(c.code))
  }

  /** `getCurrency`: an explicit currency wins; then a session code, looked up
      by code with its errors propagated; then the locale given, or the
      localization's current locale, where every failure of the lookup becomes
      "expected currency does not exist". */
  function ResolveCurrency(reg: Registry, session: Session, expected: Option<Currency>,
                           locale: Option<string>, current: string,
                           norm: string -> string): (r: (Result<Currency>, Registry))
    ensures expected.Some? ==> r == (Ok(expected.value), reg)
    ensures expected.None? && SessionValue(session).Some? ==>
      r == GetCurrency(reg, Code(SessionValue(session).value))
    ensures expected.None? && SessionValue(session).None? ==>
      var l := locale.GetOr(current);
      && r.1 == GetByLocale(reg, l, norm).1
      && (GetByLocale(reg, l, norm).0.Ok? ==> r.0 == GetByLocale(reg, l, norm).0)
      && (GetByLocale(reg, l, norm).0.Err? ==> r.0 == Err(NoExpectedCurrency))
  {
    if expected.Some? then (Ok(expected.value), reg)
    else
      match SessionValue(session)
      case Some(code) => GetCurrency(reg, Code(code))
      case None =>
        var found := GetByLocale(reg, locale.GetOr(current), norm);
        if found.0.Ok? then found else (Err(NoExpectedCurrency), found.1)
  }

  // ---------------------------------------------------------------- lemmas

  /** Storing a currency and reading the session back gives its code, for
      every currency a constructor can produce. */
  lemma SetThenGet(session: Session, c: Currency)
    requires Valid(c)
    ensures SessionValue(SetCurrency(session, Some(c))) == Some(c.code)
  {
  }

  /** Clearing the preference makes the session tier fall through to the
      locale tier. */
  lemma ClearedSessionIsSkipped(reg: Registry, session: Session, locale: Option<string>,
                                current: string, norm: string -> string)
    ensures SessionValue(SetCurrency(session, None)).None?
    ensures var l := locale.GetOr(current);
      ResolveCurrency(reg, SetCurrency(session, None), None, locale, current, norm).1
      == GetByLocale(reg, l, norm).1
  {
  }

  /** With no explicit currency, a stored preference resolves to the first
      listed currency with that code, whatever the locale. */
  lemma StoredPreferenceWins(reg: Registry, session: Session, c: Currency,
                             locale: Option<string>, current: string, norm: string -> string)
    requires Valid(c)
    requires FindCode(GetCurrencies(reg).0, c.code) == Ok(c)
    ensures ResolveCurrency(reg, SetCurrency(session, Some(c)), None, locale, current, norm)
            == (Ok(c), GetCurrencies(reg).1)
  {
    SetThenGet(session, c);
  }

  /** A preference that no longer validates or no longer exists is an error
      of its own, not a fallback to the locale. */
  lemma StalePreferenceFails(reg: Registry, session: Session, locale: Option<string>,
                             current: string, norm: string -> string)
    requires SessionValue(session).Some?
    requires GetCurrency(reg, Code(SessionValue(session).value)).0.Err?
    ensures var r := ResolveCurrency(reg, session, None, locale, current, norm);
      r.0.Err? && r.0.error != NoExpectedCurrency
  {
  }

  /** Setting the preference twice keeps only the second. */
  lemma SetCurrencyOverwrites(session: Session, a: Option<Currency>, b: Option<Currency>)
    ensures SetCurrency(SetCurrency(session, a), b) == SetCurrency(session, b)
  {
    var x := SetCurrency(SetCurrency(session, a), b);
    var y := SetCurrency(session, b);
    assert forall k :: k in x <==> k in y;
  }
}
