# shop-currency in Dafny

A functional model of the currency registry and exchange-rate resolution of
the PHP package `baraja-core/shop-currency`. It covers:

- the `Currency` and `ExchangeRate` entities;
- `CurrencyManager`;
- the banking-day rule and reply handling of `ExchangeRateFetcher`;
- the memoised lookup of `ExchangeRateRepository`;
- `ExchangeRateConvertor`, `CurrencyResolver` and `ExchangeRateUpdater`.

Mutable objects become immutable values. Every operation returns its result
together with the new state:

- the currency table and the manager's cached list (`Manager.Registry`);
- the rate table and the repository memo (`Repository.RateStore`);
- the requests sent to the rate service (`Convertor.Shop`).

Exceptions become constructors of `Wrappers.Error`. A setter that throws
returns the object unchanged together with `Fail`.

The outside world enters as parameters:

- the clock is `now`, in integer seconds on one local time line;
- the HTTP round trip is `api: Request -> Reply`;
- `$_SESSION` is a string map;
- `Localization::normalize` is `norm: string -> string`.

Prices and rates are `real`. `bcdiv($price, $rate, 2)` is modelled as a
quotient in hundredths, truncated toward zero.

Files, one module each:

| file | module | models |
|---|---|---|
| wrappers.dfy | Wrappers | `Option`, `Result`, `Outcome`, `Step`, the error vocabulary |
| codes.dfy | Codes | `strtoupper(trim(...))` and `Currency::validateCode` |
| clock.dfy | Clock | calendar day, midnight, hour and minute of an instant |
| currency.dfy | Currencies | `Currency`: constructor and setters |
| exchange_rate.dfy | Rates | `ExchangeRate`: `formatPair`, constructor, `getValue`, setters |
| fetcher.dfy | Fetcher | `resolveDate`, `fetch` and its reply branch |
| currency_manager.dfy | Manager | `CurrencyManager` |
| rate_repository.dfy | Repository | `ExchangeRateRepository::findRatePair` |
| convertor.dfy | Convertor | `getRate`, `getRateToday`, `convert` |
| resolver.dfy | Resolver | `CurrencyResolver` |
| updater.dfy | Updater | `updateAll`, `createDefaultConfiguration`, `isEmpty`, `getAllCurrencies` |

These behaviours of the code are kept exactly as written:

- Validation matches the pattern `^[A-Z]{3}` (src/Entity/Currency.php:52),
  which checks a three-letter prefix only, so "USDX" passes. The message at
  line 54 says "must be 3 exactly chars long".
- `formatPair` concatenates the codes as given, without normalising them
  (src/Entity/ExchangeRate.php:60), although the `pair` column is declared
  with `length: 6` (lines 24-25). The convertor passes the caller's original
  arguments into the lookup. The model compares pair keys exactly (see
  "Left out"). Under that comparison, a lower-case code finds its currency but
  never matches a stored pair key, so every such call fetches again
  (`Convertor.LowerCaseSourceAlwaysFetches`).
- A rate's `date` is set to the construction instant
  (src/Entity/ExchangeRate.php:45). A fetched rate is therefore stored under
  the time of the fetch, not under the day that `resolveDate` chose for the
  request.
- A reply that is not JSON makes `json_decode` throw its own exception
  (src/ExchangeRateFetcher.php:67). The model keeps this separate from the
  `error` branch.
- The same-code short-circuit of `getRate` runs before the date is checked.
  A same-code rate for a date years ahead succeeds.
- `getByLocale` overwrites the table currency's locale unconditionally.
- `createCurrency` inserts into the table but not into the cached list.

## Model

| member | source | states |
|---|---|---|
| Codes.ValidateCode | src/Entity/Currency.php:46-58 | Passes exactly when the trimmed, upper-cased code starts with three letters A-Z. When it fails, the error is "required" if that form is empty and "malformed" (carrying the normalised code) otherwise. |
| Codes.NormalizeIdempotent | src/Entity/Currency.php:67-72 | Normalising a normalised code changes nothing, so a code stored by `setCode` is a fixed point of the normalisation. |
| Codes.ValidateNormalized | src/Entity/Currency.php:67-70 | Validating the normalised code gives the same verdict as validating the raw code. `setCode` validates after normalising, and `validateCode` normalises again. |
| Codes.NormalizedValidIsStored | src/Entity/Currency.php:67-72 | A code that validates normalises to a code in stored form: normalised and itself valid. |
| Codes.ToUpperIdempotent | src/Entity/Currency.php:48 | Upper-casing twice is upper-casing once. |
| Codes.UpperWordIsStored | src/Entity/Currency.php:52 | A word of three or more capital letters is already a stored code. |
| Codes.LongerCodeAccepted | src/Entity/Currency.php:52 | "USDX" validates, because only the prefix is matched. |
| Codes.LowerCaseCodeAccepted | src/Entity/Currency.php:48-52 | " usd\n" normalises to "USD" and validates. |
| Codes.ShortCodeRejected | src/Entity/Currency.php:48-57 | A code whose normalised form is shorter than three characters fails. The error is "required" exactly when that form is empty. |
| Codes.BlankCodeRequired | src/Entity/Currency.php:48-51 | Every code made only of blanks, the empty code included, fails as "required". |
| Clock.ClockFields | src/ExchangeRateFetcher.php:39-41 | An instant built from a day, an hour, a minute and a second reads back that day (`Y-m-d`), hour (`H`) and minute (`i`). |
| Currencies.SetCode | src/Entity/Currency.php:67-72 | The outcome is `validateCode`'s. On success the normalised code is stored and is in stored form. On failure the currency is unchanged. |
| Currencies.SetUnit | src/Entity/Currency.php:93-99 | Succeeds exactly for a positive unit, which is then stored. Otherwise it fails with the unit and leaves the currency unchanged. |
| Currencies.SetMain | src/Entity/Currency.php:108-111 | Sets the flag. Putting the old flag back restores the input, so no other field changes. |
| Currencies.SetLocale | src/Entity/Currency.php:120-126 | A locale is stored normalised, and null clears it. No other field changes. |
| Currencies.NewCurrency | src/Entity/Currency.php:25-43 | Constructs exactly when the code validates and the unit is positive. Otherwise it returns the error of the first setter that throws. The result has a stored code, the given id, symbol and unit, `main = false` and `locale = null`. |
| Currencies.SettersKeepValid | src/Entity/Currency.php:37-126 | A stored code and a positive unit hold from construction on. No setter breaks them, whether it succeeds or throws. |
| Currencies.NewCurrencyOfWord | src/Entity/Currency.php:37-43 | Three capital letters with the default unit always construct, and the code is kept as given. |
| Rates.FormatPair | src/Entity/ExchangeRate.php:49-61 | Succeeds exactly when both sides validate. The key is the two codes concatenated as given. The source's error is reported before the target's. |
| Rates.NewRate | src/Entity/ExchangeRate.php:40-45 | Constructs exactly when both codes validate. The rate keeps both records, the pair of their codes and the construction instant, and all components are null. |
| Rates.GetValue | src/Entity/ExchangeRate.php:88-99 | Succeeds exactly when `middle ?? ((buy ?? 0) + (sell ?? 0)) / 2` is non-zero, and returns that value. Otherwise it fails naming the pair. |
| Rates.SetField | src/Entity/ExchangeRate.php:108-150 | A setter succeeds exactly for null or a non-negative value, which goes into its own component. A negative value fails naming the field and leaves the rate unchanged. |
| Rates.SettersFrame | src/Entity/ExchangeRate.php:108-150 | A setter never changes the pair, the date, the currencies or another component, and it keeps every component non-negative. |
| Rates.ValueIsPositive | src/Entity/ExchangeRate.php:88-150 | Because no component is negative, a value `getValue` returns is strictly positive. |
| Rates.ZeroMiddleFails | src/Entity/ExchangeRate.php:90-96 | A middle of zero fails even when buy and sell are set. |
| Rates.UnsetRateFails | src/Entity/ExchangeRate.php:90-96 | A rate with no component set cannot be resolved. |
| Rates.ValueWithoutMiddle | src/Entity/ExchangeRate.php:90 | Without a middle, the value is the mean of buy and sell, with a missing side counting as zero. |
| Rates.PairOfStoredCodes | src/Entity/ExchangeRate.php:49-61 | Two stored three-letter codes make a six-character key that splits back into the two codes. |
| Rates.RawCodesKeepTheirCase | src/Entity/ExchangeRate.php:57-60 | "usd" and "eur" validate but make the key "usdeur". |
| Rates.NewRateOfStored | src/Entity/ExchangeRate.php:40-45 | Two currencies with stored codes always make a rate whose pair is their two codes joined and whose components are non-negative. |
| Fetcher.ResolveDate | src/ExchangeRateFetcher.php:30-48 | Fails exactly for an instant at or after tomorrow's midnight. Today before 14:45 gives yesterday's midnight, and any other date gives its own midnight. The result is always a midnight, is the requested day or the day before, and is never after today. |
| Fetcher.ResolveDateIdempotent | src/ExchangeRateFetcher.php:30-48 | For a fixed `now`, resolving an already resolved date gives the same day, so `fetch` asks for the day the convertor resolved. |
| Fetcher.CutoffBoundary | src/ExchangeRateFetcher.php:39-44 | At 14:44 today resolves to yesterday, and at 14:45 to today. |
| Fetcher.TwoDaysAheadRefused | src/ExchangeRateFetcher.php:32-37 | A date two days ahead is refused. |
| Fetcher.PastDayResolvesToItself | src/ExchangeRateFetcher.php:47 | An instant of an earlier day resolves to that day's midnight, whatever the time now. |
| Fetcher.Interpret | src/ExchangeRateFetcher.php:69-76 | A rate results exactly when `error` is present and `false` and no component is negative. It then carries the reply's middle, buy and sell. A missing or true `error` fails with the payload, and a negative component fails through its setter. |
| Fetcher.Fetch | src/ExchangeRateFetcher.php:51-79 | A future date fails before any request. Otherwise exactly one request is sent, for both codes and the resolved day. A rate comes back only from a decoded reply whose `error` is `false`. It carries both records, their pair, the instant `now` and the reply's components. |
| Fetcher.ErrorReplyFails | src/ExchangeRateFetcher.php:70-75 | A reply whose `error` is missing or true yields no rate and carries the raw payload. |
| Manager.GetCurrencies | src/CurrencyManager.php:74-91 | A non-empty cached list is returned as it is, with no reload. Otherwise the list is loaded from the table and cached. |
| Manager.Reloaded | src/CurrencyManager.php:76-90 | Loading a loaded registry changes nothing. |
| Manager.LoadOfUniqueStore | src/CurrencyManager.php:77-90 | With distinct ids, the loaded list is a permutation of the table with every main row before every other row. |
| Manager.IndexByIdOfUnique | src/CurrencyManager.php:83-87 | Keying a list with distinct ids by id, then taking the values, gives the list back. |
| Manager.LoadEmpty | src/CurrencyManager.php:74-91 | The loaded list is empty exactly when the table is. |
| Manager.FindCode | src/CurrencyManager.php:101-107 | Finds a currency exactly when some listed entry has the code, and returns the first such entry. Otherwise it fails "does not exist" with the code. |
| Manager.GetCurrency | src/CurrencyManager.php:94-108 | A record is returned unchanged, with no load. A string that fails validation fails with that error. Otherwise the first listed entry with the normalised code is returned, from the loaded list. |
| Manager.LookupAfterLoad | src/CurrencyManager.php:94-108 | Looking a stored code up in a loaded registry searches the loaded list and changes nothing. |
| Manager.LookupSettles | src/CurrencyManager.php:94-108 | After two successful lookups, looking either argument up again returns the same currency and changes nothing. |
| Manager.CreateCurrency | src/CurrencyManager.php:139-146 | Succeeds exactly when the code validates. The valid, non-main currency with a fresh id is appended to the table, and the cached list is not extended. |
| Manager.CreatedCodeStaysUnlisted | src/CurrencyManager.php:139-146 | On a loaded registry, a currency created with a new code is in the table, but looking that code up still fails as "does not exist". |
| Manager.Repair | src/CurrencyManager.php:162-197 | The returned currency is main. It is the first main entry if the list has one, otherwise the first entry promoted, and on an empty list a new USD / "$" with locale "en". |
| Manager.GetMainCurrency | src/CurrencyManager.php:34-43 | The first main entry of the list is returned, and only the load changes the registry. With no main entry, the result and state are those of the repair. The result is always main. |
| Manager.MainOfEmptyRegistry | src/CurrencyManager.php:34-43 | On an empty registry, the main currency is a new USD / "$" with locale "en", stored alone in the table. |
| Manager.CreateMain | src/CurrencyManager.php:185-190 | With no entry at all, USD / "$" is created with a fresh id, flagged main, given the locale "en", and appended to the table. |
| Manager.RepairLeavesOneMain | src/CurrencyManager.php:162-184 | On a non-empty list, exactly one entry is main afterwards and it is the one returned. It is the first main entry if there was one, otherwise the promoted first entry. |
| Manager.RepairOfEmptyTable | src/CurrencyManager.php:185-190 | On an empty table, repair returns a new valid USD / "$" main currency with locale "en". The table then holds it alone and the list stays empty. |
| Manager.RepairIdempotent | src/CurrencyManager.php:162-197 | A second repair returns the same currency and writes no flag. On a non-empty list it changes nothing at all. |
| Manager.RepairOfSoleMain | src/CurrencyManager.php:167-180 | A list whose only main entry is `k` is left as it is, and entry `k` is returned. |
| Manager.SetMainCurrency | src/CurrencyManager.php:149-159 | A failing string lookup propagates. After success, a listed entry is main exactly when it has the chosen currency's id. |
| Manager.MarkOnlyTwice | src/CurrencyManager.php:154-157 | Marking the same identity as main twice is marking it once. |
| Manager.SetMainIdempotent | src/CurrencyManager.php:149-159 | Repeating `setMainCurrency` with the same argument yields the same state and outcome. |
| Manager.RelookupAfterMark | src/CurrencyManager.php:149-159 | After `setMainCurrency`, looking the same argument up again finds the currency of the same identity and leaves the registry as it is. |
| Manager.SetMainByCodeLeavesOneMain | src/CurrencyManager.php:149-159 | On a list with distinct ids, exactly one listed currency is main afterwards, and it carries the normalised code. |
| Manager.TableCodesAreStored | src/CurrencyManager.php:17-22 | Every code in the locale table is already a stored code. |
| Manager.GetByLocale | src/CurrencyManager.php:111-136 | A listed currency with the normalised locale is returned with nothing written. Any other success carries a locale. A failure is "unknown locale" only for a locale missing from the table, and otherwise is a lookup error that is not an invalid-argument error. |
| Manager.ByLocaleListed | src/CurrencyManager.php:111-118 | The first listed currency with the normalised locale is returned, and nothing is written. |
| Manager.ByLocaleUnknown | src/CurrencyManager.php:119-121 | With no listed match, a locale missing from the table fails as unknown. |
| Manager.ByLocaleFromTable | src/CurrencyManager.php:122-126 | With no listed match, the table's currency is returned and its locale is overwritten, whatever it was, in the list and in the table. |
| Manager.ByLocaleFallsBackToMain | src/CurrencyManager.php:127-133 | If the table's currency is missing, the main currency is returned. It gets the locale only when it had none, and otherwise nothing is written. |
| Repository.Earliest | src/Repository/ExchangeRateRepository.php:33-41 | Finds nothing exactly when no row has the pair and a date at or after the day's midnight. Otherwise it picks such a row with the least date, the first in table order among equal dates. |
| Repository.LookupPair | src/Repository/ExchangeRateRepository.php:29-45 | A memoised (pair, day) is answered from the memo with no state change. Otherwise the earliest qualifying row is returned and memoised, or it fails with no result. The table is never written, and a sound memo stays sound. |
| Repository.FindRatePair | src/Repository/ExchangeRateRepository.php:23-46 | A pair that does not format fails before the memo or the table is consulted. Otherwise the lookup is keyed by the formatted pair and the calendar day. |
| Repository.FindRatePairSound | src/Repository/ExchangeRateRepository.php:28-41 | A returned rate is a stored row with the requested pair, never dated before the requested day. |
| Repository.MemoOutlivesTable | src/Repository/ExchangeRateRepository.php:29-43 | Once answered, the same pair on the same calendar day, at any time of day, gets the same rate back with no state change, even after rows are added. |
| Repository.LaterRowAnswersEarlierDay | src/Repository/ExchangeRateRepository.php:33-41 | A row dated on a later day answers a request for an earlier day. |
| Repository.AbsentPairNoResult | src/Repository/ExchangeRateRepository.php:33-41 | With no row of the pair and a sound memo, the lookup fails with no result and changes nothing. |
| Convertor.SameCodeRate | src/ExchangeRateConvertor.php:80-85 | Builds a rate of value 1 dated `now` for two records with valid codes, and touches no state. |
| Convertor.GetRate | src/ExchangeRateConvertor.php:73-102 | Adds at most one row, the returned rate, and sends at most one request, for the resolved day. A future-date failure implies the date was refused, and a sound memo stays sound. |
| Convertor.LookupOrFetch | src/ExchangeRateConvertor.php:87-101 | A lookup hit, or a lookup failure other than no result, is returned as it is with only the memo updated. No result leads to the fetch-and-persist branch. At most one row, the returned rate, is added, and at most one request is sent, for the resolved day. |
| Convertor.FetchAndPersist | src/ExchangeRateConvertor.php:90-100 | A failing re-lookup of either currency is returned with no request sent. Otherwise the result is the fetch's for the two looked-up records. A fetched rate is persisted as the one new row, a failure adds no row, the memo is left alone, and at most one request is sent. |
| Convertor.GetRateToday | src/ExchangeRateConvertor.php:61-70 | Never fails as a future date. A request it sends is for today, or for yesterday before 14:45. |
| Convertor.TowardZero | src/ExchangeRateConvertor.php:57 | The integer part toward zero: at most `x` for non-negative `x`, at least `x` for negative `x`, and less than one away. |
| Convertor.Quote | src/ExchangeRateConvertor.php:52-57 | Fails exactly when the rate does not resolve, naming its pair. Otherwise it gives `amount * 100 / value`, truncated toward zero, in hundredths. |
| Convertor.TowardZeroOdd | src/ExchangeRateConvertor.php:57 | Truncation is symmetric around zero. |
| Convertor.SameCodeIgnoresDate | src/ExchangeRateConvertor.php:78-85 | Equal codes that pass validation give a rate of value 1 dated `now` for any date. Nothing is persisted and nothing is sent. |
| Convertor.UnknownSourceFailsFirst | src/ExchangeRateConvertor.php:78 | A failing source lookup is the result. No lookup, fetch or row happens. |
| Convertor.UnknownTargetFailsFirst | src/ExchangeRateConvertor.php:79 | A failing target lookup is the result, even for a future date. No lookup, fetch or row happens. |
| Convertor.FutureDateFailsBeforeLookup | src/ExchangeRateConvertor.php:80-87 | With different codes, a future date fails before the memo or the table is touched. |
| Convertor.StoredRateIsReturned | src/ExchangeRateConvertor.php:88-89 | A lookup hit is returned as it is, with no request and no new row. |
| Convertor.MissFetchesOnce | src/ExchangeRateConvertor.php:90-100 | On a miss, exactly one request is sent, for both looked-up codes and the resolved day. The fetch's result is returned, and a rate is persisted as the one new row. |
| Convertor.SecondCallMakesNoRequest | src/ExchangeRateConvertor.php:87-100 | With arguments in stored form, repeating a successful `getRate` succeeds with no request and no new row. |
| Convertor.LowerCaseSourceAlwaysFetches | src/ExchangeRateConvertor.php:89 | A lower-case source code finds its currency, but its raw pair key matches no stored row, so the call always sends a request. |
| Convertor.QuoteExample | src/ExchangeRateConvertor.php:52-57 | 100 at a rate of 25 is 400 hundredths (4.00). |
| Convertor.QuoteTruncates | src/ExchangeRateConvertor.php:57 | 2 at a rate of 3 is 66 hundredths: truncated, not rounded. |
| Convertor.ConvertIntoOwnCurrency | src/ExchangeRateConvertor.php:40-58 | A price converted into its own currency comes back, in truncated hundredths, for any date. |
| Convertor.PriceCurrencyWins | src/ExchangeRateConvertor.php:47-50 | A price object's currency is the source, so the source argument is ignored. |
| Convertor.Convert | src/ExchangeRateConvertor.php:40-58 | The result is `getRate`'s failure, or `Quote` of the rate and the amount. The source is the price object's currency when there is one. The date defaults to today's midnight, which is never refused. |
| Resolver.SessionValue | src/CurrencyResolver.php:52-57 | A missing key and an empty string both mean no preference. Otherwise the stored string is returned. |
| Resolver.SetSessionValue | src/CurrencyResolver.php:60-68 | Null removes the key, and a string stores it. Every other key keeps its presence and value. |
| Resolver.SetCurrency | src/CurrencyResolver.php:40-43 | Stores the currency's code, or removes the key for null. Nothing else in the session changes. |
| Resolver.ResolveCurrency | src/CurrencyResolver.php:20-37 | An explicit currency wins untouched. A session preference is looked up by code with its errors propagated. Otherwise the given or current locale goes through `getByLocale`, and any failure becomes "expected currency does not exist". |
| Resolver.SetThenGet | src/CurrencyResolver.php:40-57 | After storing a valid currency, the session preference reads back as its code. |
| Resolver.ClearedSessionIsSkipped | src/CurrencyResolver.php:25-31 | After clearing, the session tier is skipped and the locale tier decides. |
| Resolver.StoredPreferenceWins | src/CurrencyResolver.php:25-28 | A stored preference resolves to the first listed currency with that code, whatever the locale. |
| Resolver.StalePreferenceFails | src/CurrencyResolver.php:25-28 | A preference that no longer validates or exists fails with its own error, not the locale fallback's. |
| Resolver.SetCurrencyOverwrites | src/CurrencyResolver.php:60-68 | Setting the preference twice keeps only the second. |
| Updater.SeedOne | src/ExchangeRateUpdater.php:62-69 | One seeded row: the default's code, symbol and schema, unit 1, active, not locked, no locale, with the given main flag. |
| Updater.SeedOneIsConstructed | src/ExchangeRateUpdater.php:63-65 | A seeded row is exactly what the constructor builds, with the schema and main flag written afterwards. |
| Updater.SeedFrom | src/ExchangeRateUpdater.php:61-70 | One row per default in order, with consecutive ids. Only the first row is main, and only if the loop starts with the flag set. |
| Updater.CreateDefaultConfiguration | src/ExchangeRateUpdater.php:56-73 | A non-empty table is left as it is. An empty one receives the four defaults in order, with distinct ids and the first alone main. |
| Updater.DefaultConfigurationSeeds | src/ExchangeRateUpdater.php:13-18 | An empty table is seeded with CZK, EUR, USD and GBP, all valid, with CZK alone main. |
| Updater.Active | src/ExchangeRateUpdater.php:92-99 | The listed currencies are exactly the active rows. |
| Updater.UpdateAll | src/ExchangeRateUpdater.php:30-53 | Seeds an empty table, then fetches the pairs of the active currencies for the given date or today's midnight. The requests sent are those of the run. On success all fetched rates are written; on failure the error is returned and no rate is written. |
| Updater.RunLoops | src/ExchangeRateUpdater.php:38-51 | The nested loops produce exactly the run of fetches over the enumerated pairs: its outcome, its rates and its requests. |
| Updater.FetchAllMeaning | src/ExchangeRateUpdater.php:38-51 | A successful run holds one rate per pair, each what fetching that pair gives. A failed run fails with the error of one of its pairs. At most one request is sent per pair. |
| Updater.PairsMembers | src/ExchangeRateUpdater.php:41-46 | The loops visit exactly the ordered pairs of listed currencies with different codes whose target is not rate-locked. |
| Updater.LockedCurrencyStillSource | src/ExchangeRateUpdater.php:41-46 | A rate-locked currency is never a target but is still fetched as a source. |
| Updater.PairsFetchedOnce | src/ExchangeRateUpdater.php:39-40 | Over distinct currencies, no pair is visited twice. |
| Updater.SuccessfulRunRequests | src/ExchangeRateUpdater.php:47-49 | A successful run sends one request per pair, in pair order, each for the two codes and the resolved day. |
| Updater.FutureDateSendsNothing | src/ExchangeRateUpdater.php:47-49 | A future date fails the first fetch, so no request is sent at all. |

## Left out

- HTTP and TLS are not modelled: URL building, the stream context, `file_get_contents` and `json_decode` (src/ExchangeRateFetcher.php:53-67). The round trip is the parameter `api`. Its reply is either text that does not decode (a `JsonException`) or a decoded body. Transport failures surface as undecodable text, as `(string) false` does.
- Doctrine is not modelled: query builders, ORM attributes and the number of `persist`/`flush` calls. Tables are sequences. A flush is the point where rows become visible, so `updateAll` writes its rates only when every fetch succeeded.
- src/Repository/CurrencyRepository.php is not part of this model. The `main DESC` order it would give is modelled in `Manager.Load` as a stable partition in table order. The order among rows with equal flags is left to the database and taken as table order.
- Ids are assigned by the database. The model gives a created currency the largest id plus one, and numbers the rows of a seeded empty table 1 to 4.
- The clock, `$_SESSION`, `Localization::normalize` and `Localization::getLocale` are parameters. All instants lie on one local time line, with no time zones or daylight-saving shifts.
- src/Entity/CurrencyNumber.php (price formatting with `round` and `number_format`) is not part of this model: it is floating-point formatting.
- The epsilon of `Floats::isZero` is taken as exact zero on reals. As a result, `getValue` never returns zero, and the `'0'` check in `convert` (src/ExchangeRateConvertor.php:53-55) is modelled but never reached.
- The `(string)` conversion of the float rate and `bcdiv` on numeric strings are not modelled. The quotient is computed on reals and truncated to hundredths.
- `NonUniqueResultException` cannot arise from a query limited to one row, so only the no-result case falls through to the fetch.
- A fetched rate is dated at the construction instant `now`, as the constructor does. The resolved day is only sent in the request.
- The `insertedDate` column and the display columns of `Currency` are not modelled.
- Updater.SeedOne: the `Currency` entity (src/Entity/Currency.php:12-133) declares no `active`, `rateLock` or `defaultSchema` column and no `setDefaultSchema` or `isRateLock` method. The model assumes the three columns exist, with `active = true` and `rateLock = false` for a new row. No constructor in the entity shown sets these defaults.
- Updater.SeedOneIsConstructed: "exactly what the constructor builds" rests on the same assumed columns and defaults.
- Updater.UpdateAll: the `c.active = TRUE` filter (src/ExchangeRateUpdater.php:96) and the `isRateLock()` test (line 42) are modelled on these assumed columns.
- Convertor.LowerCaseSourceAlwaysFetches: the model compares `rate.pair = :pair` (src/Repository/ExchangeRateRepository.php:34) exactly, character by character. Under a case-insensitive column collation, "usdeur" would match a stored "USDEUR" and no fetch would be made.
- Repository.Earliest: the tie order of `ORDER BY rate.date ASC LIMIT 1` (src/Repository/ExchangeRateRepository.php:38-39) is left to the database. The model takes the first row in table order.
- Updater.SuccessfulRunRequests: `getAllCurrencies` (src/ExchangeRateUpdater.php:92-99) has no ORDER BY. The model takes table order, so "pair order" is the order under that assumption.
- Manager.CreateCurrency: the `unique` constraint and `length: 3` of the code column (src/Entity/Currency.php:18) are not enforced. Creating an existing code, or a longer one such as "USDX", succeeds in the model, whereas the database would reject the flush.
- `CurrencyManager::getRate` and `getRateToday` (src/CurrencyManager.php:49-68) are deprecated delegations to the convertor and are not modelled separately.
- `markCurrencyAsMain`'s `instanceof Currency` test always holds, because the model has one currency type.
- Dependency-injection wiring (src/ShopCurrencyExtension.php, src/CurrencyManagerAccessor.php) has no behaviour and is not modelled.
- Concurrency is not modelled: the duplicate-row race between two simultaneous fetch-and-persist calls.
- Manager.GetCurrency: `Currency::normalizeCode` (src/CurrencyManager.php:100) is not declared in src/Entity/Currency.php. The model assumes it is `strtoupper(trim(...))` followed by `validateCode`, as `setCode` does (lines 67-72). It follows that a string failing validation fails with that error.
- Fetcher.Interpret: the file declares `strict_types=1`, and `setMiddle`, `setBuy` and `setSell` take `?float` (src/Entity/ExchangeRate.php:108, 125, 142). A reply whose `middle`, `buy` or `sell` is a JSON string, boolean or array would throw a `TypeError` at src/ExchangeRateFetcher.php:71-73. The reply body holds optional reals, so that error path is not modelled.
- Convertor.GetRate: its contract bounds the state change only. The outcome of each branch is stated by the `Convertor` lemmas listed above.
- Updater.UpdateAll: `sent` lists the requests actually sent, so a fetch refused before sending (a future date) adds nothing to it. The number of `flush` calls is not stated.
