/** Optional values, results and the error vocabulary shared by the whole model.
    Every exception the shop-currency package raises is one constructor of `Error`;
    the comment on each names the PHP exception class it stands for. */
module Wrappers {

  datatype Option<+T> = None | Some(value: T) {

    /** The value, or `default` when absent (PHP's `??`). */
    function GetOr(default: T): T {
      match this
      case Some(v) => v
      case None => default
    }
  }

  /** The three optional numeric components of an exchange rate. */
  datatype RateField = Buy | Sell | Middle

  datatype Error =
    | CodeRequired                                   // InvalidArgumentException
    | CodeMalformed(code: string)                    // InvalidArgumentException
    | UnitNotPositive(unit: int)                     // InvalidArgumentException
    | NegativeRateField(field: RateField, pair: string) // InvalidArgumentException
    | RateUnresolved(pair: string)                   // LogicException
    | CurrencyNotFound(code: string)                 // InvalidArgumentException
    | LocaleUnknown(locale: string)                  // LogicException
    | FutureDate(day: int)                           // InvalidArgumentException
    | UpstreamFailed(payload: string)                // RuntimeException
    | UndecodableResponse(payload: string)           // JsonException
    | NoResult                                       // Doctrine NoResultException
    | ZeroRate                                       // LogicException
    | NoExpectedCurrency                             // InvalidArgumentException
  {
    /** True for the errors PHP raises as `InvalidArgumentException`,
        the class `CurrencyManager::getByLocale` catches. */
    predicate IsInvalidArgument() {
      CodeRequired? || CodeMalformed? || UnitNotPositive? || NegativeRateField?
      || CurrencyNotFound? || FutureDate? || NoExpectedCurrency?
    }
  }

  datatype Result<+T> = Ok(value: T) | Err(error: Error)

  datatype Outcome = Pass | Fail(error: Error)

  /** The state of an object after a setter ran, and whether the setter threw.
      A setter that throws leaves the object as it was. */
  datatype Step<+S> = Step(state: S, outcome: Outcome)
}
