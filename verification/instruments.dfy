/** The instrument records a position can hold. */
module Instruments {
  import opened Enums

  /** A calendar date, kept as plain fields; nothing here computes with dates. */
  datatype Date = Date(year: int, month: int, day: int)

  /**
   The closed set of instruments the domain model defines, plus `Unsupported`
   for any other object placed in a position, identified by its type's name.
   */
  datatype Instrument =
    | EquityForward(underlyingId: string, strike: real, maturityDate: Date, currency: Currency)
    | EquityOption(underlyingId: string, strike: real, maturityDate: Date, currency: Currency,
                   optionType: OptionType)
    | FXForward(baseCurrency: Currency, quoteCurrency: Currency, strike: real, maturityDate: Date)
    | FXOption(baseCurrency: Currency, quoteCurrency: Currency, strike: real, maturityDate: Date,
               optionType: OptionType)
    | Unsupported(typeName: string)
  {
    /** One of the four instrument types the domain model defines. */
    predicate Known() {
      !Unsupported?
    }

    /** An instrument on a single equity underlying. */
    predicate IsEquity() {
      EquityForward? || EquityOption?
    }

    /** An instrument on a currency pair. */
    predicate IsFX() {
      FXForward? || FXOption?
    }
  }
}
