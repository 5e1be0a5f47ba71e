/** The string-valued enumerations of the domain model. */
module Enums {

  datatype Currency = USD | ZAR

  /** The currency's code, the string value of the enumeration member. */
  function Code(c: Currency): (code: string)
    ensures |code| == 3
  {
    match c
    case USD => "USD"
    case ZAR => "ZAR"
  }

  /** Distinct currencies have distinct codes. */
  lemma CodeInjective(c: Currency, d: Currency)
    requires Code(c) == Code(d)
    ensures c == d
  {
  }

  datatype OptionType = Call | Put

  datatype LongShort = Long | Short
}
