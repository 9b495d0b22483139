/**
 * The query-filter builders of utils.js and the way getTransactionsByUser (controller.js)
 * combines them with its username filter. Date validity (`Date.parse` giving a number) and
 * numeric validity (`isNaN` false) are supplied as predicates; instants are kept as the ISO
 * strings the builders construct.
 */
module Filters {
  import opened Store

  /** The five optional query parameters; an absent parameter is `None`. */
  datatype Query = Query(date: Option<string>, from: Option<string>, upTo: Option<string>,
                         min: Option<string>, max: Option<string>)

  /** `Date.parse` succeeds on the text, and `isNaN` is false on it. */
  datatype Parsers = Parsers(isDate: string -> bool, isNumber: string -> bool)

  /** `{date: {$gte?, $lte?}}`: each bound is an instant in ISO form. */
  datatype DateRange = DateRange(gte: Option<string>, lte: Option<string>)

  /** `{amount: {$gte?, $lte?}}`: each bound is the raw query text. */
  datatype AmountRange = AmountRange(gte: Option<string>, lte: Option<string>)

  /** The Mongo filter getTransactionsByUser runs: the username, optionally a date and an amount part. */
  datatype TxFilter = TxFilter(username: string, date: Option<DateRange>, amount: Option<AmountRange>)

  const DAY_START := "T00:00:00.000Z"
  const DAY_END := "T23:59:59.000Z"
  const DATE_WITH_RANGE := "The query parameters include `date` together with at least one of `from` or `upTo`"
  const NOT_A_DATE := "Not a string that represents a date in the format **YYYY-MM-DD**"
  const MIN_NOT_NUMBER := "The Min value must be a numerical value"
  const MAX_NOT_NUMBER := "The Max value must be a numerical value"

  /** Every present parameter among `date`, `from`, `upTo` parses as a date. */
  predicate DatesParse(q: Query, p: Parsers)
  {
    (Truthy(q.date) ==> p.isDate(q.date.value)) &&
    (Truthy(q.from) ==> p.isDate(q.from.value)) &&
    (Truthy(q.upTo) ==> p.isDate(q.upTo.value))
  }

  predicate AmountsParse(q: Query, p: Parsers)
  {
    (Truthy(q.min) ==> p.isNumber(q.min.value)) && (Truthy(q.max) ==> p.isNumber(q.max.value))
  }

  /**
   * handleDateFilterParams: `None` is the empty filter `{}`. A date alone covers its whole
   * day; `from` starts at the beginning of its day and `upTo` ends at the end of its day.
   */
  function DateFilter(q: Query, p: Parsers): (r: Result<Option<DateRange>>)
    ensures Truthy(q.date) && (Truthy(q.from) || Truthy(q.upTo)) ==> r == Err(DATE_WITH_RANGE)
    ensures r.Ok? <==> !(Truthy(q.date) && (Truthy(q.from) || Truthy(q.upTo))) && DatesParse(q, p)
    ensures r.Err? && r.msg != DATE_WITH_RANGE ==> r.msg == NOT_A_DATE
    ensures r.Ok? ==> (r.value == None <==> !Truthy(q.date) && !Truthy(q.from) && !Truthy(q.upTo))
    ensures r.Ok? && Truthy(q.date) ==>
      r.value == Some(DateRange(Some(q.date.value + DAY_START), Some(q.date.value + DAY_END)))
    ensures r.Ok? && !Truthy(q.date) ==>
      r.value == (if !Truthy(q.from) && !Truthy(q.upTo) then None
                  else Some(DateRange(if Truthy(q.from) then Some(q.from.value + DAY_START) else None,
                                      if Truthy(q.upTo) then Some(q.upTo.value + DAY_END) else None)))
  {
    if Truthy(q.date) && (Truthy(q.from) || Truthy(q.upTo)) then Err(DATE_WITH_RANGE)
    else if Truthy(q.date) then
      if !p.isDate(q.date.value) then Err(NOT_A_DATE)
      else Ok(Some(DateRange(Some(q.date.value + DAY_START), Some(q.date.value + DAY_END))))
    else if Truthy(q.from) then
      if !p.isDate(q.from.value) then Err(NOT_A_DATE)
      else if Truthy(q.upTo) then
        if !p.isDate(q.upTo.value) then Err(NOT_A_DATE)
        else Ok(Some(DateRange(Some(q.from.value + DAY_START), Some(q.upTo.value + DAY_END))))
      else Ok(Some(DateRange(Some(q.from.value + DAY_START), None)))
    else if Truthy(q.upTo) then
      if !p.isDate(q.upTo.value) then Err(NOT_A_DATE)
      else Ok(Some(DateRange(None, Some(q.upTo.value + DAY_END))))
    else Ok(None)
  }

  /** handleAmountFilterParams: a bound per present parameter; neither gives `{amount: {}}`. */
  function AmountFilter(q: Query, p: Parsers): (r: Result<AmountRange>)
    ensures r.Ok? <==> AmountsParse(q, p)
    ensures r.Err? ==> r.msg == (if Truthy(q.min) && !p.isNumber(q.min.value) then MIN_NOT_NUMBER else MAX_NOT_NUMBER)
    ensures r.Ok? ==> r.value.gte == (if Truthy(q.min) then q.min else None)
    ensures r.Ok? ==> r.value.lte == (if Truthy(q.max) then q.max else None)
  {
    if Truthy(q.min) then
      if !p.isNumber(q.min.value) then Err(MIN_NOT_NUMBER)
      else if Truthy(q.max) then
        if !p.isNumber(q.max.value) then Err(MAX_NOT_NUMBER)
        else Ok(AmountRange(q.min, q.max))
      else Ok(AmountRange(q.min, None))
    else if Truthy(q.max) then
      if !p.isNumber(q.max.value) then Err(MAX_NOT_NUMBER)
      else Ok(AmountRange(None, q.max))
    else Ok(AmountRange(None, None))
  }

  predicate AnyDateParam(q: Query)
  {
    Truthy(q.date) || Truthy(q.from) || Truthy(q.upTo)
  }

  predicate AnyAmountParam(q: Query)
  {
    Truthy(q.min) || Truthy(q.max)
  }

  /**
   * The filter getTransactionsByUser builds: a builder runs only when one of its parameters
   * is present, and when both run the amount builder runs (and may fail) first.
   */
  function CombineFilters(username: string, q: Query, p: Parsers): (r: Result<TxFilter>)
    ensures r.Ok? <==>
      (AnyAmountParam(q) ==> AmountsParse(q, p)) && (AnyDateParam(q) ==> DateFilter(q, p).Ok?)
    ensures AnyAmountParam(q) && !AmountsParse(q, p) ==> r == Err(AmountFilter(q, p).msg)
    ensures r.Ok? ==> r.value.username == username
    // the amount part is present exactly when min or max is, and is then never `{amount: {}}`
    ensures r.Ok? ==> (r.value.amount.Some? <==> AnyAmountParam(q))
    ensures r.Ok? && r.value.amount.Some? ==> r.value.amount.value != AmountRange(None, None)
    ensures r.Ok? ==> (r.value.date.Some? <==> AnyDateParam(q))
    ensures r.Ok? && AnyDateParam(q) ==> r.value.date == DateFilter(q, p).value
  {
    if !AnyDateParam(q) && !AnyAmountParam(q) then Ok(TxFilter(username, None, None))
    else if !AnyDateParam(q) then
      match AmountFilter(q, p)
      case Err(m) => Err(m)
      case Ok(a) => Ok(TxFilter(username, None, Some(a)))
    else if !AnyAmountParam(q) then
      match DateFilter(q, p)
      case Err(m) => Err(m)
      case Ok(d) => Ok(TxFilter(username, d, None))
    else
      match AmountFilter(q, p)
      case Err(m) => Err(m)
      case Ok(a) =>
        match DateFilter(q, p)
        case Err(m) => Err(m)
        case Ok(d) => Ok(TxFilter(username, d, Some(a)))
  }
}
