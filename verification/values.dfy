/** Shared value types of the margin calculators: optional values, results
    carrying one of the scripts' error conditions, the numeric field of a
    fact as the scripts see it, and a value paired with its provenance. */
module Values {

  datatype Option<+T> = None | Some(value: T) {
    function GetOr(default: T): T {
      match this
      case Some(v) => v
      case None => default
    }
  }

  /** The error conditions the scripts raise. */
  datatype Error =
    | InvalidYear      // int(...) of a date's 4-character prefix raised ValueError
    | NoFilingsFound   // "No 10-K filings found for this CIK."
    | UnknownTicker    // "Ticker ... not found in SEC ticker list."
    | InvalidCik       // int(entry["cik_str"]) raised ValueError
    | EmptyContent     // the language model answered with empty or blank text
    | NoJsonObject     // no {...} block could be found in the answer
    | JsonDecodeError  // the recovered {...} block did not parse either

  /** Either a value or the error that aborted the computation; usable with `:-`. */
  datatype Result<+T> = Success(value: T) | Failure(error: Error) {
    predicate IsFailure() {
      Failure?
    }

    function PropagateFailure<U>(): Result<U>
      requires Failure?
    {
      Failure(error)
    }

    function Extract(): T
      requires Success?
    {
      value
    }
  }

  /** A JSON field the scripts pass to `float(...)`: absent (or null), present
      but not convertible, or convertible to the given number. */
  datatype Val = Missing | NonNumeric | Num(r: real)

  /** A resolved figure and the name of what produced it: the scripts'
      `(value, concept)` pairs. */
  datatype Figure = Figure(value: Option<real>, concept: Option<string>)

  function AsVal(v: Option<real>): Val {
    match v
    case Some(r) => Num(r)
    case None => Missing
  }
}
