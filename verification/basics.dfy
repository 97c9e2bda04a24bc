/** Failure-carrying results and the errors the candle assembly can raise. */
module Basics {

  /** A value that may be absent (a missing dictionary entry, a failed request). */
  datatype Option<+T> = None | Some(value: T)

  /** The exceptions that end one call of the assembly. */
  datatype Error =
    /** a character position of the timeframe token lies past its end */
    | IndexError
    /** the multiplier character of the timeframe token is not a decimal digit */
    | ValueError
    /** the unit letter of the timeframe token is not in the seconds table */
    | KeyError(unit: char)
    /** a page request failed in transport, or its body was not JSON */
    | FetchError
    /** a page had no rows (an error reply of the endpoint among them), so its minimum close time is not a timestamp */
    | EmptyPage
    /** the paging loop fetched no page, so there is nothing to concatenate */
    | NothingToConcatenate
    /** a timeframe token outside the two-character form, whose duration is not modelled */
    | UnsupportedDuration

  /** Either a value or the error that was raised instead. */
  datatype Result<+T> = Ok(value: T) | Err(error: Error)

  function Min(a: int, b: int): (m: int)
    ensures m <= a && m <= b && (m == a || m == b)
  {
    if a <= b then a else b
  }

  function Max(a: int, b: int): (m: int)
    ensures m >= a && m >= b && (m == a || m == b)
  {
    if a >= b then a else b
  }
}
