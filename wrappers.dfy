/** Failure-compatible Option and Result, and the ways a scrape run can fail. */
module Wrappers {

  datatype Option<+T> = None | Some(value: T)

  datatype Result<+T, +E> = Success(value: T) | Failure(error: E) {
    predicate IsFailure() { Failure? }

    function PropagateFailure<U>(): Result<U, E>
      requires Failure?
    {
      Failure(error)
    }

    function Extract(): T
      requires Success?
    {
      value
    }
  }

  /** The exceptions that end a run of the event scraper. None of them is
      caught anywhere in the scraper, so the first one raised ends the run. */
  datatype ScrapeError =
    | TimeTextMissing   // re.match(TIME_RE, None): TypeError, no "Time:" row was found
    | NoTimeRange       // TIME_RE did not match: start_datetime_obj is unbound (UnboundLocalError)
    | ClockOutOfRange   // datetime.datetime(...) with hour > 23 or minute > 59: ValueError
    | AnchorMissing     // blockquote.find('a')['href'] on a blockquote without a linked anchor
    | DateOverflow      // date(9999, 12, 31) + timedelta(days=1): OverflowError
}
