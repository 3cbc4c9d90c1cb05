/** Failure-carrying values shared by every part of the calendar model.
    The Python code signals failures by raising; each exception it can
    raise is one `Error` constructor here. */
module Outcomes {

  /** The exceptions the core can raise, by cause. */
  datatype Error =
    | EmptyName      // ValueError: an event name must be a non-empty string
    | EmptyColor     // ValueError: an event colour must be a non-empty string
    | InvalidRange   // ValueError: end_date is before start_date
    | DateOverflow   // OverflowError: date arithmetic left years 1..9999
    | YearOutOfRange // ValueError: relativedelta produced a year outside 1..9999

  datatype Option<+T> = None | Some(value: T)

  datatype Result<+T> = Ok(value: T) | Err(error: Error)

  /** The result of an operation that returns nothing but may raise. */
  datatype Outcome = Pass | Fail(error: Error)
}
