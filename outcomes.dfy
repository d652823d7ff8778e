/**
 * Values that stand for Python's `None`-or-value results and for the
 * exceptions that travel through the configuration core.
 */
module Outcomes {

  datatype Option<+T> = None | Some(value: T)

  /**
   * The exceptions the core raises, catches or lets through.  The three
   * families named in the silent attempt's `except` clause
   * (`KeyboardInterrupt`, `Exception`, `SystemExit`) are told apart from
   * the rest of `BaseException`.
   */
  datatype Exc =
    | KeyboardInterrupt
    | SystemExit
    | CollectError        // config.py's own CollectError, a subclass of Exception
    | NotABoolean         // the ValueError of the parser library's getboolean
    | ParseError          // an Exception raised by the parser library while reading
    | OtherException      // any other subclass of Exception
    | OtherBaseException  // a BaseException outside the three families above

  /** True for the exceptions that `except (KeyboardInterrupt, Exception, SystemExit)` catches. */
  predicate CaughtBySilentAttempt(e: Exc) {
    e != OtherBaseException
  }

  /** The way a Python call ends: it returns a value or it raises. */
  datatype Outcome<+T> = Returned(value: T) | Raised(exc: Exc)
}
