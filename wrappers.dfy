/** Failure-carrying results shared by every module of the fetch model, and the
    taxonomy of the exceptions that the fetch module raises or lets escape. */
module Wrappers {

  datatype Option<+T> = None | Some(value: T)

  /** The reasons a fetch operation stops.  Each constructor names the Python
      exception it stands for. */
  datatype Error =
    | NotInArchive(spec: string)        // ValueError: no exact or glob match
    | TooManyMatches(spec: string)      // ValueError: more than MAX_GLOB_MATCHES glob matches
    | MultipleMatches(spec: string)     // ValueError: a single MSID was asked for
    | EmptyCatalog                      // TypeError: subscripting the None of an empty query
    | MissingFile(content: string, name: string)  // IOError from opening an archive file
    | InvalidInterval(tstart: real, tstop: real)  // ValueError: bad-time start after stop
    | BadTimesArguments                 // ValueError: only one of start/stop given
    | UnsupportedOp(op: string)         // ValueError: comparison operator not allowed
    | TooFewSamples                     // ValueError: fewer than two samples for state intervals
    | IndexOutOfRange                   // IndexError from numpy on an empty array
    | NoneNotSubscriptable              // TypeError: indexing a column that is None
    | MissingAttribute(name: string)    // AttributeError from getattr
    | ZeroStep                          // ZeroDivisionError: numpy.arange with a zero step

  datatype Result<+T> = Ok(value: T) | Err(error: Error) {
    predicate IsFailure() { Err? }
    function PropagateFailure<U>(): Result<U> requires Err? { Err(error) }
    function Extract(): T requires Ok? { value }
  }

  /** A result without a value: the outcome of an operation that changes state. */
  datatype Outcome = Pass | Fail(error: Error)
}
