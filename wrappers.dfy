/** Option and Result, the two failure-carrying shapes the generator needs:
    an absent value (a missing doc tag, no matching rule token) and a
    recoverable failure raised by a rule extractor. */
module Wrappers {

  datatype Option<+T> = None | Some(value: T) {
    function GetOr(default: T): T {
      match this
      case Some(v) => v
      case None => default
    }
  }

  /** Either the value a collaborator produced or the message of the
      exception it threw. */
  datatype Result<+R> = Success(value: R) | Failure(message: string)
}
