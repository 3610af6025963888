/** `waitForMarkError`: the error raised when waiting for a performance mark in
    the page fails, either because the protocol call itself failed (`original`)
    or because evaluating the wait in the page threw (`exceptionDetails`). */
module MarkObserver {

  datatype Option<T> = None | Some(value: T)

  /** The part of `Protocol.Runtime.ExceptionDetails` the message uses, with
      the position fields it carries along. */
  datatype ExceptionDetails = ExceptionDetails(exceptionId: int, text: string, lineNumber: int, columnNumber: int)

  /** A JavaScript `Error`, by its message. */
  datatype Failure = Failure(message: string)

  /** The text every such message starts with. */
  function Prefix(mark: string): string
  {
    "errored while waiting for " + mark
  }

  /** The error object: `new Error(message)` with the two detail fields
      assigned afterwards. */
  class MarkError {
    const message: string
    var exceptionDetails: Option<ExceptionDetails>
    var original: Option<Failure>

    /** `new Error(message)`: both detail fields start out `undefined`. */
    constructor (message: string)
      ensures this.message == message && exceptionDetails == None && original == None
    {
      this.message := message;
      exceptionDetails := None;
      original := None;
    }
  }

  /** Builds the message by appending the exception text and then the
      original error's message, each after `": "`, to the prefix, and returns
      a new error carrying both details unchanged. */
  method WaitForMarkError(mark: string, original: Option<Failure>, exceptionDetails: Option<ExceptionDetails>)
    returns (error: MarkError)
    ensures fresh(error)
    ensures Prefix(mark) <= error.message
    ensures exceptionDetails.None? && original.None? ==> error.message == Prefix(mark)
    ensures exceptionDetails.Some? && original.None? ==> error.message == Prefix(mark) + ": " + exceptionDetails.value.text
    ensures exceptionDetails.None? && original.Some? ==> error.message == Prefix(mark) + ": " + original.value.message
    ensures exceptionDetails.Some? && original.Some? ==>
      error.message == Prefix(mark) + ": " + exceptionDetails.value.text + ": " + original.value.message
    ensures error.exceptionDetails == exceptionDetails && error.original == original
  {
    var message := "errored while waiting for " + mark;
    if exceptionDetails.Some? {
      message := message + ": " + exceptionDetails.value.text;
    }
    if original.Some? {
      message := message + ": " + original.value.message;
    }
    error := new MarkError(message);
    error.exceptionDetails := exceptionDetails;
    error.original := original;
  }
}
