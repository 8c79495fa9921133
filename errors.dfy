/** The one error shape of the tool: a message for the user and, optionally,
    the raw text of the underlying failure. */
module Errors {
  import opened RustStr

  datatype ErrorWithContext = ErrorWithContext(userMessage: string, technicalDetails: Option<string>)

  /** `Result<T>`: every fallible step fails with an `ErrorWithContext`. */
  datatype Result<T> = Ok(value: T) | Err(error: ErrorWithContext)

  /** `ErrorWithContext::new`: the message is stored as given and the details
      are carried over, absent or present alike. */
  function New(userMessage: string, technicalDetails: Option<string>): (e: ErrorWithContext)
    ensures e.userMessage == userMessage
    ensures e.technicalDetails.None? <==> technicalDetails.None?
    ensures technicalDetails.Some? ==> e.technicalDetails == Some(technicalDetails.value)
  {
    ErrorWithContext(userMessage, match technicalDetails case None => None case Some(d) => Some(d))
  }

  /** `Display::fmt`: what the user sees is the message alone. */
  function Display(e: ErrorWithContext): string
  {
    e.userMessage
  }

  /** What an error built with `new` displays is exactly the message it was given. */
  lemma DisplayOfNew(userMessage: string, technicalDetails: Option<string>)
    ensures Display(New(userMessage, technicalDetails)) == userMessage
  {
  }

  /** Display never reveals the technical details: two errors with the same
      message display alike, whatever their details. */
  lemma DisplayHidesDetails(e1: ErrorWithContext, e2: ErrorWithContext)
    requires e1.userMessage == e2.userMessage
    ensures Display(e1) == Display(e2)
  {
  }
}
