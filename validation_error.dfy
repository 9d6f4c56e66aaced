/** `ValidationError`: a list of messages, shown joined by newlines. */
module ValidationErrors {
  import opened Wrappers
  import Seqs

  datatype ValidationError = ValidationError(messages: seq<string>)

  /** `init(messages:)`. */
  function FromMessages(messages: seq<string>): (e: ValidationError)
    ensures e.messages == messages
  {
    ValidationError(messages)
  }

  /** `init(message:)`: a single-message error. */
  function FromMessage(message: string): (e: ValidationError)
    ensures e.messages == [message]
  {
    FromMessages([message])
  }

  /** `init(stringLiteral:)`. */
  function FromStringLiteral(value: string): (e: ValidationError)
    ensures e == FromMessage(value)
  {
    FromMessage(value)
  }

  /** `description`: the messages joined by "\n". */
  function Description(e: ValidationError): string
  {
    Seqs.Join(e.messages, "\n")
  }

  /** `errorDescription` (from `LocalizedError`). */
  function ErrorDescription(e: ValidationError): (r: Option<string>)
    ensures r.Some?
  {
    Some(Description(e))
  }

  /** `failureReason` (from `LocalizedError`). */
  function FailureReason(e: ValidationError): (r: Option<string>)
    ensures r.Some?
  {
    Some(Description(e))
  }

  /** Both `LocalizedError` texts are the description. */
  lemma LocalizedTextsAreDescription(e: ValidationError)
    ensures ErrorDescription(e) == FailureReason(e) == Some(Description(e))
  {
  }

  /** The description of a single message is that message; of no message, the empty string. */
  lemma DescriptionOfFewMessages(m: string)
    ensures Description(FromMessage(m)) == m
    ensures Description(FromMessages([])) == ""
  {
  }

  /**
   * The description keeps every message: when no message contains a newline, splitting the
   * description at newlines gives back the messages.
   */
  lemma DescriptionRoundTrip(e: ValidationError)
    requires |e.messages| >= 1
    requires forall i :: 0 <= i < |e.messages| ==> '\n' !in e.messages[i]
    ensures Seqs.Split(Description(e), '\n') == e.messages
  {
    Seqs.SplitJoin(e.messages, '\n');
  }
}
