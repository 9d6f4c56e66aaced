/** `ValidationResult = Result<(), ValidationError>` with its `message` and `isValid`. */
module ValidationResults {
  import opened ValidationErrors

  datatype ValidationResult = Success | Failure(error: ValidationError)

  /** `message`: empty on success, the error's description on failure. */
  function Message(r: ValidationResult): (m: string)
    ensures r.Success? ==> m == ""
    ensures r.Failure? ==> m == Description(r.error)
  {
    match r
    case Success => ""
    case Failure(e) => Description(e)
  }

  /** `isValid`. */
  function IsValid(r: ValidationResult): (b: bool)
    ensures b <==> r.Success?
  {
    match r
    case Success => true
    case Failure(_) => false
  }

  /** A valid result has an empty message; the converse fails for an error without messages. */
  lemma ValidImpliesEmptyMessage(r: ValidationResult)
    ensures IsValid(r) ==> Message(r) == ""
    ensures var empty := Failure(FromMessages([])); Message(empty) == "" && !IsValid(empty)
  {
  }
}
