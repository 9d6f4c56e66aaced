/** `AuthCloudApiRegistrationValidator`: exactly one of the enroll response and the app link URI must be given. */
module AuthCloudApiRegistrationValidation {
  import Wrappers
  import StringExtension
  import opened ValidationErrors
  import opened ValidationResults

  const MissingDataKey := "AuthCloudApiRegistration.Validation.missingData"
  const WrongDataKey := "AuthCloudApiRegistration.Validation.wrongData"

  /** Given, and not empty. */
  predicate IsProvided(s: Wrappers.Option<string>) { s.Some? && s.value != "" }

  /**
   * `validate(_:_:)`; `l10n` is the L10n table the two messages come from.
   * It succeeds exactly when one of the inputs is provided; both missing and both provided fail,
   * each with one message of its own.
   */
  function Validate(enrollResponse: Wrappers.Option<string>, appLinkUri: Wrappers.Option<string>, l10n: string -> string): (r: ValidationResult)
    ensures IsValid(r) <==> IsProvided(enrollResponse) != IsProvided(appLinkUri)
    ensures !IsProvided(enrollResponse) && !IsProvided(appLinkUri) ==> r == Failure(FromMessage(l10n(MissingDataKey)))
    ensures IsProvided(enrollResponse) && IsProvided(appLinkUri) ==> r == Failure(FromMessage(l10n(WrongDataKey)))
    ensures r.Failure? ==> |r.error.messages| == 1
  {
    if StringExtension.IsEmptyOrNil(enrollResponse) && StringExtension.IsEmptyOrNil(appLinkUri) then
      Failure(FromMessage(l10n(MissingDataKey)))
    else if enrollResponse.None? || appLinkUri.None? then
      Success
    else if enrollResponse.value != "" && appLinkUri.value != "" then
      Failure(FromMessage(l10n(WrongDataKey)))
    else
      Success
  }
}
