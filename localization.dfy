/**
 * User-visible text. The app's strings come from a generated L10n table that is not part of this
 * model, so a text is named by its table key (with its arguments) rather than spelled out.
 */
module Localization {
  import opened Vendor
  import opened Domain

  datatype Text =
    | Literal(s: string)                          // a string written in the code, e.g. `String()`
    | Localized(key: string)                      // an L10n entry without arguments
    | LocalizedWith(key: string, args: seq<Text>) // an L10n entry with arguments
    | OperationTitle(operation: Operation)        // the L10n title entry of a known operation
    | StatusDescription(credential: AuthenticatorAaid, status: ProtectionStatus) // the SDK's `localizedDescription`

  const EmptyText := Literal("")

  /** `Operation.localizedTitle`: the operation's own L10n title, and `String()` for `.unknown`. */
  function OperationText(operation: Operation): (t: Text)
    ensures t == EmptyText <==> operation == UnknownOperation
    ensures operation != UnknownOperation ==> t.OperationTitle? && t.operation == operation
  {
    if operation == UnknownOperation then EmptyText else OperationTitle(operation)
  }
}
