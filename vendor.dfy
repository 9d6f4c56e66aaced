/**
 * The vendor SDK's types, as far as the app reads them. The SDK is closed: what it decides
 * (hardware support, policy compliance, registration, enrollment) is carried as data or as
 * function-valued fields that the model never looks inside.
 */
module Vendor {
  import opened Wrappers
  import opened Utf8

  /** An account; the app only reads its username. */
  datatype Account = Account(username: string)

  /** The accounts registered with an authenticator, and the SDK's answer to "is this user registered?". */
  datatype Registration = Registration(registeredAccounts: seq<Account>, isRegistered: string -> bool)

  /** An enrollment the SDK manages (PIN, password). */
  datatype SdkUserEnrollment = SdkUserEnrollment(enrolledAccounts: seq<Account>, isEnrolled: string -> bool)

  /** `Authenticator.userEnrollment`: the SDK kind, the operating-system kind, or anything else. */
  datatype UserEnrollment =
    | SdkEnrollment(sdk: SdkUserEnrollment)
    | OsEnrollment(osIsEnrolled: bool)
    | OtherEnrollment

  datatype Authenticator = Authenticator(
    aaid: string,
    isSupportedByHardware: bool,
    registration: Option<Registration>,
    userEnrollment: UserEnrollment)

  /** `AuthenticatorAaid`; `Other` stands for the SDK's remaining cases (biometrics, device passcode, ...). */
  datatype AuthenticatorAaid = Pin | Password | Other(tag: nat)

  /** `AuthenticatorAaid(rawValue:)` and `rawValue`; the raw strings are the SDK's. */
  datatype AaidTable = AaidTable(parse: string -> Option<AuthenticatorAaid>, rawValue: AuthenticatorAaid -> string)

  /** `AccountSelectionContext`. */
  datatype AccountSelectionContext = AccountSelectionContext(
    authenticators: seq<Authenticator>,
    isPolicyCompliant: (string, string) -> bool,
    transactionConfirmationData: Option<seq<byte>>)

  /** `AuthenticatorSelectionContext`. */
  datatype AuthenticatorSelectionContext = AuthenticatorSelectionContext(
    account: Account,
    authenticators: seq<Authenticator>,
    isPolicyCompliant: string -> bool)

  /** `PinAuthenticatorProtectionStatus` and `PasswordAuthenticatorProtectionStatus` share this shape. */
  datatype ProtectionStatus =
    | Unlocked
    | LastAttemptFailed(remainingTries: int, coolDownTimeInSeconds: int)
    | LockedOut
    | UnknownStatus

  /** An SDK error object; the app shows only its `localizedDescription`. */
  datatype SdkError = SdkError(localizedDescription: string)

  /** `error?.localizedDescription ?? String()`. */
  function DescriptionOrEmpty(error: Option<SdkError>): string
  {
    match error
    case None => ""
    case Some(e) => e.localizedDescription
  }

  /** A handler object the SDK hands to the app (enrollment, verification, change, selection). */
  type HandlerId = nat
}
