/** `Authenticator.isEnrolled(username:)`: dispatch on the kind of user enrollment. */
module AuthenticatorExtension {
  import opened Vendor

  /** The SDK kind asks the SDK about the user; the OS kind ignores the user; any other kind is never enrolled. */
  function IsEnrolled(authenticator: Authenticator, username: string): (r: bool)
    ensures authenticator.userEnrollment.SdkEnrollment? ==> r == authenticator.userEnrollment.sdk.isEnrolled(username)
    ensures authenticator.userEnrollment.OsEnrollment? ==> r == authenticator.userEnrollment.osIsEnrolled
    ensures authenticator.userEnrollment.OtherEnrollment? ==> !r
  {
    match authenticator.userEnrollment
    case SdkEnrollment(enrollment) => enrollment.isEnrolled(username)
    case OsEnrollment(enrolled) => enrolled
    case OtherEnrollment => false
  }

  /** With an OS enrollment the answer is the same for every username. */
  lemma OsEnrollmentIgnoresUsername(authenticator: Authenticator, u1: string, u2: string)
    requires authenticator.userEnrollment.OsEnrollment?
    ensures IsEnrolled(authenticator, u1) == IsEnrolled(authenticator, u2)
  {
  }

  /** Only the SDK and OS kinds can report an enrolled user. */
  lemma EnrolledMeansSdkOrOs(authenticator: Authenticator, username: string)
    ensures IsEnrolled(authenticator, username) ==>
      authenticator.userEnrollment.SdkEnrollment? || authenticator.userEnrollment.OsEnrollment?
  {
  }
}
