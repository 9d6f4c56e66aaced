/**
 * The decision logic of `HomeViewModel`: which navigation or use case each Home action leads to.
 * The use cases' results (accounts, authenticators) are inputs; the effect is a returned value.
 */
module Home {
  import opened Wrappers
  import opened Seqs
  import opened Vendor
  import opened Domain

  /** `Environment`: which backend the configuration names. */
  datatype Environment = AuthenticationCloud | IdentitySuite

  datatype HomeError = Business(business: BusinessError) | App(app: AppError)

  /** What a Home action leads to. */
  datatype HomeAction =
    | NavigateToAccountSelection(accounts: seq<Account>, operation: Operation) // `.select(..., handler: nil, message: nil)`
    | RunDeregistration(deregisteredUsername: Option<string>)
    | RunPinChange(username: string)
    | RunPasswordChange(username: string)

  /** `authenticate(with:)`: no accounts is an error; otherwise all of them go to account selection. */
  function Authenticate(accounts: seq<Account>): (r: Result<HomeAction, HomeError>)
    ensures accounts == [] <==> r == Failure(Business(AccountsNotFound))
    ensures accounts != [] ==> r == Success(NavigateToAccountSelection(accounts, Authentication))
  {
    if accounts == [] then Failure(Business(AccountsNotFound))
    else Success(NavigateToAccountSelection(accounts, Authentication))
  }

  /**
   * `deregister()`: the authentication cloud deregisters without a username; the identity suite
   * opens account selection for deregistration, with no check for an empty list.
   */
  function Deregister(environment: Environment, accounts: seq<Account>): (r: Result<HomeAction, HomeError>)
    ensures r.Success?
    ensures environment == AuthenticationCloud ==> r.value == RunDeregistration(None)
    ensures environment == IdentitySuite ==> r.value == NavigateToAccountSelection(accounts, Deregistration)
  {
    match environment
    case AuthenticationCloud => Success(RunDeregistration(None))
    case IdentitySuite => Success(NavigateToAccountSelection(accounts, Deregistration))
  }

  /** Some enrolled account carries `username`. */
  predicate HasEnrolledUsername(enrollment: SdkUserEnrollment, username: string)
  {
    exists i :: 0 <= i < |enrollment.enrolledAccounts| && enrollment.enrolledAccounts[i].username == username
  }

  /** The accounts whose username is among the enrolled accounts, in order. */
  function EligibleAccounts(enrollment: SdkUserEnrollment, accounts: seq<Account>): (r: seq<Account>)
    ensures IsSubsequence(r, accounts)
    ensures forall a :: a in r <==> a in accounts && HasEnrolledUsername(enrollment, a.username)
    ensures forall a :: multiset(r)[a] == if HasEnrolledUsername(enrollment, a.username) then multiset(accounts)[a] else 0
  {
    var r := Filter(accounts, (a: Account) => HasEnrolledUsername(enrollment, a.username));
    forall a ensures a in r <==> a in accounts && HasEnrolledUsername(enrollment, a.username) {
      FilterMembership(accounts, (a: Account) => HasEnrolledUsername(enrollment, a.username), a);
    }
    r
  }

  /** The two SDK-managed credentials Home can change. */
  datatype Credential = PinCredential | PasswordCredential

  function ChangeOperation(credential: Credential): Operation
  {
    match credential
    case PinCredential => PinChange
    case PasswordCredential => PasswordChange
  }

  function RunChange(credential: Credential, username: string): HomeAction
  {
    match credential
    case PinCredential => RunPinChange(username)
    case PasswordCredential => RunPasswordChange(username)
  }

  /** The count switch shared by `changePin()` and `changePassword()`. */
  function DispatchChange(credential: Credential, eligible: seq<Account>): (r: Result<HomeAction, HomeError>)
    ensures |eligible| == 0 <==> r == Failure(Business(AccountsNotFound))
    ensures |eligible| == 1 ==> r == Success(RunChange(credential, eligible[0].username))
    ensures |eligible| >= 2 ==> r == Success(NavigateToAccountSelection(eligible, ChangeOperation(credential)))
  {
    if |eligible| == 0 then Failure(Business(AccountsNotFound))
    else if |eligible| == 1 then Success(RunChange(credential, eligible[0].username))
    else Success(NavigateToAccountSelection(eligible, ChangeOperation(credential)))
  }

  /** The error `getSdkEnrollment(for:)` reports for an aaid. */
  function EnrollmentError(aaid: AuthenticatorAaid): AppError
  {
    match aaid
    case Password => PasswordAuthenticatorNotFound
    case Pin => PinAuthenticatorNotFound
    case Other(_) => UnknownError
  }

  /** `authenticators[i]` is the first authenticator with aaid `raw`. */
  predicate IsFirstWithAaid(authenticators: seq<Authenticator>, i: int, raw: string)
  {
    0 <= i < |authenticators| && authenticators[i].aaid == raw
    && forall j :: 0 <= j < i ==> authenticators[j].aaid != raw
  }

  /**
   * `getSdkEnrollment(for:)`: the enrollment of the first authenticator whose aaid is the raw
   * value of `aaid`, when that enrollment is SDK-managed; an error chosen by the aaid otherwise.
   */
  function GetSdkEnrollment(aaid: AuthenticatorAaid, authenticators: seq<Authenticator>, table: AaidTable): (r: Result<SdkUserEnrollment, AppError>)
    ensures r.Failure? ==> r.error == EnrollmentError(aaid)
    ensures r.Success? <==>
      exists i :: IsFirstWithAaid(authenticators, i, table.rawValue(aaid)) && authenticators[i].userEnrollment.SdkEnrollment?
    ensures r.Success? ==>
      exists i :: IsFirstWithAaid(authenticators, i, table.rawValue(aaid)) && authenticators[i].userEnrollment == SdkEnrollment(r.value)
  {
    var raw := table.rawValue(aaid);
    var matching := Filter(authenticators, (a: Authenticator) => a.aaid == raw);
    if matching == [] then
      FilterEmpty(authenticators, (a: Authenticator) => a.aaid == raw);
      Failure(EnrollmentError(aaid))
    else
      FilterFirst(authenticators, (a: Authenticator) => a.aaid == raw);
      var first := matching[0];
      if first.userEnrollment.SdkEnrollment? then Success(first.userEnrollment.sdk)
      else Failure(EnrollmentError(aaid))
  }

  /** `changePin()` and `changePassword()`: the enrollment lookup, then the eligibility filter and the count switch. */
  function ChangeCredential(credential: Credential, authenticators: seq<Authenticator>, table: AaidTable, accounts: seq<Account>): (r: Result<HomeAction, HomeError>)
    ensures var e := GetSdkEnrollment(if credential == PinCredential then Pin else Password, authenticators, table);
      (e.Failure? ==> r == Failure(App(e.error)))
      && (e.Success? ==> r == DispatchChange(credential, EligibleAccounts(e.value, accounts)))
  {
    var aaid := if credential == PinCredential then Pin else Password;
    match GetSdkEnrollment(aaid, authenticators, table)
    case Failure(e) => Failure(App(e))
    case Success(enrollment) => DispatchChange(credential, EligibleAccounts(enrollment, accounts))
  }

  /** `changePin()`: it only ever runs a PIN change or selects accounts for one. */
  function ChangePin(authenticators: seq<Authenticator>, table: AaidTable, accounts: seq<Account>): (r: Result<HomeAction, HomeError>)
    ensures r.Success? ==> r.value.RunPinChange? || (r.value.NavigateToAccountSelection? && r.value.operation == PinChange)
  {
    ChangeCredential(PinCredential, authenticators, table, accounts)
  }

  /** `changePassword()`: it only ever runs a password change or selects accounts for one. */
  function ChangePassword(authenticators: seq<Authenticator>, table: AaidTable, accounts: seq<Account>): (r: Result<HomeAction, HomeError>)
    ensures r.Success? ==> r.value.RunPasswordChange? || (r.value.NavigateToAccountSelection? && r.value.operation == PasswordChange)
  {
    ChangeCredential(PasswordCredential, authenticators, table, accounts)
  }

  /**
   * Changing a credential with its enrollment found: no eligible account is `accountsNotFound`;
   * a single one is changed directly and several go to selection, always with eligible accounts only.
   */
  lemma ChangeWithEnrollment(credential: Credential, authenticators: seq<Authenticator>, table: AaidTable, accounts: seq<Account>)
    requires GetSdkEnrollment(if credential == PinCredential then Pin else Password, authenticators, table).Success?
    ensures var enrollment := GetSdkEnrollment(if credential == PinCredential then Pin else Password, authenticators, table).value;
      var r := ChangeCredential(credential, authenticators, table, accounts);
      (r == Failure(Business(AccountsNotFound)) <==>
        forall a :: a in accounts ==> !HasEnrolledUsername(enrollment, a.username))
      && (r.Success? && r.value.NavigateToAccountSelection? ==>
            r.value.operation == ChangeOperation(credential) && |r.value.accounts| >= 2
            && forall a :: a in r.value.accounts ==> a in accounts && HasEnrolledUsername(enrollment, a.username))
      && (r.Success? && !r.value.NavigateToAccountSelection? ==>
            r.value == RunChange(credential, r.value.username)
            && exists a :: a in accounts && HasEnrolledUsername(enrollment, a.username) && a.username == r.value.username)
  {
    var enrollment := GetSdkEnrollment(if credential == PinCredential then Pin else Password, authenticators, table).value;
    var eligible := EligibleAccounts(enrollment, accounts);
    if eligible != [] {
      assert eligible[0] in eligible;
    }
  }

  /** Without any authenticator carrying the credential's aaid, the change fails with that credential's error. */
  lemma ChangeWithoutAuthenticator(credential: Credential, authenticators: seq<Authenticator>, table: AaidTable, accounts: seq<Account>)
    requires var raw := table.rawValue(if credential == PinCredential then Pin else Password);
      forall i :: 0 <= i < |authenticators| ==> authenticators[i].aaid != raw
    ensures ChangeCredential(credential, authenticators, table, accounts)
            == Failure(App(if credential == PinCredential then PinAuthenticatorNotFound else PasswordAuthenticatorNotFound))
  {
  }
}
