/**
 * `CredentialViewModel`: the PIN or password screen. It keeps the operation, the credential kind,
 * three handler slots per kind, the errors and statuses it was given, and the published protection
 * information. The calls it makes on handlers are recorded in the ghost trace `calls`.
 */
module CredentialView {
  import opened Wrappers
  import opened Vendor
  import opened Localization
  import opened HandlerCalls
  import opened ProtectionInformation

  /** `CredentialOperation`. */
  datatype CredentialOperation = Enrollment | CredentialChange | Verification

  /** The cases shared by `PinParameter` and `PasswordParameter`. */
  datatype OperationParameter =
    | EnrollmentParameter(lastRecoverableError: Option<SdkError>, handler: HandlerId)
    | VerificationParameter(protectionStatus: ProtectionStatus, handler: HandlerId)
    | CredentialChangeParameter(protectionStatus: ProtectionStatus, lastRecoverableError: Option<SdkError>, handler: HandlerId)

  /** `CredentialParameter`: a `PinParameter` or a `PasswordParameter`. */
  datatype CredentialParameter = PinParameter(pin: OperationParameter) | PasswordParameter(password: OperationParameter)

  function Case(parameter: CredentialParameter): OperationParameter
  {
    match parameter
    case PinParameter(p) => p
    case PasswordParameter(p) => p
  }

  function KindOf(parameter: CredentialParameter): AuthenticatorAaid
  {
    if parameter.PinParameter? then Pin else Password
  }

  function OperationOf(p: OperationParameter): CredentialOperation
  {
    match p
    case EnrollmentParameter(_, _) => Enrollment
    case VerificationParameter(_, _) => Verification
    case CredentialChangeParameter(_, _, _) => CredentialChange
  }

  function StatusOf(p: OperationParameter): Option<ProtectionStatus>
  {
    if p.EnrollmentParameter? then None else Some(p.protectionStatus)
  }

  function ErrorOf(p: OperationParameter): Option<SdkError>
  {
    if p.VerificationParameter? then None else p.lastRecoverableError
  }

  /** `title()`: one L10n entry per credential kind and operation. */
  function Title(operation: CredentialOperation, credentialType: AuthenticatorAaid): (t: Text)
    ensures t == EmptyText <==> credentialType.Other?
  {
    match (credentialType, operation)
    case (Pin, Enrollment) => Localized("Credential.Pin.Enrollment.title")
    case (Pin, Verification) => Localized("Credential.Pin.Verify.title")
    case (Pin, CredentialChange) => Localized("Credential.Pin.Change.title")
    case (Password, Enrollment) => Localized("Credential.Password.Enrollment.title")
    case (Password, Verification) => Localized("Credential.Password.Verify.title")
    case (Password, CredentialChange) => Localized("Credential.Password.Change.title")
    case _ => EmptyText
  }

  /** `description()`: one L10n entry per credential kind and operation. */
  function Description(operation: CredentialOperation, credentialType: AuthenticatorAaid): (t: Text)
    ensures t == EmptyText <==> credentialType.Other?
  {
    match (credentialType, operation)
    case (Pin, Enrollment) => Localized("Credential.Pin.Enrollment.description")
    case (Pin, Verification) => Localized("Credential.Pin.Verify.description")
    case (Pin, CredentialChange) => Localized("Credential.Pin.Change.description")
    case (Password, Enrollment) => Localized("Credential.Password.Enrollment.description")
    case (Password, Verification) => Localized("Credential.Password.Verify.description")
    case (Password, CredentialChange) => Localized("Credential.Password.Change.description")
    case _ => EmptyText
  }

  /** Every kind and operation the screen is opened for has its own title key. */
  lemma TitleIdentifiesTheScreen(o1: CredentialOperation, k1: AuthenticatorAaid, o2: CredentialOperation, k2: AuthenticatorAaid)
    requires !k1.Other? && !k2.Other?
    ensures Title(o1, k1) == Title(o2, k2) ==> o1 == o2 && k1 == k2
  {
  }

  /** Every kind and operation the screen is opened for has its own description key. */
  lemma DescriptionIdentifiesTheScreen(o1: CredentialOperation, k1: AuthenticatorAaid, o2: CredentialOperation, k2: AuthenticatorAaid)
    requires !k1.Other? && !k2.Other?
    ensures Description(o1, k1) == Description(o2, k2) ==> o1 == o2 && k1 == k2
  {
  }

  /** No title key is ever a description key. */
  lemma TitleIsNeverDescription(o1: CredentialOperation, k1: AuthenticatorAaid, o2: CredentialOperation, k2: AuthenticatorAaid)
    requires !k1.Other? && !k2.Other?
    ensures Title(o1, k1) != Description(o2, k2)
  {
  }

  /** The calls `confirm(oldCredential:credential:)` makes on the current operation's two slots. */
  function ConfirmCalls(operation: CredentialOperation, pinSlot: Option<HandlerId>, passwordSlot: Option<HandlerId>,
                        oldCredential: string, credential: string): (r: seq<HandlerCall>)
    ensures forall i :: 0 <= i < |r| ==> !r[i].CancelCall?
    ensures |r| == |Live([pinSlot, passwordSlot])|
    ensures forall i :: 0 <= i < |r| ==> r[i].handler == Live([pinSlot, passwordSlot])[i]
  {
    var pinCalls := match pinSlot
      case None => []
      case Some(h) =>
        match operation
        case Enrollment => [PinCall(h, credential)]
        case Verification => [VerifyCall(h, credential)]
        case CredentialChange => [PinsCall(h, oldCredential, credential)];
    var passwordCalls := match passwordSlot
      case None => []
      case Some(h) =>
        match operation
        case Enrollment => [PasswordCall(h, credential)]
        case Verification => [VerifyCall(h, credential)]
        case CredentialChange => [PasswordsCall(h, oldCredential, credential)];
    assert Live([pinSlot, passwordSlot]) == (if pinSlot.Some? then [pinSlot.value] else []) + Live([passwordSlot]);
    assert Live([passwordSlot]) == (if passwordSlot.Some? then [passwordSlot.value] else []) + Live([]);
    pinCalls + passwordCalls
  }

  /** The reaction of this screen's `handleProtectionStatus()`: by kind, with the default for any other kind. */
  function CredentialReaction(credentialType: AuthenticatorAaid, pinStatus: Option<ProtectionStatus>, passwordStatus: Option<ProtectionStatus>): (r: StatusReaction)
    ensures credentialType == Pin ==> r == React(Pin, pinStatus)
    ensures credentialType == Password ==> r == React(Password, passwordStatus)
    ensures credentialType.Other? ==> r == StatusReaction(DefaultInfo, None)
  {
    match credentialType
    case Pin => React(Pin, pinStatus)
    case Password => React(Password, passwordStatus)
    case Other(_) => StatusReaction(DefaultInfo, None)
  }

  /** The information a timer tick publishes on this screen; any other kind gets an empty message. */
  function CredentialTick(credentialType: AuthenticatorAaid, timer: CoolDownTimer, remainingCoolDown: int): (info: ProtectionInfo)
    ensures info.isInCoolDown == Some(remainingCoolDown > 0)
    ensures !credentialType.Other? ==> info == TickInfo(credentialType, timer, remainingCoolDown)
  {
    if credentialType.Other? then ProtectionInfo(Some(Literal("")), Some(remainingCoolDown > 0))
    else TickInfo(credentialType, timer, remainingCoolDown)
  }

  class CredentialViewModel {
    var credentialType: AuthenticatorAaid
    var operation: CredentialOperation
    var protectionInformation: ProtectionInfo
    var coolDownTimer: Option<CoolDownTimer>

    var pinProtectionStatus: Option<ProtectionStatus>
    var pinEnrollmentError: Option<SdkError>
    var pinCredentialChangeError: Option<SdkError>
    var pinEnrollmentHandler: Option<HandlerId>
    var pinVerificationHandler: Option<HandlerId>
    var pinCredentialChangeHandler: Option<HandlerId>

    var passwordProtectionStatus: Option<ProtectionStatus>
    var passwordEnrollmentError: Option<SdkError>
    var passwordCredentialChangeError: Option<SdkError>
    var passwordEnrollmentHandler: Option<HandlerId>
    var passwordVerificationHandler: Option<HandlerId>
    var passwordCredentialChangeHandler: Option<HandlerId>

    /** Every call made on a handler so far, in order. */
    ghost var calls: seq<HandlerCall>

    /** The handler slot of a kind and operation. */
    function Slot(kind: AuthenticatorAaid, op: CredentialOperation): Option<HandlerId>
      reads this
    {
      match (kind, op)
      case (Pin, Enrollment) => pinEnrollmentHandler
      case (Pin, Verification) => pinVerificationHandler
      case (Pin, CredentialChange) => pinCredentialChangeHandler
      case (Password, Enrollment) => passwordEnrollmentHandler
      case (Password, Verification) => passwordVerificationHandler
      case (Password, CredentialChange) => passwordCredentialChangeHandler
      case _ => None
    }

    /** Where the PIN slot of an operation sits in `Slots()`; its password slot sits three places later. */
    static function PinSlotIndex(op: CredentialOperation): (i: nat)
      ensures i < 3
    {
      match op
      case Enrollment => 0
      case Verification => 1
      case CredentialChange => 2
    }

    /** All six slots, in the order `deinit` visits them. */
    function Slots(): seq<Option<HandlerId>>
      reads this
    {
      [pinEnrollmentHandler, pinVerificationHandler, pinCredentialChangeHandler,
       passwordEnrollmentHandler, passwordVerificationHandler, passwordCredentialChangeHandler]
    }

    function StatusField(kind: AuthenticatorAaid): Option<ProtectionStatus>
      reads this
    {
      match kind
      case Pin => pinProtectionStatus
      case Password => passwordProtectionStatus
      case Other(_) => None
    }

    function ErrorField(kind: AuthenticatorAaid, op: CredentialOperation): Option<SdkError>
      reads this
    {
      match (kind, op)
      case (Pin, Enrollment) => pinEnrollmentError
      case (Pin, CredentialChange) => pinCredentialChangeError
      case (Password, Enrollment) => passwordEnrollmentError
      case (Password, CredentialChange) => passwordCredentialChangeError
      case _ => None
    }

    /**
     * At most one handler slot is set, no live handler has been cancelled, and no handler has been
     * cancelled twice.
     */
    ghost predicate Valid()
      reads this
    {
      (credentialType == Pin || credentialType == Password)
      && AtMostOneSet(Slots())
      && (forall h :: h in Live(Slots()) ==> !Cancelled(calls, h))
      && NoDoubleCancel(calls)
    }

    /** `lastRecoverableError()`: verification shows none; the others show the PIN error, else the password error. */
    function LastRecoverableError(): (r: string)
      reads this
      ensures operation == Verification ==> r == ""
      ensures operation == Enrollment && pinEnrollmentError.Some? ==> r == pinEnrollmentError.value.localizedDescription
      ensures operation == Enrollment && pinEnrollmentError.None? ==> r == DescriptionOrEmpty(passwordEnrollmentError)
      ensures operation == CredentialChange && pinCredentialChangeError.Some? ==> r == pinCredentialChangeError.value.localizedDescription
      ensures operation == CredentialChange && pinCredentialChangeError.None? ==> r == DescriptionOrEmpty(passwordCredentialChangeError)
    {
      match operation
      case Enrollment =>
        if pinEnrollmentError.Some? then pinEnrollmentError.value.localizedDescription else DescriptionOrEmpty(passwordEnrollmentError)
      case Verification => ""
      case CredentialChange =>
        if pinCredentialChangeError.Some? then pinCredentialChangeError.value.localizedDescription else DescriptionOrEmpty(passwordCredentialChangeError)
    }

    /** `hideOldCredential`: only a change asks for the old credential. */
    function HideOldCredential(): (r: bool)
      reads this
      ensures r <==> operation != CredentialChange
    {
      operation != CredentialChange
    }

    /**
     * `init(parameter:)` with `setParameter(_:)`: the kind and operation come from the parameter,
     * and exactly that case's handler, status and error fields are set.
     */
    constructor(parameter: CredentialParameter)
      ensures credentialType == KindOf(parameter) && operation == OperationOf(Case(parameter))
      ensures forall k, o :: Slot(k, o) == if k == KindOf(parameter) && o == OperationOf(Case(parameter)) then Some(Case(parameter).handler) else None
      ensures forall k :: StatusField(k) == if k == KindOf(parameter) then StatusOf(Case(parameter)) else None
      ensures forall k, o :: ErrorField(k, o) == if k == KindOf(parameter) && o == OperationOf(Case(parameter)) then ErrorOf(Case(parameter)) else None
      ensures LastRecoverableError() == DescriptionOrEmpty(ErrorOf(Case(parameter)))
      ensures protectionInformation == DefaultInfo && coolDownTimer.None? && calls == []
      ensures Valid()
    {
      credentialType := KindOf(parameter);
      protectionInformation := DefaultInfo;
      coolDownTimer := None;
      calls := [];
      var p := Case(parameter);
      operation := OperationOf(p);
      var isPin := parameter.PinParameter?;
      var h := Some(p.handler);
      pinProtectionStatus := if isPin then StatusOf(p) else None;
      passwordProtectionStatus := if isPin then None else StatusOf(p);
      pinEnrollmentError := if isPin && p.EnrollmentParameter? then ErrorOf(p) else None;
      pinCredentialChangeError := if isPin && p.CredentialChangeParameter? then ErrorOf(p) else None;
      passwordEnrollmentError := if !isPin && p.EnrollmentParameter? then ErrorOf(p) else None;
      passwordCredentialChangeError := if !isPin && p.CredentialChangeParameter? then ErrorOf(p) else None;
      pinEnrollmentHandler := if isPin && p.EnrollmentParameter? then h else None;
      pinVerificationHandler := if isPin && p.VerificationParameter? then h else None;
      pinCredentialChangeHandler := if isPin && p.CredentialChangeParameter? then h else None;
      passwordEnrollmentHandler := if !isPin && p.EnrollmentParameter? then h else None;
      passwordVerificationHandler := if !isPin && p.VerificationParameter? then h else None;
      passwordCredentialChangeHandler := if !isPin && p.CredentialChangeParameter? then h else None;
    }

    /** `clear()`: every handler slot is emptied; nothing is called. */
    method Clear()
      requires Valid()
      modifies this`pinEnrollmentHandler, this`pinVerificationHandler, this`pinCredentialChangeHandler,
               this`passwordEnrollmentHandler, this`passwordVerificationHandler, this`passwordCredentialChangeHandler
      ensures forall k, o :: Slot(k, o).None?
      ensures Valid()
    {
      pinEnrollmentHandler, pinVerificationHandler, pinCredentialChangeHandler := None, None, None;
      passwordEnrollmentHandler, passwordVerificationHandler, passwordCredentialChangeHandler := None, None, None;
    }

    /** `confirm(oldCredential:credential:)`: the current operation's handlers are called and kept. */
    method Confirm(oldCredential: string, credential: string)
      requires Valid()
      modifies this`calls
      ensures calls == old(calls) + ConfirmCalls(operation, Slot(Pin, operation), Slot(Password, operation), oldCredential, credential)
      ensures Valid()
    {
      var more := ConfirmCalls(operation, Slot(Pin, operation), Slot(Password, operation), oldCredential, credential);
      AppendWithoutCancel(calls, more);
      calls := calls + more;
    }

    /** `cancel()`: the current operation's handlers are cancelled and emptied; the other slots keep their handlers. */
    method Cancel()
      requires Valid()
      modifies this`pinEnrollmentHandler, this`pinVerificationHandler, this`pinCredentialChangeHandler,
               this`passwordEnrollmentHandler, this`passwordVerificationHandler, this`passwordCredentialChangeHandler,
               this`calls
      ensures calls == old(calls) + CancelEach([old(Slot(Pin, operation)), old(Slot(Password, operation))])
      ensures Slots() == old(Slots())[PinSlotIndex(operation) := None][PinSlotIndex(operation) + 3 := None]
      ensures Slot(Pin, operation).None? && Slot(Password, operation).None?
      ensures Valid()
    {
      ghost var before := Slots();
      var i := PinSlotIndex(operation);
      assert before[i] == Slot(Pin, operation) && before[i + 3] == Slot(Password, operation);
      CancelSlots(calls, before, i, i + 3);
      calls := calls + CancelEach([Slot(Pin, operation), Slot(Password, operation)]);
      match operation {
        case Enrollment => pinEnrollmentHandler, passwordEnrollmentHandler := None, None;
        case Verification => pinVerificationHandler, passwordVerificationHandler := None, None;
        case CredentialChange => pinCredentialChangeHandler, passwordCredentialChangeHandler := None, None;
      }
      assert Slots() == before[i := None][i + 3 := None];
    }

    /** `deinit`: every handler still set is cancelled, so none is cancelled a second time. */
    method Deinit()
      requires Valid()
      modifies this`calls
      ensures calls == old(calls) + CancelEach(Slots())
      ensures NoDoubleCancel(calls)
      ensures forall h :: h in Live(Slots()) ==> Cancelled(calls, h)
    {
      var more := CancelEach(Slots());
      AtMostOneLive(Slots());
      CancelFreshHandlers(calls, Live(Slots()), more);
      calls := calls + more;
      forall h | h in Live(Slots()) ensures Cancelled(calls, h) {
        var i :| 0 <= i < |Live(Slots())| && Live(Slots())[i] == h;
        assert calls[|old(calls)| + i] == CancelCall(h);
      }
    }

    /** `handleProtectionStatus()`: publishes the reaction's information; a started timer replaces the old one. */
    method HandleProtectionStatus()
      modifies this`protectionInformation, this`coolDownTimer
      ensures var r := CredentialReaction(credentialType, pinProtectionStatus, passwordProtectionStatus);
        protectionInformation == r.info && coolDownTimer == (if r.timer.Some? then r.timer else old(coolDownTimer))
    {
      var r := CredentialReaction(credentialType, pinProtectionStatus, passwordProtectionStatus);
      protectionInformation := r.info;
      if r.timer.Some? {
        coolDownTimer := r.timer;
      }
    }

    /** The `startCoolDownTimer` callback, for `remainingCoolDown` seconds left. */
    method CoolDownTick(remainingCoolDown: int)
      requires coolDownTimer.Some?
      modifies this`protectionInformation
      ensures protectionInformation == CredentialTick(credentialType, coolDownTimer.value, remainingCoolDown)
    {
      protectionInformation := CredentialTick(credentialType, coolDownTimer.value, remainingCoolDown);
    }
  }
}
