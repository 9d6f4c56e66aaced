/**
 * `PinViewModel`: the PIN screen. It keeps one handler slot per operation; confirming answers the
 * current handler once and drops it, cancelling cancels it and drops it, and `deinit` cancels what
 * is left. The calls made on handlers are recorded in the ghost trace `calls`.
 */
module PinView {
  import opened Wrappers
  import opened Vendor
  import opened Localization
  import opened HandlerCalls
  import opened ProtectionInformation

  /** `PinOperation`. */
  datatype PinOperation = Enrollment | CredentialChange | Verification

  /** `PinParameter`. */
  datatype PinParameter =
    | EnrollmentParameter(lastRecoverableError: Option<SdkError>, handler: HandlerId)
    | VerificationParameter(protectionStatus: ProtectionStatus, lastRecoverableError: Option<SdkError>, handler: HandlerId)
    | CredentialChangeParameter(protectionStatus: ProtectionStatus, lastRecoverableError: Option<SdkError>, handler: HandlerId)

  function OperationOf(parameter: PinParameter): PinOperation
  {
    match parameter
    case EnrollmentParameter(_, _) => Enrollment
    case VerificationParameter(_, _, _) => Verification
    case CredentialChangeParameter(_, _, _) => CredentialChange
  }

  function StatusOf(parameter: PinParameter): Option<ProtectionStatus>
  {
    if parameter.EnrollmentParameter? then None else Some(parameter.protectionStatus)
  }

  /** `title()`. */
  function Title(operation: PinOperation): (t: Text)
    ensures t.Localized?
  {
    match operation
    case Enrollment => Localized("Pin.Enrollment.title")
    case Verification => Localized("Pin.Verify.title")
    case CredentialChange => Localized("Pin.Change.title")
  }

  /** `description()`. */
  function Description(operation: PinOperation): (t: Text)
    ensures t.Localized?
  {
    match operation
    case Enrollment => Localized("Pin.Enrollment.description")
    case Verification => Localized("Pin.Verify.description")
    case CredentialChange => Localized("Pin.Change.description")
  }

  /** Every operation has its own title and description key, and no title key is a description key. */
  lemma TextsIdentifyTheOperation(o1: PinOperation, o2: PinOperation)
    ensures Title(o1) == Title(o2) ==> o1 == o2
    ensures Description(o1) == Description(o2) ==> o1 == o2
    ensures Title(o1) != Description(o2)
  {
  }

  /** The call `confirm(oldPin:pin:)` makes on the current operation's handler. */
  function AnswerCall(operation: PinOperation, handler: HandlerId, oldPin: string, pin: string): (c: HandlerCall)
    ensures c.handler == handler && !c.CancelCall?
    ensures operation == Enrollment ==> c == PinCall(handler, pin)
    ensures operation == Verification ==> c == VerifyCall(handler, pin)
    ensures operation == CredentialChange ==> c == PinsCall(handler, oldPin, pin)
  {
    match operation
    case Enrollment => PinCall(handler, pin)
    case Verification => VerifyCall(handler, pin)
    case CredentialChange => PinsCall(handler, oldPin, pin)
  }

  class PinViewModel {
    var operation: PinOperation
    var protectionStatus: Option<ProtectionStatus>
    var enrollmentError: Option<SdkError>
    var verificationError: Option<SdkError>
    var credentialChangeError: Option<SdkError>
    var enrollmentHandler: Option<HandlerId>
    var verificationHandler: Option<HandlerId>
    var credentialChangeHandler: Option<HandlerId>
    var protectionInformation: ProtectionInfo
    var coolDownTimer: Option<CoolDownTimer>

    /** Every call made on a handler so far, in order. */
    ghost var calls: seq<HandlerCall>

    /** The handler slot of an operation. */
    function Slot(op: PinOperation): Option<HandlerId>
      reads this
    {
      match op
      case Enrollment => enrollmentHandler
      case Verification => verificationHandler
      case CredentialChange => credentialChangeHandler
    }

    /** The three slots, in the order `deinit` visits them. */
    function Slots(): seq<Option<HandlerId>>
      reads this
    {
      [enrollmentHandler, verificationHandler, credentialChangeHandler]
    }

    static function Index(op: PinOperation): (i: nat)
      ensures i < 3
    {
      match op
      case Enrollment => 0
      case Verification => 1
      case CredentialChange => 2
    }

    /** At most one handler slot is set, it has not been answered, and no handler has been called twice. */
    ghost predicate Valid()
      reads this
    {
      Answerable(calls, Slots())
    }

    /** `lastRecoverableError()`: the error of the current operation, or the empty text. */
    function LastRecoverableError(): (r: string)
      reads this
      ensures operation == Enrollment ==> r == DescriptionOrEmpty(enrollmentError)
      ensures operation == Verification ==> r == DescriptionOrEmpty(verificationError)
      ensures operation == CredentialChange ==> r == DescriptionOrEmpty(credentialChangeError)
    {
      DescriptionOrEmpty(match operation
        case Enrollment => enrollmentError
        case Verification => verificationError
        case CredentialChange => credentialChangeError)
    }

    /** `hideOldPin`: only a change asks for the old PIN. */
    function HideOldPin(): (r: bool)
      reads this
      ensures r <==> operation != CredentialChange
    {
      operation != CredentialChange
    }

    /** `init(logger:parameter:)` with `setParameter(_:)`: exactly the parameter's case is filled in. */
    constructor(parameter: PinParameter)
      ensures operation == OperationOf(parameter) && protectionStatus == StatusOf(parameter)
      ensures forall op :: Slot(op) == if op == OperationOf(parameter) then Some(parameter.handler) else None
      ensures LastRecoverableError() == DescriptionOrEmpty(parameter.lastRecoverableError)
      ensures protectionInformation == DefaultInfo && coolDownTimer.None? && calls == []
      ensures Valid()
    {
      protectionInformation := DefaultInfo;
      coolDownTimer := None;
      calls := [];
      operation := OperationOf(parameter);
      protectionStatus := StatusOf(parameter);
      var h := Some(parameter.handler);
      var e := parameter.lastRecoverableError;
      enrollmentError := if parameter.EnrollmentParameter? then e else None;
      verificationError := if parameter.VerificationParameter? then e else None;
      credentialChangeError := if parameter.CredentialChangeParameter? then e else None;
      enrollmentHandler := if parameter.EnrollmentParameter? then h else None;
      verificationHandler := if parameter.VerificationParameter? then h else None;
      credentialChangeHandler := if parameter.CredentialChangeParameter? then h else None;
    }

    /**
     * `confirm(oldPin:pin:)`: the current handler, which must be set, is answered once and dropped.
     * The slots of the other operations are kept.
     */
    method Confirm(oldPin: string, pin: string)
      requires Valid() && Slot(operation).Some?
      modifies this`enrollmentHandler, this`verificationHandler, this`credentialChangeHandler, this`calls
      ensures calls == old(calls) + [AnswerCall(operation, old(Slot(operation)).value, oldPin, pin)]
      ensures CallsTo(calls, old(Slot(operation)).value) == 1
      ensures Slot(operation).None?
      ensures forall op :: op != operation ==> Slot(op) == old(Slot(op))
      ensures Valid()
    {
      var h := Slot(operation).value;
      var call := AnswerCall(operation, h, oldPin, pin);
      AnswerSlot(calls, Slots(), Index(operation), call);
      ghost var after := Slots()[Index(operation) := None];
      calls := calls + [call];
      match operation {
        case Enrollment => enrollmentHandler := None;
        case Verification => verificationHandler := None;
        case CredentialChange => credentialChangeHandler := None;
      }
      assert Slots() == after;
    }

    /** `cancel()`: the current handler, if set, is cancelled once and dropped. */
    method Cancel()
      requires Valid()
      modifies this`enrollmentHandler, this`verificationHandler, this`credentialChangeHandler, this`calls
      ensures calls == old(calls) + CancelEach([old(Slot(operation))])
      ensures Slot(operation).None?
      ensures forall op :: op != operation ==> Slot(op) == old(Slot(op))
      ensures Valid()
    {
      if Slot(operation).Some? {
        var h := Slot(operation).value;
        AnswerSlot(calls, Slots(), Index(operation), CancelCall(h));
        ghost var after := Slots()[Index(operation) := None];
        calls := calls + [CancelCall(h)];
        match operation {
          case Enrollment => enrollmentHandler := None;
          case Verification => verificationHandler := None;
          case CredentialChange => credentialChangeHandler := None;
        }
        assert Slots() == after;
      }
    }

    /**
     * `deinit`: each handler still set is cancelled. Every handler ends up called at most once, so
     * none is cancelled twice and none is cancelled after it was answered.
     */
    method Deinit()
      requires Valid()
      modifies this`calls
      ensures calls == old(calls) + CancelEach(Slots())
      ensures SingleUse(calls) && NoDoubleCancel(calls)
      ensures forall h :: h in Live(Slots()) ==> CallsTo(calls, h) == 1
    {
      CancelAllSlots(calls, Slots());
      calls := calls + CancelEach(Slots());
      SingleUseNoDoubleCancel(calls);
    }

    /** `handleProtectionStatus()`: publishes the reaction's information; a started timer replaces the old one. */
    method HandleProtectionStatus()
      modifies this`protectionInformation, this`coolDownTimer
      ensures protectionInformation == React(Pin, protectionStatus).info
      ensures coolDownTimer == if React(Pin, protectionStatus).timer.Some? then React(Pin, protectionStatus).timer else old(coolDownTimer)
    {
      var r := React(Pin, protectionStatus);
      protectionInformation := r.info;
      if r.timer.Some? {
        coolDownTimer := r.timer;
      }
    }

    /** The `startCoolDownTimer` callback, for `remainingCoolDown` seconds left. */
    method CoolDownTick(remainingCoolDown: int)
      requires coolDownTimer.Some?
      modifies this`protectionInformation
      ensures protectionInformation == TickInfo(Pin, coolDownTimer.value, remainingCoolDown)
    {
      protectionInformation := TickInfo(Pin, coolDownTimer.value, remainingCoolDown);
    }
  }

  /** Answering a PIN screen and then releasing it cancels nothing: the answered handler is not touched again. */
  lemma ConfirmThenDeinitCancelsNothing(calls: seq<HandlerCall>, slots: seq<Option<HandlerId>>, k: nat)
    requires Answerable(calls, slots)
    requires k < |slots| && slots[k].Some?
    ensures CancelEach(slots[k := None]) == []
  {
    var after := slots[k := None];
    assert forall i :: 0 <= i < |after| ==> after[i].None?;
  }
}
