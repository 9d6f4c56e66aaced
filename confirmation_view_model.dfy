/**
 * `ConfirmationViewModel`: the screen that asks the user to confirm with biometrics or the device
 * passcode. It keeps the authenticator's title and the one handler it was given; confirming and
 * cancelling call that handler and keep it.
 */
module ConfirmationView {
  import opened Wrappers
  import opened Vendor
  import opened Localization
  import opened HandlerCalls

  /** `ConfirmationParameter`. */
  datatype ConfirmationParameter =
    | ConfirmBiometric(authenticator: string, handler: HandlerId)
    | ConfirmDevicePasscode(authenticator: string, handler: HandlerId)

  /** The screen title `L10n.Confirmation.title(authenticator ?? String())`. */
  function Title(authenticator: Option<string>): (t: Text)
    ensures t.LocalizedWith? && |t.args| == 1
    ensures authenticator.Some? ==> t.args[0] == Literal(authenticator.value)
  {
    LocalizedWith("Confirmation.title", [Literal(if authenticator.Some? then authenticator.value else "")])
  }

  /** The title names the authenticator; a missing one reads like an empty one. */
  lemma TitleNamesAuthenticator(a: string, b: string)
    ensures Title(Some(a)) == Title(Some(b)) ==> a == b
    ensures Title(None) == Title(Some(""))
  {
  }

  /** `handler?.verify()` for each slot in turn. */
  function VerifyEach(slots: seq<Option<HandlerId>>): (r: seq<HandlerCall>)
    ensures |r| == |Live(slots)|
    ensures forall i :: 0 <= i < |r| ==> r[i] == VerifyUserCall(Live(slots)[i])
  {
    if slots == [] then []
    else (if slots[0].Some? then [VerifyUserCall(slots[0].value)] else []) + VerifyEach(slots[1..])
  }

  class ConfirmationViewModel {
    var authenticator: Option<string>
    var biometricUserVerificationHandler: Option<HandlerId>
    var devicePasscodeUserVerificationHandler: Option<HandlerId>

    /** Every call made on a handler so far, in order. */
    ghost var calls: seq<HandlerCall>

    function Slots(): seq<Option<HandlerId>>
      reads this
    {
      [biometricUserVerificationHandler, devicePasscodeUserVerificationHandler]
    }

    /** The authenticator is known and exactly one handler is set. */
    ghost predicate Valid()
      reads this
    {
      authenticator.Some? && |Live(Slots())| == 1
    }

    /** `init(appCoordinator:parameter:)` with `setParameter(_:)`: the parameter's case fills its handler slot. */
    constructor(parameter: ConfirmationParameter)
      ensures authenticator == Some(parameter.authenticator)
      ensures biometricUserVerificationHandler == if parameter.ConfirmBiometric? then Some(parameter.handler) else None
      ensures devicePasscodeUserVerificationHandler == if parameter.ConfirmDevicePasscode? then Some(parameter.handler) else None
      ensures Live(Slots()) == [parameter.handler]
      ensures Title(authenticator) == LocalizedWith("Confirmation.title", [Literal(parameter.authenticator)])
      ensures calls == [] && Valid()
    {
      authenticator := Some(parameter.authenticator);
      calls := [];
      if parameter.ConfirmBiometric? {
        biometricUserVerificationHandler := Some(parameter.handler);
        devicePasscodeUserVerificationHandler := None;
      } else {
        biometricUserVerificationHandler := None;
        devicePasscodeUserVerificationHandler := Some(parameter.handler);
      }
      new;
      assert Slots()[1..] == [Slots()[1]];
      assert Slots()[1..][1..] == [];
    }

    /** The confirm trigger: the handler that is set is asked to verify the user, exactly once, and kept. */
    method Confirm()
      requires Valid()
      modifies this`calls
      ensures calls == old(calls) + VerifyEach(Slots())
      ensures calls == old(calls) + [VerifyUserCall(Live(Slots())[0])]
      ensures Valid()
    {
      calls := calls + VerifyEach(Slots());
    }

    /** The cancel trigger: the handler that is set is cancelled, exactly once, and kept. */
    method Cancel()
      requires Valid()
      modifies this`calls
      ensures calls == old(calls) + CancelEach(Slots())
      ensures calls == old(calls) + [CancelCall(Live(Slots())[0])]
      ensures Valid()
    {
      calls := calls + CancelEach(Slots());
    }
  }
}
