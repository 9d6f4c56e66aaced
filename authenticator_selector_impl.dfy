/**
 * `AuthenticatorSelectorImpl.selectAuthenticator(context:handler:)`: validate for the configured
 * operation, then either emit one `SelectAuthenticatorResponse` or cancel the handler.
 */
module AuthenticatorSelection {
  import opened Wrappers
  import opened Seqs
  import opened Vendor
  import opened AuthenticatorExtension
  import opened AuthenticatorValidation

  /** The names under which the SDK finds the two selectors; the specialised selector files declare the same values. */
  const RegistrationAuthenticatorSelectorName := "auth_selector_reg"
  const AuthenticationAuthenticatorSelectorName := "auth_selector_auth"

  /** `AuthenticatorSelectorImpl.Operation`. */
  datatype SelectorOperation = RegistrationSelection | AuthenticationSelection

  /** `AuthenticatorItem`: an authenticator with the two flags the selection screen shows. */
  datatype AuthenticatorItem = AuthenticatorItem(authenticator: Authenticator, isPolicyCompliant: bool, isUserEnrolled: bool)

  /** The one effect a selector has: an emitted `SelectAuthenticatorResponse`, or `handler.cancel()`. */
  datatype SelectionOutcome =
    | EmitSelectAuthenticator(items: seq<AuthenticatorItem>, handler: HandlerId)
    | CancelHandler(handler: HandlerId)

  function Item(context: AuthenticatorSelectionContext, authenticator: Authenticator): AuthenticatorItem
  {
    AuthenticatorItem(authenticator,
                      context.isPolicyCompliant(authenticator.aaid),
                      IsEnrolled(authenticator, context.account.username))
  }

  /** The `map` to items: one item per authenticator, in order, with the context's flags. */
  function Items(context: AuthenticatorSelectionContext, authenticators: seq<Authenticator>): (r: seq<AuthenticatorItem>)
    ensures |r| == |authenticators|
    ensures forall i :: 0 <= i < |r| ==>
      r[i].authenticator == authenticators[i]
      && r[i].isPolicyCompliant == context.isPolicyCompliant(authenticators[i].aaid)
      && r[i].isUserEnrolled == IsEnrolled(authenticators[i], context.account.username)
  {
    MapSeq(a => Item(context, a), authenticators)
  }

  /** The validation the operation picks. */
  function Validation(operation: SelectorOperation, context: AuthenticatorSelectionContext,
                      configuration: Option<seq<AuthenticatorAaid>>, table: AaidTable): Result<seq<Authenticator>, ValidatorError>
  {
    match operation
    case RegistrationSelection => ValidateForRegistration(context, configuration, table)
    case AuthenticationSelection => ValidateForAuthentication(context, configuration, table)
  }

  /**
   * `selectAuthenticator(context:handler:)`: exactly one outcome, on the given handler. It emits
   * exactly when validation succeeds, and then at least one item, each for an allowlisted
   * authenticator of the context that passes the operation's filter.
   */
  function SelectAuthenticator(operation: SelectorOperation, context: AuthenticatorSelectionContext,
                               configuration: Option<seq<AuthenticatorAaid>>, table: AaidTable, handler: HandlerId): (r: SelectionOutcome)
    ensures r.handler == handler
    ensures r.EmitSelectAuthenticator? <==> Validation(operation, context, configuration, table).Success?
    ensures r.EmitSelectAuthenticator? ==> r.items == Items(context, Validation(operation, context, configuration, table).value)
    ensures r.EmitSelectAuthenticator? ==> |r.items| >= 1 && forall i :: 0 <= i < |r.items| ==>
      r.items[i].authenticator in context.authenticators
      && IsAllowlisted(r.items[i].authenticator, configuration.value, table)
      && r.items[i].authenticator.isSupportedByHardware
    ensures r.EmitSelectAuthenticator? && operation == RegistrationSelection ==>
      forall i :: 0 <= i < |r.items| ==> r.items[i].isPolicyCompliant
    ensures r.EmitSelectAuthenticator? && operation == AuthenticationSelection ==>
      forall i :: 0 <= i < |r.items| ==> AuthenticationCandidate(context, r.items[i].authenticator)
  {
    match Validation(operation, context, configuration, table)
    case Success(authenticators) =>
      var items := Items(context, authenticators);
      assert forall i :: 0 <= i < |items| ==> items[i].authenticator in authenticators;
      EmitSelectAuthenticator(items, handler)
    case Failure(_) => CancelHandler(handler)
  }
}
