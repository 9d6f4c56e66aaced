/** `RegistrationAuthenticatorSelectorImpl`: offers the supported, policy-compliant authenticators, without an allowlist. */
module RegistrationAuthenticatorSelection {
  import opened Wrappers
  import opened Seqs
  import opened Vendor
  import opened AuthenticatorExtension
  import opened AuthenticatorValidation
  import opened AuthenticatorSelection

  /** The item this selector builds: policy compliance is known to hold after the filter. */
  function RegistrationItem(context: AuthenticatorSelectionContext, authenticator: Authenticator): AuthenticatorItem
  {
    AuthenticatorItem(authenticator, true, IsEnrolled(authenticator, context.account.username))
  }

  /** `selectAuthenticator(context:handler:)`: always one emission, never a cancel, even with no items. */
  function SelectAuthenticator(context: AuthenticatorSelectionContext, handler: HandlerId): (r: SelectionOutcome)
    ensures r.EmitSelectAuthenticator? && r.handler == handler
    ensures MapSeq((item: AuthenticatorItem) => item.authenticator, r.items)
            == Filter(context.authenticators, a => RegistrationCandidate(context, a))
    ensures forall i :: 0 <= i < |r.items| ==>
      r.items[i].isPolicyCompliant && r.items[i].isUserEnrolled == IsEnrolled(r.items[i].authenticator, context.account.username)
  {
    var offered := Filter(context.authenticators, a => RegistrationCandidate(context, a));
    var items := MapSeq(a => RegistrationItem(context, a), offered);
    assert MapSeq((item: AuthenticatorItem) => item.authenticator, items) == offered;
    EmitSelectAuthenticator(items, handler)
  }

  /**
   * Where every authenticator is allowlisted and some is offered, this selector emits exactly
   * what the generic selector emits for registration: the fixed `true` flag is the policy's answer.
   */
  lemma {:induction false} AgreesWithGenericSelector(context: AuthenticatorSelectionContext, allowlist: seq<AuthenticatorAaid>, table: AaidTable, handler: HandlerId)
    requires forall i :: 0 <= i < |context.authenticators| ==> IsAllowlisted(context.authenticators[i], allowlist, table)
    requires exists i :: 0 <= i < |context.authenticators| && RegistrationCandidate(context, context.authenticators[i])
    ensures SelectAuthenticator(context, handler)
            == AuthenticatorSelection.SelectAuthenticator(RegistrationSelection, context, Some(allowlist), table, handler)
  {
    var auths := context.authenticators;
    FilterKeepsAll(auths, a => IsAllowlisted(a, allowlist, table));
    var offered := Filter(auths, a => RegistrationCandidate(context, a));
    FilterEmpty(auths, a => RegistrationCandidate(context, a));
    assert ValidateForRegistration(context, Some(allowlist), table) == Success(offered);
    RegistrationItemsAgree(context, offered);
  }

  /** On authenticators that pass the registration filter, this selector's items are the generic ones. */
  lemma {:induction false} RegistrationItemsAgree(context: AuthenticatorSelectionContext, offered: seq<Authenticator>)
    requires forall i :: 0 <= i < |offered| ==> RegistrationCandidate(context, offered[i])
    ensures MapSeq(a => RegistrationItem(context, a), offered) == Items(context, offered)
  {
    var mine, theirs := MapSeq(a => RegistrationItem(context, a), offered), Items(context, offered);
    assert forall i :: 0 <= i < |mine| ==> mine[i] == theirs[i];
  }
}
