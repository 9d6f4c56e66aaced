/** `AuthenticationAuthenticatorSelectorImpl`: offers the supported authenticators registered for the user, without an allowlist. */
module AuthenticationAuthenticatorSelection {
  import opened Wrappers
  import opened Seqs
  import opened Vendor
  import opened AuthenticatorExtension
  import opened AuthenticatorValidation
  import opened AuthenticatorSelection

  /** The filter as written: no registration means not offered. */
  predicate Offered(context: AuthenticatorSelectionContext, authenticator: Authenticator)
  {
    match authenticator.registration
    case None => false
    case Some(registration) => authenticator.isSupportedByHardware && registration.isRegistered(context.account.username)
  }

  /** `selectAuthenticator(context:handler:)`: always one emission with the handler, never a cancel. */
  function SelectAuthenticator(context: AuthenticatorSelectionContext, handler: HandlerId): (r: SelectionOutcome)
    ensures r.EmitSelectAuthenticator? && r.handler == handler
    ensures r.items == Items(context, Filter(context.authenticators, a => Offered(context, a)))
  {
    EmitSelectAuthenticator(Items(context, Filter(context.authenticators, a => Offered(context, a))), handler)
  }

  /** An authenticator is offered exactly when it is supported and registered for the user; one without a registration never is. */
  lemma OfferedMeaning(context: AuthenticatorSelectionContext, authenticator: Authenticator)
    ensures Offered(context, authenticator) <==> AuthenticationCandidate(context, authenticator)
    ensures authenticator.registration.None? ==> !Offered(context, authenticator)
  {
  }

  /** The emitted items are exactly the offered authenticators of the context, in order. */
  lemma ItemsAreOffered(context: AuthenticatorSelectionContext, handler: HandlerId)
    ensures var r := SelectAuthenticator(context, handler);
      IsSubsequence(MapSeq((item: AuthenticatorItem) => item.authenticator, r.items), context.authenticators)
      && forall a :: a in MapSeq((item: AuthenticatorItem) => item.authenticator, r.items) <==>
           a in context.authenticators && AuthenticationCandidate(context, a)
    ensures var r := SelectAuthenticator(context, handler);
      forall a ::
        multiset(MapSeq((item: AuthenticatorItem) => item.authenticator, r.items))[a] == (if AuthenticationCandidate(context, a) then multiset(context.authenticators)[a] else 0)
  {
    var offered := Filter(context.authenticators, a => Offered(context, a));
    var r := SelectAuthenticator(context, handler);
    assert MapSeq((item: AuthenticatorItem) => item.authenticator, r.items) == offered;
    forall a ensures a in offered <==> a in context.authenticators && AuthenticationCandidate(context, a) {
      FilterMembership(context.authenticators, a => Offered(context, a), a);
    }
    forall a ensures multiset(offered)[a] == if AuthenticationCandidate(context, a) then multiset(context.authenticators)[a] else 0 {
      OfferedMeaning(context, a);
    }
  }

  /**
   * Where every authenticator is allowlisted and some is offered, this selector emits exactly
   * what the generic selector emits for authentication.
   */
  lemma {:induction false} AgreesWithGenericSelector(context: AuthenticatorSelectionContext, allowlist: seq<AuthenticatorAaid>, table: AaidTable, handler: HandlerId)
    requires forall i :: 0 <= i < |context.authenticators| ==> IsAllowlisted(context.authenticators[i], allowlist, table)
    requires exists i :: 0 <= i < |context.authenticators| && AuthenticationCandidate(context, context.authenticators[i])
    ensures SelectAuthenticator(context, handler)
            == AuthenticatorSelection.SelectAuthenticator(AuthenticationSelection, context, Some(allowlist), table, handler)
  {
    var auths := context.authenticators;
    FilterKeepsAll(auths, a => IsAllowlisted(a, allowlist, table));
    FilterAgreement(auths, a => Offered(context, a), a => AuthenticationCandidate(context, a));
    var offered := Filter(auths, a => AuthenticationCandidate(context, a));
    FilterEmpty(auths, a => AuthenticationCandidate(context, a));
    assert ValidateForAuthentication(context, Some(allowlist), table) == Success(offered);
  }
}
