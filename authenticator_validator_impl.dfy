/**
 * `AuthenticatorValidatorImpl`: the authenticators that may be offered for registration or for
 * authentication. The allowlist comes from the app configuration; `None` stands for a
 * configuration that failed to load, which the validator passes on as an error.
 */
module AuthenticatorValidation {
  import opened Wrappers
  import opened Seqs
  import opened Vendor
  import opened Domain

  datatype ValidatorError = ConfigurationNotLoaded | Business(error: BusinessError)

  /** The aaid parses to a known `AuthenticatorAaid` that the allowlist contains. */
  predicate IsAllowlisted(authenticator: Authenticator, allowlist: seq<AuthenticatorAaid>, table: AaidTable)
  {
    match table.parse(authenticator.aaid)
    case None => false
    case Some(aaid) => aaid in allowlist
  }

  /** `allowedAuthenticators(context:allowlistedAuthenticators:)`. */
  function AllowedAuthenticators(context: AuthenticatorSelectionContext, allowlist: seq<AuthenticatorAaid>, table: AaidTable): (r: seq<Authenticator>)
    ensures IsSubsequence(r, context.authenticators)
    ensures forall a :: a in r <==> a in context.authenticators && IsAllowlisted(a, allowlist, table)
    ensures forall a :: multiset(r)[a] == if IsAllowlisted(a, allowlist, table) then multiset(context.authenticators)[a] else 0
  {
    var r := Filter(context.authenticators, a => IsAllowlisted(a, allowlist, table));
    forall a ensures a in r <==> a in context.authenticators && IsAllowlisted(a, allowlist, table) {
      FilterMembership(context.authenticators, a => IsAllowlisted(a, allowlist, table), a);
    }
    r
  }

  /** Offered for registration: hardware-supported and compliant with the policy (so not registered yet). */
  predicate RegistrationCandidate(context: AuthenticatorSelectionContext, authenticator: Authenticator)
  {
    authenticator.isSupportedByHardware && context.isPolicyCompliant(authenticator.aaid)
  }

  /** Offered for authentication: hardware-supported and registered for the context's user. */
  predicate AuthenticationCandidate(context: AuthenticatorSelectionContext, authenticator: Authenticator)
  {
    authenticator.isSupportedByHardware
    && authenticator.registration.Some?
    && authenticator.registration.value.isRegistered(context.account.username)
  }

  /** The shared shape of both validations: allowlist, then the operation's filter, then the emptiness check. */
  function Validated(context: AuthenticatorSelectionContext, configuration: Option<seq<AuthenticatorAaid>>, table: AaidTable,
                     keep: Authenticator -> bool): (r: Result<seq<Authenticator>, ValidatorError>)
    ensures configuration.None? ==> r == Failure(ConfigurationNotLoaded)
    ensures configuration.Some? ==>
      (r.Failure? <==> forall a :: a in context.authenticators && IsAllowlisted(a, configuration.value, table) ==> !keep(a))
    ensures r.Failure? && configuration.Some? ==> r.error == Business(AuthenticatorNotFound)
    ensures r.Success? ==> r.value != [] && IsSubsequence(r.value, context.authenticators)
    ensures r.Success? ==> forall a :: a in r.value <==>
      a in context.authenticators && IsAllowlisted(a, configuration.value, table) && keep(a)
    ensures r.Success? ==> forall a ::
      multiset(r.value)[a] == (if IsAllowlisted(a, configuration.value, table) && keep(a) then multiset(context.authenticators)[a] else 0)
  {
    match configuration
    case None => Failure(ConfigurationNotLoaded)
    case Some(allowlist) =>
      var allowed := AllowedAuthenticators(context, allowlist, table);
      var offered := Filter(allowed, keep);
      forall a ensures a in offered <==> a in allowed && keep(a) {
        FilterMembership(allowed, keep, a);
      }
      SubsequenceTransitive(offered, allowed, context.authenticators);
      if offered == [] then
        Failure(Business(AuthenticatorNotFound))
      else
        Success(offered)
  }

  /** `validateForRegistration(context:)`. */
  function ValidateForRegistration(context: AuthenticatorSelectionContext, configuration: Option<seq<AuthenticatorAaid>>, table: AaidTable): (r: Result<seq<Authenticator>, ValidatorError>)
    ensures configuration.None? ==> r == Failure(ConfigurationNotLoaded)
    ensures configuration.Some? ==>
      (r.Failure? <==> forall a :: a in context.authenticators && IsAllowlisted(a, configuration.value, table) ==> !RegistrationCandidate(context, a))
    ensures r.Failure? && configuration.Some? ==> r.error == Business(AuthenticatorNotFound)
    ensures r.Success? ==> r.value != [] && IsSubsequence(r.value, context.authenticators)
    ensures r.Success? ==> forall a :: a in r.value <==>
      a in context.authenticators && IsAllowlisted(a, configuration.value, table) && RegistrationCandidate(context, a)
    ensures r.Success? ==> forall a ::
      multiset(r.value)[a] == (if IsAllowlisted(a, configuration.value, table) && RegistrationCandidate(context, a) then multiset(context.authenticators)[a] else 0)
  {
    Validated(context, configuration, table, a => RegistrationCandidate(context, a))
  }

  /** `validateForAuthentication(context:)`; an authenticator without a registration is not registered. */
  function ValidateForAuthentication(context: AuthenticatorSelectionContext, configuration: Option<seq<AuthenticatorAaid>>, table: AaidTable): (r: Result<seq<Authenticator>, ValidatorError>)
    ensures configuration.None? ==> r == Failure(ConfigurationNotLoaded)
    ensures configuration.Some? ==>
      (r.Failure? <==> forall a :: a in context.authenticators && IsAllowlisted(a, configuration.value, table) ==> !AuthenticationCandidate(context, a))
    ensures r.Failure? && configuration.Some? ==> r.error == Business(AuthenticatorNotFound)
    ensures r.Success? ==> r.value != [] && IsSubsequence(r.value, context.authenticators)
    ensures r.Success? ==> forall a :: a in r.value <==>
      a in context.authenticators && IsAllowlisted(a, configuration.value, table) && AuthenticationCandidate(context, a)
    ensures r.Success? ==> forall a ::
      multiset(r.value)[a] == (if IsAllowlisted(a, configuration.value, table) && AuthenticationCandidate(context, a) then multiset(context.authenticators)[a] else 0)
  {
    Validated(context, configuration, table, a => AuthenticationCandidate(context, a))
  }
}
