/**
 * `AccountValidatorImpl.validate(context:)`: the set of accounts that some hardware-supported
 * authenticator has registered and that the policy allows for that authenticator.
 */
module AccountValidation {
  import opened Wrappers
  import opened Seqs
  import opened Vendor
  import opened Domain

  /** `authenticator` has `account` registered and the policy allows the pair. */
  predicate Vouches(authenticator: Authenticator, account: Account, isPolicyCompliant: (string, string) -> bool)
  {
    authenticator.registration.Some?
    && account in authenticator.registration.value.registeredAccounts
    && isPolicyCompliant(account.username, authenticator.aaid)
  }

  /** ... and it is, moreover, supported by the hardware. */
  predicate Contributes(authenticator: Authenticator, account: Account, isPolicyCompliant: (string, string) -> bool)
  {
    authenticator.isSupportedByHardware && Vouches(authenticator, account, isPolicyCompliant)
  }

  /** The accounts of `accounts` the policy allows with `aaid`, collected left to right. */
  function CompliantAccounts(aaid: string, accounts: seq<Account>, isPolicyCompliant: (string, string) -> bool): set<Account>
  {
    if accounts == [] then {}
    else
      var last := accounts[|accounts| - 1];
      CompliantAccounts(aaid, accounts[..|accounts| - 1], isPolicyCompliant)
      + (if isPolicyCompliant(last.username, aaid) then {last} else {})
  }

  lemma {:induction false} CompliantAccountsMembership(aaid: string, accounts: seq<Account>, isPolicyCompliant: (string, string) -> bool, account: Account)
    ensures account in CompliantAccounts(aaid, accounts, isPolicyCompliant) <==>
      account in accounts && isPolicyCompliant(account.username, aaid)
  {
    if accounts != [] {
      var init := accounts[..|accounts| - 1];
      CompliantAccountsMembership(aaid, init, isPolicyCompliant, account);
      assert accounts == init + [accounts[|accounts| - 1]];
    }
  }

  /** What the authenticators in `authenticators` contribute; a nil registration contributes nothing. */
  function Contributed(authenticators: seq<Authenticator>, isPolicyCompliant: (string, string) -> bool): set<Account>
  {
    if authenticators == [] then {}
    else
      var last := authenticators[|authenticators| - 1];
      Contributed(authenticators[..|authenticators| - 1], isPolicyCompliant)
      + (if last.registration.Some?
         then CompliantAccounts(last.aaid, last.registration.value.registeredAccounts, isPolicyCompliant)
         else {})
  }

  function IsSupported(authenticator: Authenticator): bool { authenticator.isSupportedByHardware }

  /** The value `validate(context:)` returns or throws. */
  function ValidAccounts(context: AccountSelectionContext): Result<set<Account>, BusinessError>
  {
    var supported := Filter(context.authenticators, IsSupported);
    if supported == [] then Failure(AuthenticatorNotFound)
    else Success(Contributed(supported, context.isPolicyCompliant))
  }

  lemma {:induction false} ContributedMembership(authenticators: seq<Authenticator>, isPolicyCompliant: (string, string) -> bool, account: Account)
    ensures account in Contributed(authenticators, isPolicyCompliant) <==>
      exists x :: x in authenticators && Vouches(x, account, isPolicyCompliant)
  {
    if authenticators != [] {
      var init, last := authenticators[..|authenticators| - 1], authenticators[|authenticators| - 1];
      assert authenticators == init + [last];
      ContributedMembership(init, isPolicyCompliant, account);
      if last.registration.Some? {
        CompliantAccountsMembership(last.aaid, last.registration.value.registeredAccounts, isPolicyCompliant, account);
      }
      if x :| x in authenticators && Vouches(x, account, isPolicyCompliant) {
        assert x in init || x == last;
      }
      if Vouches(last, account, isPolicyCompliant) {
        assert last in authenticators;
      }
    }
  }

  /**
   * It throws `authenticatorNotFound` exactly when no authenticator is hardware-supported;
   * otherwise an account is in the set exactly when some supported authenticator vouches for it.
   * The set may be empty without an error.
   */
  lemma ValidAccountsMeaning(context: AccountSelectionContext)
    ensures ValidAccounts(context).Failure? <==> forall i :: 0 <= i < |context.authenticators| ==> !context.authenticators[i].isSupportedByHardware
    ensures ValidAccounts(context).Failure? ==> ValidAccounts(context).error == AuthenticatorNotFound
    ensures ValidAccounts(context).Success? ==> forall a :: a in ValidAccounts(context).value <==>
      exists x :: x in context.authenticators && Contributes(x, a, context.isPolicyCompliant)
  {
    var supported := Filter(context.authenticators, IsSupported);
    FilterEmpty(context.authenticators, IsSupported);
    forall a ensures a in Contributed(supported, context.isPolicyCompliant) <==>
      exists x :: x in context.authenticators && Contributes(x, a, context.isPolicyCompliant)
    {
      ContributedMembership(supported, context.isPolicyCompliant, a);
      forall x ensures x in supported <==> x in context.authenticators && x.isSupportedByHardware {
        FilterMembership(context.authenticators, IsSupported, x);
      }
    }
  }

  /** An authenticator without a registration contributes no account. */
  lemma UnregisteredContributesNothing(context: AccountSelectionContext, x: Authenticator, a: Account)
    requires x.registration.None?
    ensures !Contributes(x, a, context.isPolicyCompliant)
  {
  }

  /** The inner `forEach`: inserts each registered account the policy allows with `aaid`. */
  method InsertCompliant(accounts: set<Account>, aaid: string, registered: seq<Account>, isPolicyCompliant: (string, string) -> bool)
    returns (r: set<Account>)
    ensures r == accounts + CompliantAccounts(aaid, registered, isPolicyCompliant)
  {
    r := accounts;
    var j := 0;
    while j < |registered|
      invariant 0 <= j <= |registered|
      invariant r == accounts + CompliantAccounts(aaid, registered[..j], isPolicyCompliant)
    {
      var account := registered[j];
      assert registered[..j + 1][..j] == registered[..j] && registered[..j + 1][j] == account;
      if isPolicyCompliant(account.username, aaid) {
        r := r + {account};
      }
      j := j + 1;
    }
    assert registered[..j] == registered;
  }

  /** The outer `forEach`: what the supported authenticators contribute, one after another. */
  method CollectAccounts(supported: seq<Authenticator>, isPolicyCompliant: (string, string) -> bool) returns (accounts: set<Account>)
    ensures accounts == Contributed(supported, isPolicyCompliant)
  {
    accounts := {};
    var i := 0;
    while i < |supported|
      invariant 0 <= i <= |supported|
      invariant accounts == Contributed(supported[..i], isPolicyCompliant)
    {
      var authenticator := supported[i];
      assert supported[..i + 1][..i] == supported[..i] && supported[..i + 1][i] == authenticator;
      if authenticator.registration.Some? {
        accounts := InsertCompliant(accounts, authenticator.aaid, authenticator.registration.value.registeredAccounts, isPolicyCompliant);
      }
      i := i + 1;
    }
    assert supported[..i] == supported;
  }

  /** `validate(context:)`: throws when no authenticator is supported, else collects the accounts. */
  method Validate(context: AccountSelectionContext) returns (r: Result<set<Account>, BusinessError>)
    ensures r == ValidAccounts(context)
  {
    var supported := Filter(context.authenticators, IsSupported);
    if supported == [] {
      return Failure(AuthenticatorNotFound);
    }
    var accounts := CollectAccounts(supported, context.isPolicyCompliant);
    return Success(accounts);
  }
}
