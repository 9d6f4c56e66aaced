/**
 * `AccountSelectorImpl.selectAccount(context:handler:)`: validate the accounts, then act on how
 * many there are. `decodeUtf8` stands for `String(data:encoding: .utf8)`, which fails on bytes
 * that are not UTF-8.
 */
module AccountSelection {
  import opened Wrappers
  import opened Utf8
  import opened Vendor
  import opened AccountValidation

  /** The one effect of a call: a handler call, or one emission on the response subject. */
  datatype AccountSelectionOutcome =
    | HandlerUsername(handler: HandlerId, username: string)
    | HandlerCancel(handler: HandlerId)
    | EmitConfirmTransaction(message: string, account: Account, handler: HandlerId)
    | EmitSelectAccount(accounts: set<Account>, handler: HandlerId, transactionConfirmationData: Option<string>)

  /** The transaction text: nil when there is no data or it does not decode. */
  function TransactionText(context: AccountSelectionContext, decodeUtf8: seq<byte> -> Option<string>): (r: Option<string>)
    ensures context.transactionConfirmationData.None? ==> r.None?
    ensures context.transactionConfirmationData.Some? ==> r == decodeUtf8(context.transactionConfirmationData.value)
  {
    match context.transactionConfirmationData
    case None => None
    case Some(data) => decodeUtf8(data)
  }

  lemma SingletonElement(s: set<Account>, a: Account)
    requires |s| == 1 && a in s
    ensures s == {a}
  {
    assert |s - {a}| == 0;
  }

  /**
   * `selectAccount(context:handler:)`. A validator error cancels the handler; no account sends
   * the empty username; one account confirms the transaction when its text decodes and otherwise
   * sends that account's username; more accounts open the selection with all of them.
   */
  method SelectAccount(context: AccountSelectionContext, handler: HandlerId, decodeUtf8: seq<byte> -> Option<string>)
    returns (outcome: AccountSelectionOutcome)
    ensures outcome.handler == handler
    ensures ValidAccounts(context).Failure? ==> outcome == HandlerCancel(handler)
    ensures var v := ValidAccounts(context); v.Success? && |v.value| == 0 ==> outcome == HandlerUsername(handler, "")
    ensures var v := ValidAccounts(context); v.Success? && |v.value| == 1 ==>
      exists a :: v.value == {a}
        && (TransactionText(context, decodeUtf8).Some? ==>
              outcome == EmitConfirmTransaction(TransactionText(context, decodeUtf8).value, a, handler))
        && (TransactionText(context, decodeUtf8).None? ==> outcome == HandlerUsername(handler, a.username))
    ensures var v := ValidAccounts(context); v.Success? && |v.value| >= 2 ==>
      outcome == EmitSelectAccount(v.value, handler, TransactionText(context, decodeUtf8))
  {
    var validated := Validate(context);
    match validated {
      case Failure(_) =>
        outcome := HandlerCancel(handler);
      case Success(accounts) =>
        if |accounts| == 0 {
          outcome := HandlerUsername(handler, "");
        } else if |accounts| == 1 {
          var first :| first in accounts;
          SingletonElement(accounts, first);
          var text := TransactionText(context, decodeUtf8);
          if text.Some? {
            outcome := EmitConfirmTransaction(text.value, first, handler);
          } else {
            outcome := HandlerUsername(handler, first.username);
          }
        } else {
          outcome := EmitSelectAccount(accounts, handler, TransactionText(context, decodeUtf8));
        }
    }
  }
}
