/**
 * The calls the app makes on SDK handlers, recorded as a trace so that the view models can state
 * which handler was called, how, and how often.
 */
module HandlerCalls {
  import opened Wrappers
  import opened Vendor

  datatype HandlerCall =
    | CancelCall(handler: HandlerId)                                 // `cancel()`
    | PinCall(handler: HandlerId, pin: string)                       // enrollment `pin(_:)`
    | PasswordCall(handler: HandlerId, password: string)             // enrollment `password(_:)`
    | VerifyCall(handler: HandlerId, credential: string)             // verification `verify(_:)`
    | PinsCall(handler: HandlerId, oldPin: string, pin: string)      // change `pins(_:_:)`
    | PasswordsCall(handler: HandlerId, oldPassword: string, password: string) // change `passwords(_:_:)`
    | VerifyUserCall(handler: HandlerId)                             // biometric / device passcode `verify()`

  /** The handlers that are set, in field order. */
  function Live(slots: seq<Option<HandlerId>>): (r: seq<HandlerId>)
    ensures |r| <= |slots|
    ensures forall h :: h in r <==> Some(h) in slots
    ensures r == [] <==> forall i :: 0 <= i < |slots| ==> slots[i].None?
  {
    if slots == [] then []
    else
      assert slots == [slots[0]] + slots[1..];
      (if slots[0].Some? then [slots[0].value] else []) + Live(slots[1..])
  }

  /** At most one slot is set. */
  predicate AtMostOneSet(slots: seq<Option<HandlerId>>)
  {
    forall i, j :: 0 <= i < |slots| && 0 <= j < |slots| && slots[i].Some? && slots[j].Some? ==> i == j
  }

  lemma {:induction false} AtMostOneLive(slots: seq<Option<HandlerId>>)
    requires AtMostOneSet(slots)
    ensures |Live(slots)| <= 1
  {
    if slots != [] {
      var rest := slots[1..];
      assert forall i :: 0 <= i < |rest| ==> rest[i] == slots[i + 1];
      AtMostOneLive(rest);
      if slots[0].Some? {
        assert forall k :: 0 <= k < |rest| ==> rest[k].None?;
      }
    }
  }

  /** `handler?.cancel()` for each slot in turn. */
  function CancelEach(slots: seq<Option<HandlerId>>): (r: seq<HandlerCall>)
    ensures |r| == |Live(slots)|
    ensures forall i :: 0 <= i < |r| ==> r[i] == CancelCall(Live(slots)[i])
  {
    if slots == [] then []
    else (if slots[0].Some? then [CancelCall(slots[0].value)] else []) + CancelEach(slots[1..])
  }

  /** `handler` has been cancelled somewhere in `calls`. */
  predicate Cancelled(calls: seq<HandlerCall>, handler: HandlerId)
  {
    CancelCall(handler) in calls
  }

  /** No handler is cancelled twice. */
  predicate NoDoubleCancel(calls: seq<HandlerCall>)
  {
    forall i, j :: 0 <= i < j < |calls| && calls[i].CancelCall? && calls[j].CancelCall? ==> calls[i].handler != calls[j].handler
  }

  /** How many calls in `calls` go to `handler`. */
  function CallsTo(calls: seq<HandlerCall>, handler: HandlerId): (n: nat)
    ensures n <= |calls|
    ensures n == 0 <==> forall i :: 0 <= i < |calls| ==> calls[i].handler != handler
  {
    if calls == [] then 0
    else
      assert forall i :: 1 <= i < |calls| ==> calls[i] == calls[1..][i - 1];
      (if calls[0].handler == handler then 1 else 0) + CallsTo(calls[1..], handler)
  }

  lemma {:induction false} CallsToAppend(calls: seq<HandlerCall>, more: seq<HandlerCall>, handler: HandlerId)
    ensures CallsTo(calls + more, handler) == CallsTo(calls, handler) + CallsTo(more, handler)
  {
    if calls != [] {
      assert (calls + more)[1..] == calls[1..] + more;
      CallsToAppend(calls[1..], more, handler);
    } else {
      assert calls + more == more;
    }
  }

  /** Cancelling handlers that were never cancelled, each once, keeps the trace free of double cancels. */
  lemma CancelFreshHandlers(calls: seq<HandlerCall>, handlers: seq<HandlerId>, more: seq<HandlerCall>)
    requires NoDoubleCancel(calls)
    requires forall h :: h in handlers ==> !Cancelled(calls, h)
    requires forall i, j :: 0 <= i < j < |handlers| ==> handlers[i] != handlers[j]
    requires |more| == |handlers| && forall i :: 0 <= i < |more| ==> more[i] == CancelCall(handlers[i])
    ensures NoDoubleCancel(calls + more)
  {
    var all := calls + more;
    forall i, j | 0 <= i < j < |all| && all[i].CancelCall? && all[j].CancelCall?
      ensures all[i].handler != all[j].handler
    {
      if j < |calls| {
        assert all[i] == calls[i] && all[j] == calls[j];
      } else if i >= |calls| {
        assert all[i] == more[i - |calls|] && all[j] == more[j - |calls|];
      } else {
        var h := handlers[j - |calls|];
        assert h in handlers;
        assert all[j] == CancelCall(h) && all[i] == calls[i];
      }
    }
  }

  /** A trace without cancels adds no double cancel. */
  lemma AppendWithoutCancel(calls: seq<HandlerCall>, more: seq<HandlerCall>)
    requires NoDoubleCancel(calls)
    requires forall i :: 0 <= i < |more| ==> !more[i].CancelCall?
    ensures NoDoubleCancel(calls + more)
    ensures forall h :: Cancelled(calls + more, h) <==> Cancelled(calls, h)
  {
    var all := calls + more;
    forall h ensures Cancelled(all, h) <==> Cancelled(calls, h) {
      if Cancelled(all, h) {
        var i :| 0 <= i < |all| && all[i] == CancelCall(h);
        assert i < |calls|;
      }
    }
  }

  /**
   * Cancelling the handlers of slots `i` and `j` and emptying them keeps at most one slot set, no live
   * handler cancelled and no double cancel.
   */
  lemma CancelSlots(calls: seq<HandlerCall>, before: seq<Option<HandlerId>>, i: nat, j: nat)
    requires AtMostOneSet(before) && NoDoubleCancel(calls)
    requires forall h :: h in Live(before) ==> !Cancelled(calls, h)
    requires i < j < |before|
    ensures var after := before[i := None][j := None];
      var all := calls + CancelEach([before[i], before[j]]);
      AtMostOneSet(after) && NoDoubleCancel(all) && forall h :: h in Live(after) ==> !Cancelled(all, h)
  {
    var after := before[i := None][j := None];
    var current := [before[i], before[j]];
    var more := CancelEach(current);
    assert AtMostOneSet(current);
    AtMostOneLive(current);
    forall h | h in Live(current) ensures h in Live(before) {
      assert Some(h) in current;
    }
    CancelFreshHandlers(calls, Live(current), more);
    if before[i].Some? || before[j].Some? {
      assert forall k :: 0 <= k < |after| ==> after[k].None?;
    } else {
      assert after == before;
      assert calls + more == calls;
    }
  }

  /** Every handler is called at most once. */
  ghost predicate SingleUse(calls: seq<HandlerCall>)
  {
    forall h :: CallsTo(calls, h) <= 1
  }

  /** A handler with a call in the trace is counted. */
  lemma CalledMeansCounted(calls: seq<HandlerCall>, k: nat)
    requires k < |calls|
    ensures CallsTo(calls, calls[k].handler) >= 1
  {
  }

  /** Two calls to the same handler count twice. */
  lemma TwoCallsCount(calls: seq<HandlerCall>, i: nat, j: nat)
    requires i < j < |calls| && calls[i].handler == calls[j].handler
    ensures CallsTo(calls, calls[i].handler) >= 2
  {
    var h := calls[i].handler;
    var before, after := calls[..j], calls[j..];
    assert calls == before + after;
    CallsToAppend(before, after, h);
    CalledMeansCounted(before, i);
    CalledMeansCounted(after, 0);
  }

  /** A trace in which every handler is called at most once cancels none twice. */
  lemma SingleUseNoDoubleCancel(calls: seq<HandlerCall>)
    requires SingleUse(calls)
    ensures NoDoubleCancel(calls)
  {
    forall i, j | 0 <= i < j < |calls| && calls[i].CancelCall? && calls[j].CancelCall?
      ensures calls[i].handler != calls[j].handler
    {
      if calls[i].handler == calls[j].handler {
        TwoCallsCount(calls, i, j);
      }
    }
  }

  /**
   * A screen whose handlers are answered once: at most one slot is set, no handler has been called
   * twice, and the handler that is set has not been called yet.
   */
  ghost predicate Answerable(calls: seq<HandlerCall>, slots: seq<Option<HandlerId>>)
  {
    AtMostOneSet(slots) && SingleUse(calls) && forall h :: h in Live(slots) ==> CallsTo(calls, h) == 0
  }

  /** Calling the handler of slot `k` once and emptying the slot keeps the screen answerable. */
  lemma AnswerSlot(calls: seq<HandlerCall>, before: seq<Option<HandlerId>>, k: nat, call: HandlerCall)
    requires Answerable(calls, before)
    requires k < |before| && before[k].Some? && call.handler == before[k].value
    ensures Answerable(calls + [call], before[k := None])
    ensures CallsTo(calls + [call], call.handler) == 1
  {
    var after := before[k := None];
    assert forall i :: 0 <= i < |after| ==> after[i].None?;
    assert Some(call.handler) in before;
    forall h ensures CallsTo(calls + [call], h) <= 1 {
      CallsToAppend(calls, [call], h);
    }
    CallsToAppend(calls, [call], call.handler);
  }

  /** Cancelling every set slot, as `deinit` does, calls each live handler exactly once and no handler twice. */
  lemma CancelAllSlots(calls: seq<HandlerCall>, slots: seq<Option<HandlerId>>)
    requires Answerable(calls, slots)
    ensures SingleUse(calls + CancelEach(slots))
    ensures forall h :: h in Live(slots) ==> CallsTo(calls + CancelEach(slots), h) == 1
  {
    AtMostOneLive(slots);
    var more := CancelEach(slots);
    forall h ensures CallsTo(calls + more, h) <= 1 && (h in Live(slots) ==> CallsTo(calls + more, h) == 1) {
      CallsToAppend(calls, more, h);
      if |more| == 1 {
        assert more == [CancelCall(Live(slots)[0])];
      } else {
        assert more == [];
      }
    }
  }
}
