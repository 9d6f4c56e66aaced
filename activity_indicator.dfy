/**
 * `ActivityIndicator`: a counter of sequence computations in progress. Tracking a sequence
 * increments it when the sequence is subscribed and decrements it when the subscription is disposed;
 * `loading` is `count > 0` with consecutive repeats dropped.
 */
module Activity {
  import opened Seqs

  /** `distinctUntilChanged()` on a finite trace: drops every element equal to the one before it. */
  function DistinctUntilChanged<T(==,!new)>(s: seq<T>): (r: seq<T>)
    ensures |r| <= |s|
    ensures s != [] ==> r != [] && r[0] == s[0] && r[|r| - 1] == s[|s| - 1]
    ensures forall i :: 0 <= i < |r| - 1 ==> r[i] != r[i + 1]
    ensures forall x :: x in r <==> x in s
  {
    if |s| <= 1 then s
    else
      var init := DistinctUntilChanged(s[..|s| - 1]);
      assert s == s[..|s| - 1] + [s[|s| - 1]];
      if init[|init| - 1] == s[|s| - 1] then init else init + [s[|s| - 1]]
  }

  /** A trace without consecutive repeats passes `distinctUntilChanged()` unchanged. */
  lemma {:induction false} DistinctUntilChangedKeepsDistinct<T(!new)>(s: seq<T>)
    requires forall i :: 0 <= i < |s| - 1 ==> s[i] != s[i + 1]
    ensures DistinctUntilChanged(s) == s
  {
    if |s| > 1 {
      var init := s[..|s| - 1];
      assert forall i :: 0 <= i < |init| - 1 ==> init[i] != init[i + 1];
      DistinctUntilChangedKeepsDistinct(init);
      assert init[|init| - 1] == s[|s| - 2];
      assert init + [s[|s| - 1]] == s;
    }
  }

  /** Applying `distinctUntilChanged()` twice is the same as once. */
  lemma DistinctUntilChangedIdempotent<T(!new)>(s: seq<T>)
    ensures DistinctUntilChanged(DistinctUntilChanged(s)) == DistinctUntilChanged(s)
  {
    DistinctUntilChangedKeepsDistinct(DistinctUntilChanged(s));
  }

  /** `map { $0 > 0 }` over the counter's values. */
  function LoadingFlags(values: seq<int>): (r: seq<bool>)
    ensures |r| == |values|
    ensures forall i :: 0 <= i < |r| ==> (r[i] <==> values[i] > 0)
  {
    MapSeq(v => v > 0, values)
  }

  class ActivityIndicator {
    /** The relay's current value. */
    var count: int
    /** Every value the relay has held, starting with its initial 0. */
    ghost var values: seq<int>
    /** The tokens of the tracked subscriptions not yet disposed. */
    var live: set<nat>
    /** Every token handed out so far is below this bound. */
    var issued: nat

    /** `loading`: some computation is in progress. */
    function Loading(): (r: bool)
      reads this
      ensures r <==> count > 0
      ensures Valid() ==> (r <==> live != {})
    {
      count > 0
    }

    /** The trace `loading` has emitted so far. */
    ghost function LoadingTrace(): seq<bool>
      reads this
    {
      DistinctUntilChanged(LoadingFlags(values))
    }

    /** The count is the number of live subscriptions, and the relay's latest value is the count. */
    ghost predicate Valid()
      reads this
    {
      count == |live|
      && values != [] && values[0] == 0 && values[|values| - 1] == count
      && forall t :: t in live ==> t < issued
    }

    /** `init()`: the relay starts at 0, so `loading` starts false. */
    constructor()
      ensures count == 0 && !Loading() && live == {}
      ensures LoadingTrace() == [false]
      ensures Valid()
    {
      count := 0;
      values := [0];
      live := {};
      issued := 0;
    }

    /** `increment()`: the relay gets its value plus one. */
    method Increment()
      modifies this`count, this`values
      ensures count == old(count) + 1 && values == old(values) + [count]
    {
      count := count + 1;
      values := values + [count];
    }

    /** `decrement()`: the relay gets its value minus one. */
    method Decrement()
      modifies this`count, this`values
      ensures count == old(count) - 1 && values == old(values) + [count]
    {
      count := count - 1;
      values := values + [count];
    }

    /**
     * `trackActivity` when the resulting sequence is subscribed: `Observable.using` creates the token,
     * which increments the counter. The token is returned so that its disposal can be modelled.
     */
    method Track() returns (token: nat)
      requires Valid()
      modifies this
      ensures token !in old(live) && live == old(live) + {token}
      ensures count == old(count) + 1 && Loading()
      ensures LoadingTrace() == DistinctUntilChanged(LoadingFlags(old(values)) + [true])
      ensures Valid()
    {
      token := issued;
      issued := issued + 1;
      Increment();
      live := live + {token};
      assert LoadingFlags(values) == LoadingFlags(old(values)) + [true];
    }

    /**
     * Disposing a token: its dispose action decrements the counter. A `Disposables.create(with:)`
     * disposable runs its action once, so disposing a token again changes nothing.
     */
    method Dispose(token: nat)
      requires Valid()
      modifies this
      ensures token in old(live) ==> live == old(live) - {token} && count == old(count) - 1
      ensures token in old(live) ==> LoadingTrace() == DistinctUntilChanged(LoadingFlags(old(values)) + [count > 0])
      ensures token !in old(live) ==> live == old(live) && count == old(count) && values == old(values)
      ensures live == {} ==> count == 0 && !Loading()
      ensures Valid()
    {
      if token in live {
        Decrement();
        live := live - {token};
        assert old(live) == live + {token};
        assert LoadingFlags(values) == LoadingFlags(old(values)) + [count > 0];
      }
    }

    /** `loading`'s latest emission is the current `count > 0`, and it never emits the same value twice in a row. */
    lemma LoadingTraceShape()
      requires Valid()
      ensures LoadingTrace() != [] && LoadingTrace()[0] == false
      ensures LoadingTrace()[|LoadingTrace()| - 1] == Loading()
      ensures forall i :: 0 <= i < |LoadingTrace()| - 1 ==> LoadingTrace()[i] != LoadingTrace()[i + 1]
    {
    }
  }
}
