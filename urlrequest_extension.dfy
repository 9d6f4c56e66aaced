/**
 * `URLRequest.encode(parameters:)`: the form body of a request. Every dictionary entry becomes
 * one pair string, the pairs are joined by "&" and the result is stored UTF-8 encoded in `httpBody`.
 */
module UrlRequestExtension {
  import opened Wrappers
  import opened Utf8
  import opened Seqs
  import opened StringExtension

  /** The order in which a dictionary hands out its keys: every key exactly once. */
  ghost predicate IsEnumerationOrder(parameters: map<string, string>, order: seq<string>)
  {
    (forall i, j :: 0 <= i < j < |order| ==> order[i] != order[j])
    && (forall k :: k in order <==> k in parameters)
  }

  /** One pair as written: the key unescaped, "=", the escaped value and a literal ')'. */
  function Pair(key: string, value: string): string
  {
    key + "=" + PercentEscaped(value) + ")"
  }

  /** The pair of the entry under `key`. */
  function EntryPair(parameters: map<string, string>, key: string): string
  {
    Pair(key, if key in parameters then parameters[key] else "")
  }

  /** `parameters.map { ... }`, in enumeration order. */
  function Pairs(parameters: map<string, string>, order: seq<string>): (r: seq<string>)
    ensures |r| == |order|
  {
    MapSeq(k => EntryPair(parameters, k), order)
  }

  /** The bytes assigned to `httpBody`. */
  function Body(parameters: map<string, string>, order: seq<string>): seq<byte>
  {
    Utf8.Encode(Join(Pairs(parameters, order), "&"))
  }

  class UrlRequest {
    var url: string
    var httpMethod: string
    var httpBody: Option<seq<byte>>

    constructor(url: string, httpMethod: string)
      ensures this.url == url && this.httpMethod == httpMethod && httpBody == None
    {
      this.url := url;
      this.httpMethod := httpMethod;
      httpBody := None;
    }

    /** `encode(parameters:)`: only `httpBody` changes, and it is never nil afterwards. */
    method Encode(parameters: map<string, string>, order: seq<string>)
      requires IsEnumerationOrder(parameters, order)
      modifies this`httpBody
      ensures httpBody == Some(Body(parameters, order))
    {
      var pairs := Pairs(parameters, order);
      httpBody := Some(Utf8.Encode(Join(pairs, "&")));
    }
  }

  lemma {:induction false} DistinctCardinality(order: seq<string>)
    requires forall i, j :: 0 <= i < j < |order| ==> order[i] != order[j]
    ensures |set k | k in order| == |order|
  {
    if order != [] {
      var rest := order[1..];
      DistinctCardinality(rest);
      assert (set k | k in order) == {order[0]} + (set k | k in rest);
      assert order[0] !in rest by {
        forall j | 0 <= j < |rest| ensures rest[j] != order[0] {
          assert rest[j] == order[j + 1];
        }
      }
    }
  }

  /** There is one pair per dictionary entry. */
  lemma PairsCount(parameters: map<string, string>, order: seq<string>)
    requires IsEnumerationOrder(parameters, order)
    ensures |Pairs(parameters, order)| == |parameters|
  {
    DistinctCardinality(order);
    assert (set k | k in order) == parameters.Keys;
  }

  lemma {:induction false} DistinctMultiset(order: seq<string>, k: string)
    requires forall i, j :: 0 <= i < j < |order| ==> order[i] != order[j]
    ensures multiset(order)[k] == if k in order then 1 else 0
  {
    if order != [] {
      var rest := order[1..];
      assert order == [order[0]] + rest;
      DistinctMultiset(rest, k);
      assert order[0] !in rest by {
        forall j | 0 <= j < |rest| ensures rest[j] != order[0] {
          assert rest[j] == order[j + 1];
        }
      }
    }
  }

  /** The enumeration order is unspecified: any two orders give the same pairs, permuted. */
  lemma PairsPermutation(parameters: map<string, string>, order1: seq<string>, order2: seq<string>)
    requires IsEnumerationOrder(parameters, order1) && IsEnumerationOrder(parameters, order2)
    ensures multiset(Pairs(parameters, order1)) == multiset(Pairs(parameters, order2))
  {
    forall k ensures multiset(order1)[k] == multiset(order2)[k] {
      DistinctMultiset(order1, k);
      DistinctMultiset(order2, k);
    }
    assert multiset(order1) == multiset(order2);
    MapSeqPermutation(k => EntryPair(parameters, k), order1, order2);
  }

  /** An empty dictionary gives an empty, non-nil body. */
  lemma EmptyParametersGiveEmptyBody(order: seq<string>)
    requires IsEnumerationOrder(map[], order)
    ensures order == [] && Body(map[], order) == []
  {
    PairsCount(map[], order);
  }

  /**
   * A pair holds the key unescaped, then "=", then an escaped value that decodes back to the
   * value followed by the stray ')' byte.
   */
  lemma PairShape(key: string, value: string)
    ensures var r := Pair(key, value);
      |r| >= |key| + 2
      && r[..|key|] == key
      && r[|key|] == '='
      && FormDecode(r[|key| + 1..]) == Utf8.Encode(value) + [')' as int as byte]
  {
    var r := Pair(key, value);
    var e := PercentEscaped(value);
    assert r[|key| + 1..] == e + ")";
    EncodeAppend(e, ")");
    assert Utf8.Encode(")") == [')' as int as byte];
    DecodeEscaped(value, [')' as int as byte]);
    assert FormDecodeBytes([')' as int as byte]) == [')' as int as byte];
  }

  /** No key holding '&' means the body splits back at '&' into exactly its pairs. */
  lemma BodySplitsIntoPairs(parameters: map<string, string>, order: seq<string>)
    requires IsEnumerationOrder(parameters, order) && |order| >= 1
    requires forall k :: k in parameters ==> '&' !in k
    ensures Split(Join(Pairs(parameters, order), "&"), '&') == Pairs(parameters, order)
  {
    var pairs := Pairs(parameters, order);
    forall i | 0 <= i < |pairs| ensures '&' !in pairs[i] {
      var k := order[i];
      var v := if k in parameters then parameters[k] else "";
      PercentEscapedAlphabet(v);
      assert pairs[i] == k + "=" + PercentEscaped(v) + ")";
    }
    SplitJoin(pairs, '&');
  }

  /** The pair the form encoding calls for: without the stray ')'. */
  function IntendedPair(key: string, value: string): string
  {
    key + "=" + PercentEscaped(value)
  }

  /** The intended pair decodes back to exactly the value. */
  lemma IntendedPairShape(key: string, value: string)
    ensures var r := IntendedPair(key, value);
      |r| >= |key| + 1
      && r[..|key|] == key
      && r[|key|] == '='
      && FormDecode(r[|key| + 1..]) == Utf8.Encode(value)
  {
    var r := IntendedPair(key, value);
    assert r[|key| + 1..] == PercentEscaped(value);
    PercentEscapedRoundTrip(value);
  }

  /** The pair as written differs from the intended one in every case: the decoded value gains a byte. */
  lemma PairAsWrittenDiffers(key: string, value: string)
    ensures Pair(key, value) == IntendedPair(key, value) + ")"
    ensures FormDecode(Pair(key, value)[|key| + 1..]) != FormDecode(IntendedPair(key, value)[|key| + 1..])
  {
    PairShape(key, value);
    IntendedPairShape(key, value);
    var a := Utf8.Encode(value);
    assert |a + [')' as int as byte]| != |a|;
  }
}
