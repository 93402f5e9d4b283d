/**
 * The order in which `Object.keys` / `Object.values` list an object's own
 * properties (section 10.1.11.1 of ECMA-262): array-index keys first, in
 * ascending numeric order, then the other string keys in the order they
 * were first assigned.
 */
module JsObject {
  import opened Wrappers
  import Seqs
  import opened Sorting

  /** An array index is an integer in [0, 2^32 - 2]. */
  const INDEX_BOUND: int := 0xFFFF_FFFF

  predicate IsIndex(n: int) { 0 <= n < INDEX_BOUND }

  predicate NotIndex(n: int) { !IsIndex(n) }

  predicate IsDigit(c: char) { '0' <= c <= '9' }

  /** The value of a string of decimal digits. */
  function DigitsValue(s: string): nat
    requires forall k :: 0 <= k < |s| ==> IsDigit(s[k])
  {
    if |s| == 0 then 0
    else
      var d := s[|s| - 1];
      assert IsDigit(d);
      DigitsValue(s[..|s| - 1]) * 10 + (d as int - '0' as int)
  }

  /** A key that is the canonical decimal spelling of an array index. */
  predicate IsIndexKey(s: string) {
    && |s| > 0
    && (forall k :: 0 <= k < |s| ==> IsDigit(s[k]))
    && (|s| == 1 || s[0] != '0')
    && IsIndex(DigitsValue(s))
  }

  predicate NotIndexKey(s: string) { !IsIndexKey(s) }

  function KeyValue(s: string): int {
    if IsIndexKey(s) then DigitsValue(s) else 0
  }

  /** The key order of an object whose integer keys were assigned in the order `order`. */
  function IntKeys(order: seq<int>): (r: seq<int>)
    ensures Seqs.Distinct(r)
    ensures forall k :: 0 <= k < |r| ==> r[k] in order
    ensures forall k :: 0 <= k < |order| ==> order[k] in r
  {
    IntOrdersAreTotal();
    var idx := SortedSet(Seqs.Filter(order, IsIndex), IntAsc);
    var other := Seqs.Dedup(Seqs.Filter(order, NotIndex));
    StrictlySortedIsDistinct(idx, IntAsc);
    assert forall k :: 0 <= k < |idx| ==> IsIndex(idx[k]);
    assert forall k :: 0 <= k < |other| ==> !IsIndex(other[k]);
    idx + other
  }

  /** With only index keys the listing is strictly ascending. */
  lemma IntKeysAscending(order: seq<int>)
    requires forall k :: 0 <= k < |order| ==> IsIndex(order[k])
    ensures StrictlySorted(IntKeys(order), IntAsc)
  {
    IntOrdersAreTotal();
    Seqs.FilterNone(order, NotIndex);
  }

  /** The key order of an object whose string keys were assigned in the order `order`. */
  function StringKeys(order: seq<string>): (r: seq<string>)
    ensures Seqs.Distinct(r)
    ensures forall k :: 0 <= k < |r| ==> r[k] in order
    ensures forall k :: 0 <= k < |order| ==> order[k] in r
  {
    var ix := Seqs.Filter(order, IsIndexKey);
    SortByElements(ix, KeyValue);
    var idx := Seqs.Dedup(SortBy(ix, KeyValue));
    var other := Seqs.Dedup(Seqs.Filter(order, NotIndexKey));
    Listing(order, IsIndexKey, idx, other);
    idx + other
  }

  /** Index keys followed by the other keys list every key once. */
  lemma Listing<T>(order: seq<T>, isIdx: T -> bool, idx: seq<T>, other: seq<T>)
    requires Seqs.Distinct(idx) && Seqs.Distinct(other)
    requires forall k :: 0 <= k < |idx| ==> idx[k] in order && isIdx(idx[k])
    requires forall k :: 0 <= k < |other| ==> other[k] in order && !isIdx(other[k])
    requires forall k :: 0 <= k < |order| ==> order[k] in idx || order[k] in other
    ensures Seqs.Distinct(idx + other)
    ensures forall k :: 0 <= k < |idx + other| ==> (idx + other)[k] in order
    ensures forall k :: 0 <= k < |order| ==> order[k] in idx + other
  {
    var r := idx + other;
    forall i, j | 0 <= i < j < |r| ensures r[i] != r[j] {
      if j < |idx| {
      } else if i >= |idx| {
        assert r[i] == other[i - |idx|] && r[j] == other[j - |idx|];
      } else {
        assert isIdx(r[i]) && !isIdx(r[j]);
      }
    }
  }

  /** With no index-like key, the listing is plain first-assignment order. */
  lemma StringKeysInsertionOrder(order: seq<string>)
    requires forall k :: 0 <= k < |order| ==> !IsIndexKey(order[k])
    ensures StringKeys(order) == Seqs.Dedup(order)
  {
    Seqs.FilterAll(order, NotIndexKey);
    Seqs.FilterNone(order, IsIndexKey);
    var none: seq<string> := [];
    assert Seqs.Dedup(SortBy(none, KeyValue)) == [];
  }

  /** A key starting with anything but a digit is never an array index. */
  lemma NonDigitKeyIsNotIndex(s: string)
    requires |s| > 0 && !IsDigit(s[0])
    ensures !IsIndexKey(s)
  {
  }
}
