/**
 * The sorts the dashboard performs: `[...new Set(xs)].sort(cmp)` (a strictly
 * ordered set of values), JavaScript's stable `Array.prototype.sort` by a
 * numeric key (ES2019 stability), and the "first match in a sorted copy"
 * lookup that the joins use to find the most recent record.
 */
module Sorting {
  import opened Wrappers
  import Seqs

  /** `lt` is a strict total order. */
  ghost predicate StrictTotal<T(!new)>(lt: (T, T) -> bool) {
    && (forall a :: !lt(a, a))
    && (forall a, b, c :: lt(a, b) && lt(b, c) ==> lt(a, c))
    && (forall a, b :: a != b ==> lt(a, b) || lt(b, a))
  }

  /** Every element is strictly before every later one. */
  predicate StrictlySorted<T>(s: seq<T>, lt: (T, T) -> bool) {
    forall i, j :: 0 <= i < j < |s| ==> lt(s[i], s[j])
  }

  /** `(a, b) => a - b` as a comparator on integers. */
  predicate IntAsc(a: int, b: int) { a < b }

  /** `(a, b) => b - a` as a comparator on integers. */
  predicate IntDesc(a: int, b: int) { a > b }

  /**
   * The default `sort()` comparator on strings: lexicographic, character by
   * character, a proper prefix first.
   */
  predicate StringLess(a: string, b: string)
    decreases |a|
  {
    if |a| == 0 then |b| > 0
    else if |b| == 0 then false
    else if a[0] != b[0] then a[0] < b[0]
    else StringLess(a[1..], b[1..])
  }

  lemma IntOrdersAreTotal()
    ensures StrictTotal(IntAsc)
    ensures StrictTotal(IntDesc)
  {
  }

  lemma {:induction false} StringLessIrreflexive(a: string)
    ensures !StringLess(a, a)
  {
    if |a| > 0 {
      StringLessIrreflexive(a[1..]);
    }
  }

  lemma {:induction false} StringLessTransitive(a: string, b: string, c: string)
    requires StringLess(a, b) && StringLess(b, c)
    ensures StringLess(a, c)
  {
    if |a| > 0 && |b| > 0 && |c| > 0 && a[0] == b[0] && b[0] == c[0] {
      StringLessTransitive(a[1..], b[1..], c[1..]);
    }
  }

  lemma {:induction false} StringLessConnected(a: string, b: string)
    requires a != b
    ensures StringLess(a, b) || StringLess(b, a)
  {
    if |a| > 0 && |b| > 0 && a[0] == b[0] {
      assert a == [a[0]] + a[1..] && b == [b[0]] + b[1..];
      StringLessConnected(a[1..], b[1..]);
    }
  }

  /** The default string comparator is a strict total order. */
  lemma StringOrderIsTotal()
    ensures StrictTotal(StringLess)
  {
    forall a: string ensures !StringLess(a, a) {
      StringLessIrreflexive(a);
    }
    forall a: string, b: string, c: string | StringLess(a, b) && StringLess(b, c)
      ensures StringLess(a, c)
    {
      StringLessTransitive(a, b, c);
    }
    forall a: string, b: string | a != b ensures StringLess(a, b) || StringLess(b, a) {
      StringLessConnected(a, b);
    }
  }

  /** Insert `x` into a strictly sorted sequence unless it is already there. */
  function InsertUnique<T(==,!new)>(s: seq<T>, x: T, lt: (T, T) -> bool): (r: seq<T>)
    requires StrictTotal(lt) && StrictlySorted(s, lt)
    ensures StrictlySorted(r, lt)
    ensures forall i :: 0 <= i < |r| ==> r[i] == x || r[i] in s
    ensures x in r && forall i :: 0 <= i < |s| ==> s[i] in r
  {
    if |s| == 0 then [x]
    else if x == s[0] then s
    else if lt(x, s[0]) then [x] + s
    else
      var rest := InsertUnique(s[1..], x, lt);
      assert forall i :: 1 <= i < |s| ==> s[i] in s[1..];
      [s[0]] + rest
  }

  /**
   * `[...new Set(xs)].sort(cmp)` for a comparator that is a strict total
   * order: the distinct values of `xs`, strictly increasing.
   */
  function SortedSet<T(==,!new)>(xs: seq<T>, lt: (T, T) -> bool): (r: seq<T>)
    requires StrictTotal(lt)
    ensures StrictlySorted(r, lt)
    ensures forall i :: 0 <= i < |r| ==> r[i] in xs
    ensures forall i :: 0 <= i < |xs| ==> xs[i] in r
  {
    if |xs| == 0 then []
    else
      var xs0 := xs[..|xs| - 1];
      assert xs == xs0 + [xs[|xs| - 1]];
      InsertUnique(SortedSet(xs0, lt), xs[|xs| - 1], lt)
  }

  /** `[...new Set(xs)].sort((a, b) => a - b)` on integers. */
  function AscendingSet(xs: seq<int>): (r: seq<int>)
    ensures forall i, j :: 0 <= i < j < |r| ==> r[i] < r[j]
    ensures forall i :: 0 <= i < |r| ==> r[i] in xs
    ensures forall i :: 0 <= i < |xs| ==> xs[i] in r
  {
    IntOrdersAreTotal();
    SortedSet(xs, IntAsc)
  }

  /** `[...new Set(xs)].sort((a, b) => b - a)` on integers. */
  function DescendingSet(xs: seq<int>): (r: seq<int>)
    ensures forall i, j :: 0 <= i < j < |r| ==> r[i] > r[j]
    ensures forall i :: 0 <= i < |r| ==> r[i] in xs
    ensures forall i :: 0 <= i < |xs| ==> xs[i] in r
  {
    IntOrdersAreTotal();
    SortedSet(xs, IntDesc)
  }

  /** A strictly sorted sequence has no duplicates. */
  lemma StrictlySortedIsDistinct<T(!new)>(s: seq<T>, lt: (T, T) -> bool)
    requires StrictTotal(lt) && StrictlySorted(s, lt)
    ensures Seqs.Distinct(s)
  {
    forall i, j | 0 <= i < j < |s| ensures s[i] != s[j] {
      assert lt(s[i], s[j]);
    }
  }

  /** `x` occurs in `s` at an earlier position than `y`. */
  predicate Before<T(==)>(s: seq<T>, x: T, y: T) {
    exists a, b :: 0 <= a < b < |s| && s[a] == x && s[b] == y
  }

  /** In a strictly sorted sequence, smaller elements come first. */
  lemma SortedOrderIsPositional<T(!new)>(s: seq<T>, lt: (T, T) -> bool, x: T, y: T)
    requires StrictTotal(lt) && StrictlySorted(s, lt)
    requires x in s && y in s && lt(x, y)
    ensures Before(s, x, y)
  {
    var a :| 0 <= a < |s| && s[a] == x;
    var b :| 0 <= b < |s| && s[b] == y;
    assert a < b;
  }

  /** Keys never decrease along `s`. */
  predicate SortedBy<T>(s: seq<T>, key: T -> int) {
    forall i, j :: 0 <= i < j < |s| ==> key(s[i]) <= key(s[j])
  }

  /** Insert `x` after every element whose key is not greater than its own. */
  function InsertBy<T>(s: seq<T>, x: T, key: T -> int): (r: seq<T>)
    requires SortedBy(s, key)
    ensures SortedBy(r, key)
    ensures multiset(r) == multiset(s) + multiset{x}
  {
    if |s| == 0 then [x]
    else if key(x) < key(s[0]) then [x] + s
    else
      var rest := InsertBy(s[1..], x, key);
      assert s == [s[0]] + s[1..];
      InsertByBelow(s, x, key, rest);
      SortedCons(s[0], rest, key);
      [s[0]] + rest
  }

  /** Every element of `rest` has a key at least that of the head it follows. */
  lemma InsertByBelow<T>(s: seq<T>, x: T, key: T -> int, rest: seq<T>)
    requires |s| > 0 && SortedBy(s, key) && key(s[0]) <= key(x)
    requires multiset(rest) == multiset(s[1..]) + multiset{x}
    ensures forall i :: 0 <= i < |rest| ==> key(s[0]) <= key(rest[i])
  {
    forall i | 0 <= i < |rest| ensures key(s[0]) <= key(rest[i]) {
      assert rest[i] in multiset(rest);
      if rest[i] != x {
        assert rest[i] in multiset(s[1..]);
        var j :| 0 <= j < |s[1..]| && s[1..][j] == rest[i];
        assert s[j + 1] == rest[i];
      }
    }
  }

  /** A head no larger than anything after it keeps a sorted sequence sorted. */
  lemma SortedCons<T>(h: T, rest: seq<T>, key: T -> int)
    requires SortedBy(rest, key) && forall i :: 0 <= i < |rest| ==> key(h) <= key(rest[i])
    ensures SortedBy([h] + rest, key)
  {
    var r := [h] + rest;
    forall i, j | 0 <= i < j < |r| ensures key(r[i]) <= key(r[j]) {
      assert r[j] == rest[j - 1];
      if i > 0 {
        assert r[i] == rest[i - 1];
      }
    }
  }

  /**
   * `xs.slice().sort((a, b) => key(a) - key(b))` with ES2019's stable sort:
   * insertion sort that places each element after its equal-keyed predecessors.
   */
  function SortBy<T>(xs: seq<T>, key: T -> int): (r: seq<T>)
    ensures SortedBy(r, key)
    ensures multiset(r) == multiset(xs)
  {
    if |xs| == 0 then []
    else
      var xs0 := xs[..|xs| - 1];
      assert xs == xs0 + [xs[|xs| - 1]];
      InsertBy(SortBy(xs0, key), xs[|xs| - 1], key)
  }

  /** Sorting neither adds nor drops elements. */
  lemma SortByElements<T>(xs: seq<T>, key: T -> int)
    ensures forall i :: 0 <= i < |xs| ==> xs[i] in SortBy(xs, key)
    ensures forall i :: 0 <= i < |SortBy(xs, key)| ==> SortBy(xs, key)[i] in xs
  {
    var r := SortBy(xs, key);
    forall i | 0 <= i < |xs| ensures xs[i] in r {
      assert xs[i] in multiset(xs);
    }
    forall i | 0 <= i < |r| ensures r[i] in xs {
      assert r[i] in multiset(r);
    }
  }

  /**
   * Reference definition of "the best match": the position of an element
   * satisfying `p` with the smallest key, the first such in `xs` among ties.
   */
  function MinIndexBy<T>(xs: seq<T>, p: T -> bool, key: T -> int): (r: Option<nat>)
    ensures r.None? <==> forall j :: 0 <= j < |xs| ==> !p(xs[j])
    ensures r.Some? ==> r.value < |xs| && p(xs[r.value])
    ensures r.Some? ==> forall j :: 0 <= j < |xs| && p(xs[j]) ==> key(xs[r.value]) <= key(xs[j])
    ensures r.Some? ==> forall j :: 0 <= j < r.value && p(xs[j]) ==> key(xs[r.value]) < key(xs[j])
  {
    if |xs| == 0 then None
    else
      var n := |xs| - 1;
      var prev := MinIndexBy(xs[..n], p, key);
      if p(xs[n]) && (prev.None? || key(xs[n]) < key(xs[prev.value])) then Some(n) else prev
  }

  /** The element `MinIndexBy` points at. */
  function MinBy<T>(xs: seq<T>, p: T -> bool, key: T -> int): Option<T> {
    match MinIndexBy(xs, p, key)
    case None => None
    case Some(i) => Some(xs[i])
  }

  /** How an insertion changes the first match of `p`. */
  lemma {:induction false} FindInsertBy<T>(s: seq<T>, x: T, p: T -> bool, key: T -> int)
    requires SortedBy(s, key)
    ensures var f := Seqs.Find(s, p);
            Seqs.Find(InsertBy(s, x, key), p)
              == if p(x) && !(f.Some? && key(f.value) <= key(x)) then Some(x) else f
  {
    if |s| > 0 && key(x) >= key(s[0]) {
      if !p(s[0]) {
        FindInsertBy(s[1..], x, p, key);
        var r := [s[0]] + InsertBy(s[1..], x, key);
        assert r[1..] == InsertBy(s[1..], x, key);
      }
    }
  }

  /**
   * The first match of `p` in the stably sorted copy is the reference
   * "best match": smallest key, earliest in input order among ties.
   */
  lemma {:induction false} FindSortedIsMinBy<T>(xs: seq<T>, p: T -> bool, key: T -> int)
    ensures Seqs.Find(SortBy(xs, key), p) == MinBy(xs, p, key)
  {
    if |xs| > 0 {
      var n := |xs| - 1;
      var xs0 := xs[..n];
      FindSortedIsMinBy(xs0, p, key);
      FindInsertBy(SortBy(xs0, key), xs[n], p, key);
      var prev := MinIndexBy(xs0, p, key);
      if prev.Some? {
        assert xs0[prev.value] == xs[prev.value];
      }
    }
  }

  /** How the best match changes when one element is appended. */
  lemma MinBySnoc<T>(xs: seq<T>, x: T, p: T -> bool, key: T -> int)
    ensures var m := MinBy(xs, p, key);
            MinBy(xs + [x], p, key) == if p(x) && (m.None? || key(x) < key(m.value)) then Some(x) else m
  {
    var ys := xs + [x];
    assert ys[..|ys| - 1] == xs;
    var prev := MinIndexBy(xs, p, key);
    if prev.Some? {
      assert ys[prev.value] == xs[prev.value];
    }
  }

  /**
   * Searching a filtered copy is searching the original for both
   * conditions: `pq` is `q` and `p` together.
   */
  lemma {:induction false} MinByFilter<T>(xs: seq<T>, q: T -> bool, p: T -> bool, pq: T -> bool, key: T -> int)
    requires forall x :: pq(x) == (q(x) && p(x))
    ensures MinBy(Seqs.Filter(xs, q), p, key) == MinBy(xs, pq, key)
  {
    if |xs| > 0 {
      var n := |xs| - 1;
      var xs0 := xs[..n];
      assert xs == xs0 + [xs[n]];
      MinByFilter(xs0, q, p, pq, key);
      MinBySnoc(xs0, xs[n], pq, key);
      if q(xs[n]) {
        MinBySnoc(Seqs.Filter(xs0, q), xs[n], p, key);
      }
    }
  }
}
