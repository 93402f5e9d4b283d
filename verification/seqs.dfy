/**
 * Sequence operations that the dashboard's pipeline uses everywhere:
 * `Array.prototype.filter`, `Array.prototype.find`, `[...new Set(xs)]`,
 * and the "order-preserving subsequence" relation their results keep.
 */
module Seqs {
  import opened Wrappers

  /** `xs.filter(p)`: the elements satisfying `p`, in their original order. */
  function Filter<T>(xs: seq<T>, p: T -> bool): (r: seq<T>)
    ensures |r| <= |xs|
    ensures forall i :: 0 <= i < |r| ==> r[i] in xs && p(r[i])
    ensures forall i :: 0 <= i < |xs| && p(xs[i]) ==> xs[i] in r
  {
    if |xs| == 0 then []
    else
      var rest := Filter(xs[..|xs| - 1], p);
      assert xs == xs[..|xs| - 1] + [xs[|xs| - 1]];
      if p(xs[|xs| - 1]) then rest + [xs[|xs| - 1]] else rest
  }

  /** `a` is obtained from `b` by deleting elements (greedy match from the end). */
  predicate IsSubseq<T(==)>(a: seq<T>, b: seq<T>)
    decreases |b|
  {
    if |a| == 0 then true
    else if |b| == 0 then false
    else if a[|a| - 1] == b[|b| - 1] then IsSubseq(a[..|a| - 1], b[..|b| - 1])
    else IsSubseq(a, b[..|b| - 1])
  }

  /** No element occurs twice. */
  predicate Distinct<T(==)>(xs: seq<T>) {
    forall i, j :: 0 <= i < j < |xs| ==> xs[i] != xs[j]
  }

  /** A non-empty sequence is its front followed by its last element. */
  lemma FrontLast<T>(s: seq<T>)
    requires |s| > 0
    ensures s[..|s| - 1] + [s[|s| - 1]] == s
  {
  }

  lemma SnocAssoc<T>(a: seq<T>, b: seq<T>, x: T)
    ensures (a + b) + [x] == a + (b + [x])
  {
  }

  lemma Assoc<T>(a: seq<T>, b: seq<T>, c: seq<T>)
    ensures (a + b) + c == a + (b + c)
  {
  }

  /** Appending one element leaves the front in place. */
  lemma SnocFront<T>(s: seq<T>, x: T)
    ensures (s + [x])[..|s|] == s && (s + [x])[|s|] == x
  {
  }

  lemma {:induction false} SubseqExtend<T>(a: seq<T>, b: seq<T>, x: T)
    requires IsSubseq(a, b)
    ensures IsSubseq(a, b + [x])
    decreases |b|, 1
  {
    var b' := b + [x];
    assert b'[..|b'| - 1] == b;
    if |a| > 0 && a[|a| - 1] == x {
      SubseqDropLast(a, b);
    }
  }

  lemma {:induction false} SubseqDropLast<T>(a: seq<T>, b: seq<T>)
    requires |a| > 0 && IsSubseq(a, b)
    ensures IsSubseq(a[..|a| - 1], b)
    decreases |b|, 0
  {
    var b0 := b[..|b| - 1];
    assert b == b0 + [b[|b| - 1]];
    if a[|a| - 1] == b[|b| - 1] {
      SubseqExtend(a[..|a| - 1], b0, b[|b| - 1]);
    } else {
      SubseqDropLast(a, b0);
      SubseqExtend(a[..|a| - 1], b0, b[|b| - 1]);
    }
  }

  /** A subsequence stays one when the sequence, or both, gain a common first element. */
  lemma {:induction false} SubseqPrepend<T>(a: seq<T>, b: seq<T>, x: T)
    requires IsSubseq(a, b)
    ensures IsSubseq(a, [x] + b) && IsSubseq([x] + a, [x] + b)
    decreases |b|
  {
    if |b| == 0 {
      assert [x] + b == [x];
      assert ([x] + a)[..0] == [];
    } else {
      var b0 := b[..|b| - 1];
      var xb := [x] + b;
      assert xb[..|xb| - 1] == [x] + b0 && xb[|xb| - 1] == b[|b| - 1];
      var xa := [x] + a;
      if |a| > 0 {
        assert xa[..|xa| - 1] == [x] + a[..|a| - 1] && xa[|xa| - 1] == a[|a| - 1];
      }
      if |a| > 0 && a[|a| - 1] == b[|b| - 1] {
        SubseqPrepend(a[..|a| - 1], b0, x);
      } else {
        SubseqPrepend(a, b0, x);
        if |a| == 0 {
          assert xa == [x];
          assert xa[..0] == [];
        }
      }
    }
  }

  /** Every element of a subsequence comes from the sequence. */
  lemma {:induction false} SubseqElements<T>(a: seq<T>, b: seq<T>)
    requires IsSubseq(a, b)
    ensures forall i :: 0 <= i < |a| ==> a[i] in b
    decreases |b|
  {
    if |a| > 0 {
      var b0 := b[..|b| - 1];
      assert b == b0 + [b[|b| - 1]];
      if a[|a| - 1] == b[|b| - 1] {
        SubseqElements(a[..|a| - 1], b0);
        assert a == a[..|a| - 1] + [a[|a| - 1]];
      } else {
        SubseqElements(a, b0);
      }
    }
  }

  /** `xs.filter(p)` is an order-preserving subsequence of `xs`. */
  lemma {:induction false} FilterIsSubseq<T>(xs: seq<T>, p: T -> bool)
    ensures IsSubseq(Filter(xs, p), xs)
  {
    if |xs| > 0 {
      var xs0 := xs[..|xs| - 1];
      var x := xs[|xs| - 1];
      var rest := Filter(xs0, p);
      FilterIsSubseq(xs0, p);
      if p(x) {
        var r := rest + [x];
        assert r[..|r| - 1] == rest;
        assert xs[..|xs| - 1] == xs0;
      } else {
        SubseqExtend(rest, xs0, x);
        assert xs0 + [x] == xs;
      }
    }
  }

  /** A filter with a weaker predicate keeps everything a stronger one keeps, in order. */
  lemma {:induction false} FilterWeakerIsSuperseq<T>(xs: seq<T>, p: T -> bool, q: T -> bool)
    requires forall x :: x in xs && p(x) ==> q(x)
    ensures IsSubseq(Filter(xs, p), Filter(xs, q))
  {
    if |xs| > 0 {
      var xs0 := xs[..|xs| - 1];
      var x := xs[|xs| - 1];
      assert xs == xs0 + [x];
      FilterWeakerIsSuperseq(xs0, p, q);
      var fp := Filter(xs0, p);
      var fq := Filter(xs0, q);
      if p(x) {
        var r := fp + [x];
        var s := fq + [x];
        assert r[..|r| - 1] == fp;
        assert s[..|s| - 1] == fq;
      } else if q(x) {
        SubseqExtend(fp, fq, x);
      }
    }
  }

  /** `xs.find(p)`: the first element satisfying `p`, if any. */
  function Find<T>(xs: seq<T>, p: T -> bool): (r: Option<T>)
    ensures r.None? <==> forall i :: 0 <= i < |xs| ==> !p(xs[i])
    ensures r.Some? ==> exists i :: 0 <= i < |xs| && xs[i] == r.value && p(xs[i])
                                  && forall j :: 0 <= j < i ==> !p(xs[j])
  {
    if |xs| == 0 then None
    else if p(xs[0]) then Some(xs[0])
    else
      var r := Find(xs[1..], p);
      assert forall i :: 1 <= i < |xs| ==> xs[i] == xs[1..][i - 1];
      r
  }

  /** `xs.some(p)`. */
  predicate Any<T>(xs: seq<T>, p: T -> bool)
    ensures Any(xs, p) <==> exists i :: 0 <= i < |xs| && p(xs[i])
  {
    Find(xs, p).Some?
  }

  /** `[...new Set(xs)]`: each element once, at its first occurrence. */
  function Dedup<T(==)>(xs: seq<T>): (r: seq<T>)
    ensures Distinct(r)
    ensures forall i :: 0 <= i < |r| ==> r[i] in xs
    ensures forall i :: 0 <= i < |xs| ==> xs[i] in r
    ensures |r| <= |xs|
  {
    if |xs| == 0 then []
    else
      var rest := Dedup(xs[..|xs| - 1]);
      assert xs == xs[..|xs| - 1] + [xs[|xs| - 1]];
      if xs[|xs| - 1] in rest then rest else rest + [xs[|xs| - 1]]
  }

  /** `[...new Set(xs)]` keeps first occurrences in their original order. */
  lemma {:induction false} DedupIsSubseq<T>(xs: seq<T>)
    ensures IsSubseq(Dedup(xs), xs)
  {
    if |xs| > 0 {
      var xs0 := xs[..|xs| - 1];
      var x := xs[|xs| - 1];
      var rest := Dedup(xs0);
      DedupIsSubseq(xs0);
      assert xs == xs0 + [x];
      if x in rest {
        SubseqExtend(rest, xs0, x);
      } else {
        var r := rest + [x];
        assert r[..|r| - 1] == rest;
      }
    }
  }

  /** Filtering distributes over concatenation. */
  lemma {:induction false} FilterAppend<T>(a: seq<T>, b: seq<T>, p: T -> bool)
    ensures Filter(a + b, p) == Filter(a, p) + Filter(b, p)
    decreases |b|
  {
    if |b| == 0 {
      assert a + b == a;
    } else {
      var b0 := b[..|b| - 1];
      var y := b[|b| - 1];
      FilterAppend(a, b0, p);
      FrontLast(b);
      SnocAssoc(a, b0, y);
      SnocFront(a + b0, y);
      assert Filter(a + b, p) == Filter(a + b0, p) + (if p(y) then [y] else []);
      if p(y) {
        SnocAssoc(Filter(a, p), Filter(b0, p), y);
      }
    }
  }

  /** Filtering a sequence with a known first element. */
  lemma FilterCons<T>(x: T, xs: seq<T>, p: T -> bool)
    ensures Filter([x] + xs, p) == (if p(x) then [x] else []) + Filter(xs, p)
  {
    FilterAppend([x], xs, p);
    assert [x][..0] == [];
    assert Filter([x], p) == Filter([], p) + (if p(x) then [x] else []);
  }

  /** Filtering keeps everything when every element passes. */
  lemma {:induction false} FilterAll<T>(xs: seq<T>, p: T -> bool)
    requires forall i :: 0 <= i < |xs| ==> p(xs[i])
    ensures Filter(xs, p) == xs
  {
    if |xs| > 0 {
      FilterAll(xs[..|xs| - 1], p);
      assert xs == xs[..|xs| - 1] + [xs[|xs| - 1]];
    }
  }

  /** Filtering keeps nothing when no element passes. */
  lemma {:induction false} FilterNone<T>(xs: seq<T>, p: T -> bool)
    requires forall i :: 0 <= i < |xs| ==> !p(xs[i])
    ensures Filter(xs, p) == []
  {
    if |xs| > 0 {
      FilterNone(xs[..|xs| - 1], p);
    }
  }
  /** The last element satisfying `p`, if any: what a "later one overwrites" loop leaves. */
  function Last<T>(xs: seq<T>, p: T -> bool): (r: Option<T>)
    ensures r.None? <==> forall i :: 0 <= i < |xs| ==> !p(xs[i])
    ensures r.Some? ==> p(r.value) && r.value in xs
  {
    if |xs| == 0 then None
    else
      var n := |xs| - 1;
      assert forall i :: 0 <= i < n ==> xs[..n][i] == xs[i];
      if p(xs[n]) then Some(xs[n]) else Last(xs[..n], p)
  }

  /**
   * The last element of a filtered sequence that satisfies `p` is the last
   * element of the whole sequence satisfying both predicates.
   */
  lemma {:induction false} LastOfFilter<T>(xs: seq<T>, q: T -> bool, p: T -> bool, pq: T -> bool)
    requires forall x :: pq(x) == (q(x) && p(x))
    ensures Last(Filter(xs, q), p) == Last(xs, pq)
  {
    if |xs| > 0 {
      var n := |xs| - 1;
      var x := xs[n];
      LastOfFilter(xs[..n], q, p, pq);
      var f := Filter(xs[..n], q);
      assert Filter(xs, q) == if q(x) then f + [x] else f;
      assert Last(xs, pq) == if pq(x) then Some(x) else Last(xs[..n], pq);
      if q(x) {
        SnocFront(f, x);
        assert Last(f + [x], p) == if p(x) then Some(x) else Last(f, p);
      }
    }
  }

  /** Map each element through `f` and keep the defined results, in order. */
  function FilterMap<T, U(==)>(xs: seq<T>, f: T -> Option<U>): (r: seq<U>)
    ensures |r| <= |xs|
    ensures forall i :: 0 <= i < |xs| && f(xs[i]).Some? ==> f(xs[i]).value in r
    ensures forall i :: 0 <= i < |r| ==> Produced(xs, f, r[i])
  {
    if |xs| == 0 then []
    else
      var n := |xs| - 1;
      var rest := FilterMap(xs[..n], f);
      assert forall i :: 0 <= i < n ==> xs[..n][i] == xs[i];
      assert xs == xs[..n] + [xs[n]];
      match f(xs[n])
      case Some(u) => rest + [u]
      case None => rest
  }

  /** `f` applied to each element, in order, defined or not. */
  function Images<T, U>(xs: seq<T>, f: T -> Option<U>): (r: seq<Option<U>>)
    ensures |r| == |xs| && forall i :: 0 <= i < |xs| ==> r[i] == f(xs[i])
  {
    seq(|xs|, i requires 0 <= i < |xs| => f(xs[i]))
  }

  /** Each value wrapped as a defined result. */
  function Defined<U>(us: seq<U>): (r: seq<Option<U>>)
    ensures |r| == |us| && forall k :: 0 <= k < |us| ==> r[k] == Some(us[k])
  {
    seq(|us|, k requires 0 <= k < |us| => Some(us[k]))
  }

  /** How many entries are defined. */
  function DefinedCount<U>(os: seq<Option<U>>): nat {
    if |os| == 0 then 0
    else DefinedCount(os[..|os| - 1]) + (if os[|os| - 1].Some? then 1 else 0)
  }

  /**
   * `us` is exactly the defined entries of `os`, unwrapped, in their order
   * there: an order-preserving selection of the defined entries that
   * leaves none of them out.
   */
  ghost predicate DefinedInOrder<U>(us: seq<U>, os: seq<Option<U>>) {
    IsSubseq(Defined(us), os) && |us| == DefinedCount(os)
  }

  /** Every value of such a selection is a defined entry. */
  lemma DefinedInOrderSound<U>(us: seq<U>, os: seq<Option<U>>)
    requires DefinedInOrder(us, os)
    ensures forall k :: 0 <= k < |us| ==> Some(us[k]) in os
  {
    SubseqElements(Defined(us), os);
    forall k | 0 <= k < |us| ensures Some(us[k]) in os {
      assert Defined(us)[k] == Some(us[k]);
    }
  }

  /** What `FilterMap` keeps is exactly the defined images, in the order of their elements. */
  lemma {:induction false} FilterMapInOrder<T, U>(xs: seq<T>, f: T -> Option<U>)
    ensures DefinedInOrder(FilterMap(xs, f), Images(xs, f))
  {
    if |xs| > 0 {
      var n := |xs| - 1;
      var rest := FilterMap(xs[..n], f);
      FilterMapInOrder(xs[..n], f);
      var os := Images(xs, f);
      assert os[..n] == Images(xs[..n], f);
      assert os == Images(xs[..n], f) + [f(xs[n])];
      match f(xs[n])
      case Some(u) =>
        var r := rest + [u];
        assert Defined(r)[..|rest|] == Defined(rest);
      case None =>
        SubseqExtend(Defined(rest), Images(xs[..n], f), f(xs[n]));
    }
  }

  /** Some element of `xs` is mapped to `u`. */
  predicate Produced<T, U(==)>(xs: seq<T>, f: T -> Option<U>, u: U) {
    exists j :: 0 <= j < |xs| && f(xs[j]) == Some(u)
  }

  /** A non-empty sequence holds its head and the members of its tail; a distinct one keeps them apart. */
  lemma HeadTail<T>(xs: seq<T>)
    requires |xs| > 0
    ensures forall x :: x in xs <==> x == xs[0] || x in xs[1..]
    ensures Distinct(xs) ==> Distinct(xs[1..]) && xs[0] !in xs[1..]
  {
    assert xs == [xs[0]] + xs[1..];
    if Distinct(xs) {
      forall i, j | 0 <= i < j < |xs| - 1 ensures xs[1..][i] != xs[1..][j] {
        assert xs[1..][i] == xs[i + 1] && xs[1..][j] == xs[j + 1];
      }
      forall k | 0 <= k < |xs| - 1 ensures xs[1..][k] != xs[0] {
        assert xs[1..][k] == xs[k + 1];
      }
    }
  }

  /** Appending a new element keeps a sequence duplicate-free. */
  lemma DistinctSnoc<T>(xs: seq<T>, x: T)
    requires Distinct(xs) && x !in xs
    ensures Distinct(xs + [x])
  {
  }

  /** A subsequence of a duplicate-free sequence is duplicate-free. */
  lemma {:induction false} SubseqDistinct<T>(a: seq<T>, b: seq<T>)
    requires IsSubseq(a, b) && Distinct(b)
    ensures Distinct(a)
    decreases |b|
  {
    if |a| > 0 {
      var b0 := b[..|b| - 1];
      assert forall i :: 0 <= i < |b0| ==> b0[i] == b[i];
      if a[|a| - 1] == b[|b| - 1] {
        var a0 := a[..|a| - 1];
        SubseqDistinct(a0, b0);
        SubseqElements(a0, b0);
        assert b[|b| - 1] !in b0;
        assert forall i :: 0 <= i < |a0| ==> a[i] == a0[i];
      } else {
        SubseqDistinct(a, b0);
      }
    }
  }

  /** A duplicate-free sequence holds each value at most once. */
  lemma {:induction false} DistinctCounts<T>(xs: seq<T>)
    requires Distinct(xs)
    ensures forall x :: multiset(xs)[x] <= 1
  {
    if |xs| > 0 {
      var n := |xs| - 1;
      var xs0 := xs[..n];
      assert xs == xs0 + [xs[n]];
      assert Distinct(xs0);
      DistinctCounts(xs0);
      assert xs[n] !in xs0;
    }
  }

  /** A value at two positions is counted twice. */
  lemma RepeatCounted<T>(r: seq<T>, i: int, j: int)
    requires 0 <= i < j < |r| && r[i] == r[j]
    ensures multiset(r)[r[i]] >= 2
  {
    assert r == r[..j] + [r[j]] + r[j + 1..];
    assert r[..j][i] == r[i];
    assert r[i] in multiset(r[..j]);
  }

  /** A rearrangement of a duplicate-free sequence is duplicate-free. */
  lemma PermutationDistinct<T>(xs: seq<T>, r: seq<T>)
    requires Distinct(xs) && multiset(r) == multiset(xs)
    ensures Distinct(r)
  {
    DistinctCounts(xs);
    forall i, j | 0 <= i < j < |r| ensures r[i] != r[j] {
      if r[i] == r[j] {
        RepeatCounted(r, i, j);
      }
    }
  }
}
