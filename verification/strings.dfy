/**
 * The JavaScript string operations the pipeline relies on, on `seq<char>`:
 * `includes`, `startsWith`, `replace` with a string pattern (first
 * occurrence only), `trim`, `split` on one character, `toLowerCase`.
 */
module Strings {
  import opened Wrappers
  import Seqs

  /** `pat` occurs in `s` at position `i`. */
  predicate IsAt(s: string, pat: string, i: int) {
    0 <= i && i + |pat| <= |s| && s[i..i + |pat|] == pat
  }

  /** `s.indexOf(pat, from)`, with -1 as None. */
  function IndexOfFrom(s: string, pat: string, from: nat): (r: Option<nat>)
    decreases |s| + 1 - from
    ensures r.Some? ==> from <= r.value && IsAt(s, pat, r.value)
    ensures r.Some? ==> forall j :: from <= j < r.value ==> !IsAt(s, pat, j)
    ensures r.None? ==> forall j :: from <= j ==> !IsAt(s, pat, j)
  {
    if from + |pat| > |s| then None
    else if s[from..from + |pat|] == pat then Some(from)
    else IndexOfFrom(s, pat, from + 1)
  }

  /** `s.indexOf(pat)`: the first occurrence. */
  function IndexOf(s: string, pat: string): (r: Option<nat>)
    ensures r.Some? ==> IsAt(s, pat, r.value) && forall j :: 0 <= j < r.value ==> !IsAt(s, pat, j)
    ensures r.None? ==> forall j :: !IsAt(s, pat, j)
  {
    IndexOfFrom(s, pat, 0)
  }

  /** `s.includes(pat)`. */
  predicate Contains(s: string, pat: string)
    ensures Contains(s, pat) <==> exists j :: IsAt(s, pat, j)
  {
    IndexOf(s, pat).Some?
  }

  /** `s.startsWith(pat)`. */
  predicate StartsWith(s: string, pat: string) {
    IsAt(s, pat, 0)
  }

  /** `s.replace(pat, rep)` with a string pattern: only the first occurrence is replaced. */
  function ReplaceFirst(s: string, pat: string, rep: string): (r: string)
    ensures !Contains(s, pat) ==> r == s
    ensures Contains(s, pat) ==> exists i :: IsAt(s, pat, i) && (forall j :: 0 <= j < i ==> !IsAt(s, pat, j))
                                             && r == s[..i] + rep + s[i + |pat|..]
  {
    match IndexOf(s, pat)
    case None => s
    case Some(i) => s[..i] + rep + s[i + |pat|..]
  }

  /** ECMAScript WhiteSpace and LineTerminator code points: what `trim` removes. */
  predicate IsJsSpace(c: char) {
    || c == ' ' || c == '\t' || c == '\n' || c == '\r'
    || c == '\U{B}' || c == '\U{C}' || c == '\U{A0}' || c == '\U{1680}'
    || ('\U{2000}' <= c <= '\U{200A}')
    || c == '\U{2028}' || c == '\U{2029}' || c == '\U{202F}' || c == '\U{205F}'
    || c == '\U{3000}' || c == '\U{FEFF}'
  }

  /** Neither end of `s` is white space. */
  predicate IsTrimmed(s: string) {
    |s| == 0 || (!IsJsSpace(s[0]) && !IsJsSpace(s[|s| - 1]))
  }

  /** The end of the run of white space starting at `from`. */
  function SpaceRunEnd(s: string, from: nat): (e: nat)
    requires from <= |s|
    ensures from <= e <= |s|
    ensures forall k :: from <= k < e ==> IsJsSpace(s[k])
    ensures e < |s| ==> !IsJsSpace(s[e])
    decreases |s| - from
  {
    if from < |s| && IsJsSpace(s[from]) then SpaceRunEnd(s, from + 1) else from
  }

  /** The start of the run of white space ending at `hi`, looking no further back than `lo`. */
  function SpaceRunStart(s: string, lo: nat, hi: nat): (b: nat)
    requires lo <= hi <= |s|
    ensures lo <= b <= hi
    ensures forall k :: b <= k < hi ==> IsJsSpace(s[k])
    ensures b > lo ==> !IsJsSpace(s[b - 1])
    decreases hi
  {
    if hi > lo && IsJsSpace(s[hi - 1]) then SpaceRunStart(s, lo, hi - 1) else hi
  }

  /** `s.trim()`: white space removed from both ends. */
  function Trim(s: string): (r: string)
    ensures IsTrimmed(r) && |r| <= |s|
    ensures forall c :: c in r ==> c in s
  {
    var a := SpaceRunEnd(s, 0);
    var b := SpaceRunStart(s, a, |s|);
    s[a..b]
  }

  /** `r` sits in `s` at `i` with only white space around it. */
  predicate InfixAmidSpace(s: string, r: string, i: int) {
    && 0 <= i && i + |r| <= |s| && r == s[i..i + |r|]
    && (forall k :: 0 <= k < i ==> IsJsSpace(s[k]))
    && (forall k :: i + |r| <= k < |s| ==> IsJsSpace(s[k]))
  }

  /** What `trim` removes is white space, from both ends, and only that. */
  lemma TrimSpec(s: string)
    ensures exists i :: InfixAmidSpace(s, Trim(s), i)
  {
    var a := SpaceRunEnd(s, 0);
    assert InfixAmidSpace(s, Trim(s), a);
  }

  /** Trimming a string with no white space at its ends changes nothing. */
  lemma TrimmedIsFixed(s: string)
    requires IsTrimmed(s)
    ensures Trim(s) == s
  {
    if |s| > 0 {
      assert !IsJsSpace(s[0]) && !IsJsSpace(s[|s| - 1]);
      assert SpaceRunEnd(s, 0) == 0;
      assert SpaceRunStart(s, 0, |s|) == |s|;
    }
  }

  /** `trim` is idempotent. */
  lemma TrimIdempotent(s: string)
    ensures Trim(Trim(s)) == Trim(s)
  {
    TrimmedIsFixed(Trim(s));
  }

  /** Number of occurrences of `c` in `s`. */
  function Occurrences(s: string, c: char): nat {
    if |s| == 0 then 0
    else Occurrences(s[..|s| - 1], c) + (if s[|s| - 1] == c then 1 else 0)
  }

  /** `parts.join(sep)` with a one-character separator. */
  function JoinWith(parts: seq<string>, sep: char): string {
    if |parts| == 0 then []
    else if |parts| == 1 then parts[0]
    else JoinWith(parts[..|parts| - 1], sep) + [sep] + parts[|parts| - 1]
  }

  /** Joining a first part in front of a non-empty list. */
  lemma {:induction false} JoinWithCons(a: string, rest: seq<string>, sep: char)
    requires |rest| >= 1
    ensures JoinWith([a] + rest, sep) == a + [sep] + JoinWith(rest, sep)
    decreases |rest|
  {
    var x := [a] + rest;
    if |rest| == 1 {
      assert x[..|x| - 1] == [a];
    } else {
      var r0 := rest[..|rest| - 1];
      JoinWithCons(a, r0, sep);
      assert x[..|x| - 1] == [a] + r0;
      assert x[|x| - 1] == rest[|rest| - 1];
    }
  }

  /** Joining with an empty last part ends the join in a separator. */
  lemma JoinWithEmptyLast(parts: seq<string>, sep: char)
    requires |parts| >= 1
    ensures JoinWith(parts + [[]], sep) == JoinWith(parts, sep) + [sep]
  {
    Seqs.SnocFront(parts, []);
  }

  /** Joining after appending to the last part is appending to the join. */
  lemma JoinWithExtendLast(parts: seq<string>, sep: char, t: string)
    requires |parts| >= 1
    ensures JoinWith(parts[..|parts| - 1] + [parts[|parts| - 1] + t], sep) == JoinWith(parts, sep) + t
  {
    var x := parts[..|parts| - 1] + [parts[|parts| - 1] + t];
    assert x[..|x| - 1] == parts[..|parts| - 1];
  }

  /** `s.split(sep)` with a one-character separator. */
  function SplitOn(s: string, sep: char): (parts: seq<string>)
    ensures |parts| >= 1
    ensures forall i :: 0 <= i < |parts| ==> sep !in parts[i]
  {
    if |s| == 0 then [[]]
    else
      var init := SplitOn(s[..|s| - 1], sep);
      var c := s[|s| - 1];
      if c == sep then init + [[]]
      else init[..|init| - 1] + [init[|init| - 1] + [c]]
  }

  /** One more character either starts a new part or extends the last one. */
  lemma SplitOnSnoc(s: string, c: char, sep: char)
    ensures var p := SplitOn(s, sep);
            SplitOn(s + [c], sep) == if c == sep then p + [[]] else p[..|p| - 1] + [p[|p| - 1] + [c]]
  {
    assert (s + [c])[..|s + [c]| - 1] == s;
    assert (s + [c])[|s + [c]| - 1] == c;
  }

  /** `join` undoes `split`: the parts and separators spell the input. */
  lemma {:induction false} JoinSplitRoundTrip(s: string, sep: char)
    ensures JoinWith(SplitOn(s, sep), sep) == s
  {
    if |s| > 0 {
      var s0 := s[..|s| - 1];
      var c := s[|s| - 1];
      var p := SplitOn(s0, sep);
      JoinSplitRoundTrip(s0, sep);
      SplitOnSnoc(s0, c, sep);
      Seqs.FrontLast(s);
      assert s0 + [c] == s;
      if c == sep {
        assert SplitOn(s, sep) == p + [[]];
        JoinWithEmptyLast(p, sep);
        assert JoinWith(SplitOn(s, sep), sep) == s0 + [sep];
      } else {
        assert SplitOn(s, sep) == p[..|p| - 1] + [p[|p| - 1] + [c]];
        JoinWithExtendLast(p, sep, [c]);
        assert JoinWith(SplitOn(s, sep), sep) == s0 + [c];
      }
    }
  }

  /** `split` yields one part more than there are separators. */
  lemma {:induction false} SplitOnCount(s: string, sep: char)
    ensures |SplitOn(s, sep)| == 1 + Occurrences(s, sep)
  {
    if |s| > 0 {
      SplitOnCount(s[..|s| - 1], sep);
    }
  }

  lemma ExtendLastTwice(p: seq<string>, t: string, c: char)
    requires |p| >= 1
    ensures var q := p[..|p| - 1] + [p[|p| - 1] + t];
            q[..|q| - 1] + [q[|q| - 1] + [c]] == p[..|p| - 1] + [p[|p| - 1] + (t + [c])]
  {
    var q := p[..|p| - 1] + [p[|p| - 1] + t];
    assert q[..|q| - 1] == p[..|p| - 1];
    assert q[|q| - 1] == p[|p| - 1] + t;
    assert (p[|p| - 1] + t) + [c] == p[|p| - 1] + (t + [c]);
  }

  /** Splitting after appending separator-free text extends the last part. */
  lemma {:induction false} SplitOnAppendPlain(u: string, t: string, sep: char)
    requires sep !in t
    ensures var p := SplitOn(u, sep);
            SplitOn(u + t, sep) == p[..|p| - 1] + [p[|p| - 1] + t]
    decreases |t|
  {
    var p := SplitOn(u, sep);
    if |t| == 0 {
      assert u + t == u;
      assert p[|p| - 1] + t == p[|p| - 1];
      Seqs.FrontLast(p);
    } else {
      var t0 := t[..|t| - 1];
      var c := t[|t| - 1];
      Seqs.FrontLast(t);
      SplitOnAppendPlain(u, t0, sep);
      SplitOnAppendStep(u, t0, c, sep);
    }
  }

  lemma SplitOnAppendStep(u: string, t0: string, c: char, sep: char)
    requires c != sep
    requires var p := SplitOn(u, sep);
             SplitOn(u + t0, sep) == p[..|p| - 1] + [p[|p| - 1] + t0]
    ensures var p := SplitOn(u, sep);
            SplitOn(u + (t0 + [c]), sep) == p[..|p| - 1] + [p[|p| - 1] + (t0 + [c])]
  {
    Seqs.SnocAssoc(u, t0, c);
    SplitOnSnoc(u + t0, c, sep);
    ExtendLastTwice(SplitOn(u, sep), t0, c);
  }

  /** `split` undoes `join` when no part contains the separator. */
  lemma {:induction false} SplitJoinRoundTrip(parts: seq<string>, sep: char)
    requires |parts| >= 1
    requires forall i :: 0 <= i < |parts| ==> sep !in parts[i]
    ensures SplitOn(JoinWith(parts, sep), sep) == parts
  {
    var last := parts[|parts| - 1];
    if |parts| == 1 {
      SplitOnAppendPlain([], last, sep);
      assert [] + last == last;
    } else {
      var init := parts[..|parts| - 1];
      assert forall i :: 0 <= i < |init| ==> init[i] == parts[i];
      assert sep !in last;
      var j := JoinWith(init, sep);
      SplitJoinRoundTrip(init, sep);
      assert SplitOn(j, sep) == init;
      SplitOnSnoc(j, sep, sep);
      var q := init + [[]];
      assert SplitOn(j + [sep], sep) == q;
      SplitOnAppendPlain(j + [sep], last, sep);
      assert j + [sep] + last == JoinWith(parts, sep);
      Seqs.SnocFront(init, []);
      assert q[|q| - 1] + last == last;
      Seqs.FrontLast(parts);
    }
  }

  predicate NotQuote(c: char) { c != '"' }

  /** `s.replace(/"/g, '')`: every double quote removed, everything else kept in order. */
  function RemoveQuotes(s: string): (r: string)
    ensures '"' !in r
    ensures Seqs.IsSubseq(r, s)
  {
    Seqs.FilterIsSubseq(s, NotQuote);
    Seqs.Filter(s, NotQuote)
  }

  /** `String.prototype.toLowerCase` on one character, for ASCII and Latin-1 capitals. */
  function LowerChar(c: char): char {
    if 'A' <= c <= 'Z' then (c as int + 32) as char
    else if ('\U{C0}' <= c <= '\U{DE}') && c != '\U{D7}' then (c as int + 32) as char
    else c
  }

  function Lower(s: string): (r: string)
    ensures |r| == |s|
  {
    seq(|s|, i requires 0 <= i < |s| => LowerChar(s[i]))
  }
}
