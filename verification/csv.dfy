/**
 * The hand-written CSV line splitters of the dashboard. All three are
 * subsets of section 2 of RFC 4180: no doubled-quote escapes, no line
 * breaks inside a field.
 *
 *  - the toggle splitter (salary-gap bubble plot): every `"` flips the
 *    in-quotes flag and is dropped;
 *  - the boundary splitter (timeline comparison): a `"` opens only at the
 *    start of a field and closes only at its end; other quotes are data;
 *  - the naive splitter (minimum-wage bar chart): every comma splits.
 */
module Csv {
  import opened Wrappers
  import Seqs
  import opened Strings

  /** A field as a writer would put it in a line: bare, or wrapped in quotes. */
  datatype Field = Plain(text: string) | Quoted(text: string)

  function Encode(f: Field): string {
    match f
    case Plain(t) => t
    case Quoted(t) => ['"'] + t + ['"']
  }

  function EncodeAll(fs: seq<Field>): seq<string> {
    seq(|fs|, k requires 0 <= k < |fs| => Encode(fs[k]))
  }

  function Texts(fs: seq<Field>): seq<string> {
    seq(|fs|, k requires 0 <= k < |fs| => fs[k].text)
  }

  /** The line a writer produces for `fs`. */
  function WriteLine(fs: seq<Field>): string {
    JoinWith(EncodeAll(fs), ',')
  }

  /** `values.map(v => v.trim())`. */
  function TrimAll(vs: seq<string>): (r: seq<string>)
    ensures |r| == |vs|
    ensures forall k :: 0 <= k < |r| ==> r[k] == Trim(vs[k])
  {
    if |vs| == 0 then [] else [Trim(vs[0])] + TrimAll(vs[1..])
  }

  lemma WriteLineSingle(fs: seq<Field>)
    requires |fs| == 1
    ensures WriteLine(fs) == Encode(fs[0])
  {
    assert EncodeAll(fs) == [Encode(fs[0])];
  }

  lemma WriteLineCons(fs: seq<Field>)
    requires |fs| >= 2
    ensures WriteLine(fs) == Encode(fs[0]) + [','] + WriteLine(fs[1..])
  {
    assert EncodeAll(fs) == [Encode(fs[0])] + EncodeAll(fs[1..]);
    JoinWithCons(Encode(fs[0]), EncodeAll(fs[1..]), ',');
  }

  lemma TextsCons(fs: seq<Field>)
    requires |fs| >= 1
    ensures Texts(fs) == [fs[0].text] + Texts(fs[1..])
  {
  }

  lemma TrimAllCons(v: string, vs: seq<string>)
    ensures TrimAll([v] + vs) == [Trim(v)] + TrimAll(vs)
  {
    assert ([v] + vs)[1..] == vs;
  }

  /** Reading a field and a comma off the rest of a line. */
  lemma SliceAround(line: string, i: nat, a: string, b: string)
    requires i <= |line| && line[i..] == a + [','] + b
    ensures i + |a| < |line| && line[i..i + |a|] == a && line[i + |a|] == ','
    ensures line[i + |a| + 1..] == b
  {
    assert line[i..][..|a|] == a;
    assert line[i..][|a|] == ',';
    assert line[i..][|a| + 1..] == b;
  }

  // ------------------------------------------------------------------
  // Toggle splitter
  // ------------------------------------------------------------------

  /** The `for` loop of the toggle splitter, from position `i` on. */
  function ToggleScan(line: string, i: nat, inQuotes: bool, current: string, fields: seq<string>): seq<string>
    requires i <= |line|
    decreases |line| - i
  {
    if i == |line| then fields + [current]
    else if line[i] == '"' then ToggleScan(line, i + 1, !inQuotes, current, fields)
    else if line[i] == ',' && !inQuotes then ToggleScan(line, i + 1, inQuotes, [], fields + [current])
    else ToggleScan(line, i + 1, inQuotes, current + [line[i]], fields)
  }

  /** The fields of the toggle splitter before the final clean-up. */
  function ToggleFields(line: string): seq<string> {
    ToggleScan(line, 0, false, [], [])
  }

  /** `v.replace(/^"|"$/g, '')`: one leading and one trailing quote removed. */
  function StripEdgeQuotes(v: string): string {
    var a := if |v| > 0 && v[0] == '"' then v[1..] else v;
    if |a| > 0 && a[|a| - 1] == '"' then a[..|a| - 1] else a
  }

  /** `parseCSVLine` of the salary-gap bubble plot. */
  function ParseLineToggle(line: string): (r: seq<string>)
    ensures |r| >= 1
    ensures forall k :: 0 <= k < |r| ==> IsTrimmed(r[k]) && '"' !in r[k]
  {
    var raw := ToggleFields(line);
    ToggleFieldsHaveNoQuotes(line);
    ToggleFieldsCount(line);
    seq(|raw|, k requires 0 <= k < |raw| => Trim(StripEdgeQuotes(raw[k])))
  }

  lemma {:induction false} ToggleScanNoQuotes(line: string, i: nat, q: bool, cur: string, fs: seq<string>)
    requires i <= |line|
    requires '"' !in cur && forall f :: f in fs ==> '"' !in f
    ensures forall f :: f in ToggleScan(line, i, q, cur, fs) ==> '"' !in f
    decreases |line| - i
  {
    if i < |line| {
      if line[i] == '"' {
        ToggleScanNoQuotes(line, i + 1, !q, cur, fs);
      } else if line[i] == ',' && !q {
        ToggleScanNoQuotes(line, i + 1, q, [], fs + [cur]);
      } else {
        ToggleScanNoQuotes(line, i + 1, q, cur + [line[i]], fs);
      }
    }
  }

  /** A `"` is never copied into a field. */
  lemma ToggleFieldsHaveNoQuotes(line: string)
    ensures forall k :: 0 <= k < |ToggleFields(line)| ==> '"' !in ToggleFields(line)[k]
  {
    ToggleScanNoQuotes(line, 0, false, [], []);
    var r := ToggleFields(line);
    assert forall k :: 0 <= k < |r| ==> r[k] in r;
  }

  /** Stripping edge quotes is the identity on a quote-free field. */
  lemma StripEdgeQuotesNoQuote(v: string)
    requires '"' !in v
    ensures StripEdgeQuotes(v) == v
  {
  }

  lemma {:induction false} ToggleScanJoin(line: string, i: nat, q: bool, cur: string, fs: seq<string>)
    requires i <= |line|
    ensures JoinWith(ToggleScan(line, i, q, cur, fs), ',') == JoinWith(fs + [cur], ',') + RemoveQuotes(line[i..])
    decreases |line| - i
  {
    if i < |line| {
      var c := line[i];
      var rest := RemoveQuotes(line[i + 1..]);
      RemoveQuotesCons(line, i);
      if c == '"' {
        ToggleScanJoin(line, i + 1, !q, cur, fs);
      } else if c == ',' && !q {
        ToggleScanJoin(line, i + 1, q, [], fs + [cur]);
        JoinWithEmptyLast(fs + [cur], ',');
        Seqs.Assoc(JoinWith(fs + [cur], ','), [','], rest);
      } else {
        ToggleScanJoin(line, i + 1, q, cur + [c], fs);
        var y := fs + [cur];
        Seqs.SnocFront(fs, cur);
        JoinWithExtendLast(y, ',', [c]);
        Seqs.Assoc(JoinWith(y, ','), [c], rest);
      }
    } else {
      assert line[i..] == [];
    }
  }

  /** Removing the quotes of a text with a known first character. */
  lemma RemoveQuotesCons(line: string, i: nat)
    requires i < |line|
    ensures RemoveQuotes(line[i..]) == (if line[i] == '"' then [] else [line[i]]) + RemoveQuotes(line[i + 1..])
  {
    var c := line[i];
    assert line[i..] == [c] + line[i + 1..];
    Seqs.FilterCons(c, line[i + 1..], NotQuote);
  }

  /** Joining the raw fields with commas gives back the line minus its quotes. */
  lemma ToggleFieldsJoin(line: string)
    ensures JoinWith(ToggleFields(line), ',') == RemoveQuotes(line)
  {
    ToggleScanJoin(line, 0, false, [], []);
    assert line[0..] == line;
  }

  /** The number of commas among the first `n` characters that follow an even number of quotes. */
  function OutsideCommas(line: string, n: nat): nat
    requires n <= |line|
  {
    if n == 0 then 0
    else OutsideCommas(line, n - 1)
         + (if line[n - 1] == ',' && Occurrences(line[..n - 1], '"') % 2 == 0 then 1 else 0)
  }

  lemma {:induction false} ToggleScanCount(line: string, i: nat, q: bool, cur: string, fs: seq<string>)
    requires i <= |line|
    requires q <==> Occurrences(line[..i], '"') % 2 == 1
    ensures |ToggleScan(line, i, q, cur, fs)| == |fs| + 1 + OutsideCommas(line, |line|) - OutsideCommas(line, i)
    decreases |line| - i
  {
    if i < |line| {
      assert line[..i + 1][..i] == line[..i];
      assert Occurrences(line[..i + 1], '"') == Occurrences(line[..i], '"') + (if line[i] == '"' then 1 else 0);
      OutsideCommasMonotone(line, i + 1, |line|);
      if line[i] == '"' {
        ToggleScanCount(line, i + 1, !q, cur, fs);
      } else if line[i] == ',' && !q {
        ToggleScanCount(line, i + 1, q, [], fs + [cur]);
      } else {
        ToggleScanCount(line, i + 1, q, cur + [line[i]], fs);
      }
    }
  }

  lemma {:induction false} OutsideCommasMonotone(line: string, m: nat, n: nat)
    requires m <= n <= |line|
    ensures OutsideCommas(line, m) <= OutsideCommas(line, n)
    decreases n - m
  {
    if m < n {
      OutsideCommasMonotone(line, m, n - 1);
    }
  }

  /** One field more than there are commas outside quotes. */
  lemma ToggleFieldsCount(line: string)
    ensures |ToggleFields(line)| == 1 + OutsideCommas(line, |line|)
  {
    assert line[..0] == [];
    ToggleScanCount(line, 0, false, [], []);
  }

  /** A field the toggle splitter reads back: no quotes, and no comma unless quoted. */
  predicate ToggleSafe(f: Field) {
    '"' !in f.text && (f.Plain? ==> ',' !in f.text)
  }

  lemma {:induction false} ToggleScanRun(line: string, i: nat, k: nat, q: bool, cur: string, fs: seq<string>)
    requires i + k <= |line|
    requires '"' !in line[i..i + k] && (q || ',' !in line[i..i + k])
    ensures ToggleScan(line, i, q, cur, fs) == ToggleScan(line, i + k, q, cur + line[i..i + k], fs)
    decreases k
  {
    if k == 0 {
      assert cur + line[i..i] == cur;
    } else {
      assert line[i] == line[i..i + k][0];
      assert line[i + 1..i + k] == line[i..i + k][1..];
      ToggleScanRun(line, i + 1, k - 1, q, cur + [line[i]], fs);
      assert cur + [line[i]] + line[i + 1..i + k] == cur + line[i..i + k];
    }
  }

  /** The three pieces of a quoted field as it sits in a line. */
  lemma QuotedSlices(line: string, i: nat, t: string)
    requires i + |t| + 2 <= |line| && line[i..i + |t| + 2] == ['"'] + t + ['"']
    ensures line[i] == '"' && line[i + 1..i + 1 + |t|] == t && line[i + 1 + |t|] == '"'
  {
    var w := line[i..i + |t| + 2];
    assert line[i] == w[0];
    forall k | 0 <= k < |t| ensures line[i + 1 + k] == t[k] {
      assert line[i + 1 + k] == w[1 + k];
    }
    assert line[i + 1..i + 1 + |t|] == t;
    assert line[i + 1 + |t|] == w[|t| + 1];
  }

  lemma ToggleScanField(line: string, i: nat, f: Field, fs: seq<string>)
    requires ToggleSafe(f)
    requires i + |Encode(f)| <= |line| && line[i..i + |Encode(f)|] == Encode(f)
    ensures ToggleScan(line, i, false, [], fs) == ToggleScan(line, i + |Encode(f)|, false, f.text, fs)
  {
    if f.Plain? {
      TogglePlainField(line, i, f.text, fs);
    } else {
      ToggleQuotedField(line, i, f.text, fs);
    }
  }

  lemma TogglePlainField(line: string, i: nat, t: string, fs: seq<string>)
    requires '"' !in t && ',' !in t
    requires i + |t| <= |line| && line[i..i + |t|] == t
    ensures ToggleScan(line, i, false, [], fs) == ToggleScan(line, i + |t|, false, t, fs)
  {
    ToggleScanRun(line, i, |t|, false, [], fs);
    assert [] + t == t;
  }

  lemma ToggleQuotedField(line: string, i: nat, t: string, fs: seq<string>)
    requires '"' !in t
    requires i + |t| + 2 <= |line| && line[i..i + |t| + 2] == ['"'] + t + ['"']
    ensures ToggleScan(line, i, false, [], fs) == ToggleScan(line, i + |t| + 2, false, t, fs)
  {
    var z := i + 1 + |t|;
    QuotedSlices(line, i, t);
    ToggleScanRun(line, i + 1, |t|, true, [], fs);
    assert [] + t == t;
  }

  lemma {:induction false} ToggleScanFields(line: string, i: nat, fs: seq<Field>, acc: seq<string>)
    requires |fs| >= 1 && forall k :: 0 <= k < |fs| ==> ToggleSafe(fs[k])
    requires i <= |line| && line[i..] == WriteLine(fs)
    ensures ToggleScan(line, i, false, [], acc) == acc + Texts(fs)
    decreases |fs|
  {
    var e := Encode(fs[0]);
    TextsCons(fs);
    if |fs| == 1 {
      WriteLineSingle(fs);
      assert line[i..i + |e|] == e;
      ToggleScanField(line, i, fs[0], acc);
      assert i + |e| == |line|;
    } else {
      WriteLineCons(fs);
      SliceAround(line, i, e, WriteLine(fs[1..]));
      ToggleScanField(line, i, fs[0], acc);
      assert ToggleScan(line, i + |e|, false, fs[0].text, acc)
          == ToggleScan(line, i + |e| + 1, false, [], acc + [fs[0].text]);
      ToggleScanFields(line, i + |e| + 1, fs[1..], acc + [fs[0].text]);
      assert acc + [fs[0].text] + Texts(fs[1..]) == acc + Texts(fs);
    }
  }

  /** The toggle splitter reads back exactly the fields a writer wrote. */
  lemma ToggleRoundTrip(fs: seq<Field>)
    requires |fs| >= 1 && forall k :: 0 <= k < |fs| ==> ToggleSafe(fs[k])
    ensures ToggleFields(WriteLine(fs)) == Texts(fs)
  {
    var line := WriteLine(fs);
    assert line[0..] == line;
    ToggleScanFields(line, 0, fs, []);
  }

  /** After clean-up: the trimmed texts of the written fields. */
  lemma ParseLineToggleRoundTrip(fs: seq<Field>)
    requires |fs| >= 1 && forall k :: 0 <= k < |fs| ==> ToggleSafe(fs[k])
    ensures ParseLineToggle(WriteLine(fs)) == TrimAll(Texts(fs))
  {
    ToggleRoundTrip(fs);
    forall k | 0 <= k < |fs| ensures StripEdgeQuotes(fs[k].text) == fs[k].text {
      StripEdgeQuotesNoQuote(fs[k].text);
    }
  }

  /** `1,"2,3",4` is three fields: the comma between quotes does not split. */
  lemma QuotedCommaExample()
    ensures ParseLineToggle("1,\"2,3\",4") == ["1", "2,3", "4"]
  {
    var fs := [Plain("1"), Quoted("2,3"), Plain("4")];
    ExampleLine(fs);
    ParseLineToggleRoundTrip(fs);
    ExampleTexts(fs);
  }

  lemma ExampleLine(fs: seq<Field>)
    requires fs == [Plain("1"), Quoted("2,3"), Plain("4")]
    ensures WriteLine(fs) == "1,\"2,3\",4"
  {
    WriteLineCons(fs);
    WriteLineCons(fs[1..]);
    WriteLineSingle(fs[2..]);
    assert fs[1..][1..] == fs[2..];
  }

  lemma ExampleTexts(fs: seq<Field>)
    requires fs == [Plain("1"), Quoted("2,3"), Plain("4")]
    ensures TrimAll(Texts(fs)) == ["1", "2,3", "4"]
  {
    assert Texts(fs) == ["1", "2,3", "4"];
    TrimmedIsFixed("1");
    TrimmedIsFixed("2,3");
    TrimmedIsFixed("4");
    TrimAllCons("1", ["2,3", "4"]);
    TrimAllCons("2,3", ["4"]);
    TrimAllCons("4", []);
  }

  // ------------------------------------------------------------------
  // Boundary splitter
  // ------------------------------------------------------------------

  /**
   * The inner `for` loop of the timeline's `parseCSV`, from position `j` on,
   * with the columns collected before `trim()`: trimming each column as it is
   * pushed and trimming them all at the end give the same array.
   */
  function BoundaryScan(line: string, j: nat, inQuotes: bool, current: string, cols: seq<string>): seq<string>
    requires j <= |line|
    decreases |line| - j
  {
    if j == |line| then cols + [current]
    else if line[j] == '"' && (j == 0 || line[j - 1] == ',') then
      BoundaryScan(line, j + 1, true, current, cols)
    else if line[j] == '"' && inQuotes && (j == |line| - 1 || line[j + 1] == ',') then
      BoundaryScan(line, j + 1, false, current, cols)
    else if line[j] == ',' && !inQuotes then
      BoundaryScan(line, j + 1, inQuotes, [], cols + [current])
    else
      BoundaryScan(line, j + 1, inQuotes, current + [line[j]], cols)
  }

  /** The columns of one (already trimmed) line of the timeline's `parseCSV`. */
  function SplitBoundary(line: string): (r: seq<string>)
    ensures |r| >= 1 && forall k :: 0 <= k < |r| ==> IsTrimmed(r[k])
  {
    BoundaryScanCount(line, 0, false, [], []);
    TrimAll(BoundaryScan(line, 0, false, [], []))
  }

  lemma {:induction false} BoundaryScanCount(line: string, j: nat, q: bool, cur: string, cols: seq<string>)
    requires j <= |line|
    ensures |BoundaryScan(line, j, q, cur, cols)| > |cols|
    decreases |line| - j
  {
    if j < |line| {
      if line[j] == '"' && (j == 0 || line[j - 1] == ',') {
        BoundaryScanCount(line, j + 1, true, cur, cols);
      } else if line[j] == '"' && q && (j == |line| - 1 || line[j + 1] == ',') {
        BoundaryScanCount(line, j + 1, false, cur, cols);
      } else if line[j] == ',' && !q {
        BoundaryScanCount(line, j + 1, q, [], cols + [cur]);
      } else {
        BoundaryScanCount(line, j + 1, q, cur + [line[j]], cols);
      }
    }
  }

  /**
   * A field the boundary splitter reads back: no quotes, no comma unless
   * quoted, and a quoted text that does not end in a comma (a `"` right
   * after a comma always opens).
   */
  predicate BoundarySafe(f: Field) {
    && '"' !in f.text
    && (f.Plain? ==> ',' !in f.text)
    && (f.Quoted? && |f.text| > 0 ==> f.text[|f.text| - 1] != ',')
  }

  lemma {:induction false} BoundaryScanRun(line: string, i: nat, k: nat, q: bool, cur: string, cols: seq<string>)
    requires i + k <= |line|
    requires '"' !in line[i..i + k] && (q || ',' !in line[i..i + k])
    ensures BoundaryScan(line, i, q, cur, cols) == BoundaryScan(line, i + k, q, cur + line[i..i + k], cols)
    decreases k
  {
    if k == 0 {
      assert cur + line[i..i] == cur;
    } else {
      assert line[i] == line[i..i + k][0];
      assert line[i + 1..i + k] == line[i..i + k][1..];
      BoundaryScanRun(line, i + 1, k - 1, q, cur + [line[i]], cols);
      assert cur + [line[i]] + line[i + 1..i + k] == cur + line[i..i + k];
    }
  }

  lemma BoundaryScanField(line: string, i: nat, f: Field, cols: seq<string>)
    requires BoundarySafe(f)
    requires i + |Encode(f)| <= |line| && line[i..i + |Encode(f)|] == Encode(f)
    requires i == 0 || line[i - 1] == ','
    requires i + |Encode(f)| == |line| || line[i + |Encode(f)|] == ','
    ensures BoundaryScan(line, i, false, [], cols) == BoundaryScan(line, i + |Encode(f)|, false, f.text, cols)
  {
    if f.Plain? {
      BoundaryPlainField(line, i, f.text, cols);
    } else {
      BoundaryQuotedField(line, i, f.text, cols);
    }
  }

  lemma BoundaryPlainField(line: string, i: nat, t: string, cols: seq<string>)
    requires '"' !in t && ',' !in t
    requires i + |t| <= |line| && line[i..i + |t|] == t
    ensures BoundaryScan(line, i, false, [], cols) == BoundaryScan(line, i + |t|, false, t, cols)
  {
    BoundaryScanRun(line, i, |t|, false, [], cols);
    assert [] + t == t;
  }

  lemma BoundaryQuotedField(line: string, i: nat, t: string, cols: seq<string>)
    requires '"' !in t && (|t| > 0 ==> t[|t| - 1] != ',')
    requires i + |t| + 2 <= |line| && line[i..i + |t| + 2] == ['"'] + t + ['"']
    requires i == 0 || line[i - 1] == ','
    requires i + |t| + 2 == |line| || line[i + |t| + 2] == ','
    ensures BoundaryScan(line, i, false, [], cols) == BoundaryScan(line, i + |t| + 2, false, t, cols)
  {
    QuotedSlices(line, i, t);
    QuotedFieldOpen(line, i, t, cols);
    QuotedFieldClose(line, i, t, cols);
  }

  /** The opening quote and the quoted text: the scan is inside quotes, holding the text. */
  lemma QuotedFieldOpen(line: string, i: nat, t: string, cols: seq<string>)
    requires '"' !in t
    requires i + |t| + 2 <= |line| && line[i] == '"' && line[i + 1..i + 1 + |t|] == t
    requires i == 0 || line[i - 1] == ','
    ensures BoundaryScan(line, i, false, [], cols) == BoundaryScan(line, i + 1 + |t|, true, t, cols)
  {
    var empty: string := [];
    BoundaryOpens(line, i, false, empty, cols);
    BoundaryScanRunOf(line, i + 1, t, empty, cols);
    assert empty + t == t;
  }

  /** A quote-free stretch inside an open quote is copied into the field. */
  lemma BoundaryScanRunOf(line: string, i: nat, t: string, cur: string, cols: seq<string>)
    requires '"' !in t && i + |t| <= |line| && line[i..i + |t|] == t
    ensures BoundaryScan(line, i, true, cur, cols) == BoundaryScan(line, i + |t|, true, cur + t, cols)
  {
    BoundaryScanRun(line, i, |t|, true, cur, cols);
  }

  /** A quote at the start of a field opens it, whatever the flag was. */
  lemma BoundaryOpens(line: string, i: nat, q: bool, cur: string, cols: seq<string>)
    requires i < |line| && line[i] == '"' && (i == 0 || line[i - 1] == ',')
    ensures BoundaryScan(line, i, q, cur, cols) == BoundaryScan(line, i + 1, true, cur, cols)
  {
  }

  /** The closing quote, not preceded by a comma and followed by one or the end, closes. */
  lemma QuotedFieldClose(line: string, i: nat, t: string, cols: seq<string>)
    requires |t| > 0 ==> t[|t| - 1] != ','
    requires i + |t| + 2 <= |line| && line[i] == '"' && line[i + 1..i + 1 + |t|] == t && line[i + 1 + |t|] == '"'
    requires i + |t| + 2 == |line| || line[i + |t| + 2] == ','
    ensures BoundaryScan(line, i + 1 + |t|, true, t, cols) == BoundaryScan(line, i + |t| + 2, false, t, cols)
  {
    var z := i + 1 + |t|;
    assert line[z - 1] != ',' by {
      if |t| > 0 {
        assert line[z - 1] == line[i + 1..z][|t| - 1];
      }
    }
  }

  lemma {:induction false} BoundaryScanFields(line: string, i: nat, fs: seq<Field>, acc: seq<string>)
    requires |fs| >= 1 && forall k :: 0 <= k < |fs| ==> BoundarySafe(fs[k])
    requires i <= |line| && line[i..] == WriteLine(fs)
    requires i == 0 || line[i - 1] == ','
    ensures BoundaryScan(line, i, false, [], acc) == acc + Texts(fs)
    decreases |fs|
  {
    TextsCons(fs);
    if |fs| == 1 {
      BoundaryScanLastField(line, i, fs, acc);
    } else {
      var e := Encode(fs[0]);
      BoundaryScanFirstField(line, i, fs, acc);
      assert forall k :: 0 <= k < |fs| - 1 ==> fs[1..][k] == fs[k + 1];
      BoundaryScanFields(line, i + |e| + 1, fs[1..], acc + [fs[0].text]);
      Seqs.Assoc(acc, [fs[0].text], Texts(fs[1..]));
    }
  }

  lemma BoundaryScanLastField(line: string, i: nat, fs: seq<Field>, acc: seq<string>)
    requires |fs| == 1 && BoundarySafe(fs[0])
    requires i <= |line| && line[i..] == WriteLine(fs)
    requires i == 0 || line[i - 1] == ','
    ensures BoundaryScan(line, i, false, [], acc) == acc + [fs[0].text]
  {
    var e := Encode(fs[0]);
    WriteLineSingle(fs);
    assert line[i..i + |e|] == e;
    assert i + |e| == |line|;
    BoundaryScanField(line, i, fs[0], acc);
  }

  lemma BoundaryScanFirstField(line: string, i: nat, fs: seq<Field>, acc: seq<string>)
    requires |fs| >= 2 && BoundarySafe(fs[0])
    requires i <= |line| && line[i..] == WriteLine(fs)
    requires i == 0 || line[i - 1] == ','
    ensures var n := i + |Encode(fs[0])| + 1;
            && n <= |line| && line[n - 1] == ',' && line[n..] == WriteLine(fs[1..])
            && BoundaryScan(line, i, false, [], acc) == BoundaryScan(line, n, false, [], acc + [fs[0].text])
  {
    var e := Encode(fs[0]);
    WriteLineCons(fs);
    SliceAround(line, i, e, WriteLine(fs[1..]));
    BoundaryScanField(line, i, fs[0], acc);
    assert BoundaryScan(line, i + |e|, false, fs[0].text, acc)
        == BoundaryScan(line, i + |e| + 1, false, [], acc + [fs[0].text]);
  }

  /** Commas inside a field quoted at its boundaries do not split it; every column is trimmed. */
  lemma BoundaryRoundTrip(fs: seq<Field>)
    requires |fs| >= 1 && forall k :: 0 <= k < |fs| ==> BoundarySafe(fs[k])
    ensures SplitBoundary(WriteLine(fs)) == TrimAll(Texts(fs))
  {
    var line := WriteLine(fs);
    assert line[0..] == line;
    BoundaryScanFields(line, 0, fs, []);
  }

  /**
   * The limit of the boundary rule: in `"a,",b` the closing quote follows a
   * comma, so it re-opens instead of closing, and the line is one column.
   */
  lemma BoundaryQuoteAfterComma()
    ensures SplitBoundary("\"a,\",b") == ["a,,b"]
  {
    var l := "\"a,\",b";
    assert BoundaryScan(l, 0, false, [], []) == ["a,,b"] by {
      assert "a,," + ['b'] == "a,,b" && "a," + [','] == "a,," && "a" + [','] == "a," && [] + ['a'] == "a";
      assert BoundaryScan(l, 6, true, "a,,b", []) == ["a,,b"];
      assert BoundaryScan(l, 5, true, "a,,", []) == ["a,,b"];
      assert BoundaryScan(l, 4, true, "a,", []) == ["a,,b"];
      assert BoundaryScan(l, 3, true, "a,", []) == ["a,,b"];
      assert BoundaryScan(l, 2, true, "a", []) == ["a,,b"];
      assert BoundaryScan(l, 1, true, "", []) == ["a,,b"];
    }
    TrimmedIsFixed("a,,b");
    assert TrimAll(["a,,b"]) == [Trim("a,,b")];
  }

  /** `parseCSV` of the timeline, from line `i` on: blank lines skipped, each line trimmed. */
  function ParseRowsFrom(lines: seq<string>, i: nat): seq<seq<string>>
    decreases |lines| - i
  {
    if i >= |lines| then []
    else
      var line := Trim(lines[i]);
      if |line| == 0 then ParseRowsFrom(lines, i + 1)
      else [SplitBoundary(line)] + ParseRowsFrom(lines, i + 1)
  }

  /** The timeline's `parseCSV`: the header line is skipped. */
  function ParseTimelineCsv(text: string): seq<seq<string>> {
    ParseRowsFrom(SplitOn(text, '\n'), 1)
  }

  predicate NonEmpty(s: string) { |s| > 0 }

  function SplitAll(lines: seq<string>): (r: seq<seq<string>>)
    ensures |r| == |lines|
    ensures forall k :: 0 <= k < |r| ==> r[k] == SplitBoundary(lines[k])
  {
    if |lines| == 0 then [] else [SplitBoundary(lines[0])] + SplitAll(lines[1..])
  }

  lemma {:induction false} ParseRowsFromSpec(lines: seq<string>, i: nat)
    requires i <= |lines|
    ensures ParseRowsFrom(lines, i) == SplitAll(Seqs.Filter(TrimAll(lines[i..]), NonEmpty))
    decreases |lines| - i
  {
    if i < |lines| {
      ParseRowsFromSpec(lines, i + 1);
      var v := Trim(lines[i]);
      var rest := Seqs.Filter(TrimAll(lines[i + 1..]), NonEmpty);
      FilterTrimmedStep(lines, i);
      if NonEmpty(v) {
        assert ([v] + rest)[1..] == rest;
      } else {
        assert [] + rest == rest;
      }
    } else {
      assert TrimAll(lines[i..]) == [];
    }
  }

  lemma FilterTrimmedStep(lines: seq<string>, i: nat)
    requires i < |lines|
    ensures Seqs.Filter(TrimAll(lines[i..]), NonEmpty)
         == (if NonEmpty(Trim(lines[i])) then [Trim(lines[i])] else []) + Seqs.Filter(TrimAll(lines[i + 1..]), NonEmpty)
  {
    assert lines[i..] == [lines[i]] + lines[i + 1..];
    TrimAllCons(lines[i], lines[i + 1..]);
    Seqs.FilterCons(Trim(lines[i]), TrimAll(lines[i + 1..]), NonEmpty);
  }

  lemma ParseTimelineCsvSpec(text: string)
    ensures ParseTimelineCsv(text) == SplitAll(Seqs.Filter(TrimAll(SplitOn(text, '\n')[1..]), NonEmpty))
  {
    ParseRowsFromSpec(SplitOn(text, '\n'), 1);
  }

  // ------------------------------------------------------------------
  // Naive splitter and table assembly
  // ------------------------------------------------------------------

  predicate NotBlank(line: string) { |Trim(line)| > 0 }

  /** `csvText.split('\n').filter(line => line.trim())`. */
  function NonBlankLines(text: string): (r: seq<string>)
    ensures forall k :: 0 <= k < |r| ==> NotBlank(r[k]) && '\n' !in r[k]
  {
    var lines := SplitOn(text, '\n');
    assert forall k :: 0 <= k < |lines| ==> '\n' !in lines[k];
    Seqs.Filter(lines, NotBlank)
  }

  /** `line.split(',').map(v => v.replace(/"/g, ''))`. */
  function NaiveSplit(line: string): (r: seq<string>)
    ensures |r| == 1 + Occurrences(line, ',')
    ensures forall k :: 0 <= k < |r| ==> ',' !in r[k] && '"' !in r[k]
  {
    var parts := SplitOn(line, ',');
    SplitOnCount(line, ',');
    var r := seq(|parts|, k requires 0 <= k < |parts| => RemoveQuotes(parts[k]));
    assert forall k :: 0 <= k < |r| ==> Seqs.IsSubseq(r[k], parts[k]);
    forall k | 0 <= k < |r| ensures ',' !in r[k] {
      Seqs.SubseqElements(r[k], parts[k]);
    }
    r
  }

  /** Quote-free, comma-free fields survive a naive join and split unchanged. */
  lemma NaiveRoundTrip(fs: seq<string>)
    requires |fs| >= 1
    requires forall k :: 0 <= k < |fs| ==> ',' !in fs[k] && '"' !in fs[k]
    ensures NaiveSplit(JoinWith(fs, ',')) == fs
  {
    SplitJoinRoundTrip(fs, ',');
    forall k | 0 <= k < |fs| ensures RemoveQuotes(fs[k]) == fs[k] {
      NoQuoteFilterIdentity(fs[k]);
    }
  }

  lemma {:induction false} NoQuoteFilterIdentity(s: string)
    requires '"' !in s
    ensures Seqs.Filter(s, NotQuote) == s
  {
    if |s| > 0 {
      NoQuoteFilterIdentity(s[..|s| - 1]);
      assert s == s[..|s| - 1] + [s[|s| - 1]];
    }
  }

  /**
   * `headers.forEach((h, i) => row[h] = values[i])`: a missing value stores
   * `undefined`, modelled as an absent key; a repeated header keeps its last
   * assignment.
   */
  function ZipRow(headers: seq<string>, values: seq<string>): map<string, string>
    decreases |headers|
  {
    if |headers| == 0 then map[]
    else
      var n := |headers| - 1;
      var m := ZipRow(headers[..n], values);
      if n < |values| then m[headers[n] := values[n]] else m - {headers[n]}
  }

  /** Only header names become keys. */
  lemma {:induction false} ZipRowKeys(headers: seq<string>, values: seq<string>)
    ensures forall h :: h in ZipRow(headers, values) ==> h in headers
    decreases |headers|
  {
    if |headers| > 0 {
      var n := |headers| - 1;
      ZipRowKeys(headers[..n], values);
      assert forall h :: h in headers[..n] ==> h in headers;
    }
  }

  /**
   * The column of the last occurrence of a header decides its entry: the
   * value at that position, or no entry when the line is too short.
   */
  lemma {:induction false} ZipRowLastWins(headers: seq<string>, values: seq<string>, i: nat)
    requires i < |headers|
    requires forall j :: i < j < |headers| ==> headers[j] != headers[i]
    ensures headers[i] in ZipRow(headers, values) <==> i < |values|
    ensures i < |values| ==> ZipRow(headers, values)[headers[i]] == values[i]
    decreases |headers|
  {
    var n := |headers| - 1;
    if i < n {
      assert headers[..n][i] == headers[i];
      ZipRowLastWins(headers[..n], values, i);
    }
  }
}
