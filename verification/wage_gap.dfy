/**
 * The salary-gap bubble plot: a CSV of monthly salaries by sex is parsed
 * with the toggle splitter, filtered to ten countries in U.S. dollars,
 * grouped as `grouped[country][year][sex] = salary`, and every country-year
 * holding both a male and a female salary becomes one bubble carrying the
 * gap `(male - female) / male * 100` to one decimal.
 */
module WageGap {
  import opened Wrappers
  import Seqs
  import opened Sorting
  import opened JsObject
  import opened Records
  import Csv
  import Summary

  const COUNTRY: string := "ref_area.label"
  const CURRENCY: string := "classif1.label"
  const SEX: string := "sex.label"
  const VALUE: string := "obs_value"
  const TIME: string := "time"
  const USD: string := "Currency: U.S. dollars"
  const MALE: string := "Male"
  const FEMALE: string := "Female"

  /** The year the plot opens on. */
  const DEFAULT_YEAR: int := 2024

  // ------------------------------------------------------------------
  // Parsing and the row filter
  // ------------------------------------------------------------------

  /**
   * Split into non-blank lines, take the first as the header and zip every
   * other line with it. With no line at all, `lines[0]` is `undefined` and
   * the splitter throws: the load fails.
   */
  function ParseTable(text: string): (r: Option<seq<RawRow>>)
    ensures r.None? <==> |Csv.NonBlankLines(text)| == 0
    ensures r.Some? ==> |r.value| == |Csv.NonBlankLines(text)| - 1
  {
    var lines := Csv.NonBlankLines(text);
    if |lines| == 0 then None
    else Some(ZipLines(Csv.ParseLineToggle(lines[0]), lines[1..]))
  }

  /** Each line of the body as an object keyed by the header names. */
  function ZipLines(headers: seq<string>, body: seq<string>): (rows: seq<RawRow>)
    ensures |rows| == |body|
    ensures forall k, h :: 0 <= k < |rows| && h in rows[k] ==> h in headers
  {
    if |body| == 0 then []
    else
      var row := Csv.ZipRow(headers, Csv.ParseLineToggle(body[0]));
      Csv.ZipRowKeys(headers, Csv.ParseLineToggle(body[0]));
      [row] + ZipLines(headers, body[1..])
  }

  /**
   * The row filter: an allowed country, the U.S.-dollar currency label, a
   * male or female row, and a non-empty value that parses as a number.
   */
  predicate Usable(row: RawRow, parseFloat: string -> Option<real>) {
    && Cell(row, COUNTRY).Some? && Cell(row, COUNTRY).value in BubbleCountries()
    && Cell(row, CURRENCY) == Some(USD)
    && (Cell(row, SEX) == Some(MALE) || Cell(row, SEX) == Some(FEMALE))
    && Truthy(Cell(row, VALUE))
    && parseFloat(Cell(row, VALUE).value).Some?
  }

  /** A usable row, reduced to what the grouping reads. */
  datatype SalaryRec = SalaryRec(country: string, year: int, sex: string, salary: real)

  /** `parseInt(row.time)`; a missing cell reads as `undefined` and does not parse. */
  function Year(row: RawRow, parseInt: string -> Option<int>): Option<int> {
    match Cell(row, TIME)
    case None => None
    case Some(t) => parseInt(t)
  }

  /** A row as the record the grouping reads, when it is usable and its year parses. */
  function SalaryRecOf(row: RawRow, parseInt: string -> Option<int>,
                       parseFloat: string -> Option<real>): (r: Option<SalaryRec>)
    ensures r.Some? <==> Usable(row, parseFloat) && Year(row, parseInt).Some?
    ensures r.Some? ==> && Cell(row, COUNTRY) == Some(r.value.country) && r.value.country in BubbleCountries()
                        && Cell(row, SEX) == Some(r.value.sex) && (r.value.sex == MALE || r.value.sex == FEMALE)
                        && Year(row, parseInt) == Some(r.value.year)
                        && parseFloat(row[VALUE]) == Some(r.value.salary)
  {
    if Usable(row, parseFloat) && Year(row, parseInt).Some? then
      Some(SalaryRec(row[COUNTRY], Year(row, parseInt).value, row[SEX], parseFloat(row[VALUE]).value))
    else None
  }

  /** Each row's outcome under the filter, row by row. */
  function SalaryCandidates(rows: seq<RawRow>, parseInt: string -> Option<int>,
                            parseFloat: string -> Option<real>): (r: seq<Option<SalaryRec>>)
    ensures |r| == |rows| && forall k :: 0 <= k < |rows| ==> r[k] == SalaryRecOf(rows[k], parseInt, parseFloat)
  {
    seq(|rows|, k requires 0 <= k < |rows| => SalaryRecOf(rows[k], parseInt, parseFloat))
  }

  /** The usable rows with a parsable year, in file order, and nothing else. */
  function SalaryRecords(rows: seq<RawRow>, parseInt: string -> Option<int>,
                         parseFloat: string -> Option<real>): (r: seq<SalaryRec>)
    ensures |r| <= |rows|
    ensures forall k :: 0 <= k < |rows| && SalaryRecOf(rows[k], parseInt, parseFloat).Some? ==>
              SalaryRecOf(rows[k], parseInt, parseFloat).value in r
    ensures forall k :: 0 <= k < |r| ==> Some(r[k]) in SalaryCandidates(rows, parseInt, parseFloat)
    ensures Seqs.DefinedInOrder(r, SalaryCandidates(rows, parseInt, parseFloat))
    ensures forall k :: 0 <= k < |r| ==> r[k].country in BubbleCountries()
    ensures forall k :: 0 <= k < |r| ==> r[k].sex == MALE || r[k].sex == FEMALE
  {
    var f := (row: RawRow) => SalaryRecOf(row, parseInt, parseFloat);
    var r := Seqs.FilterMap(rows, f);
    Seqs.FilterMapInOrder(rows, f);
    assert Seqs.Images(rows, f) == SalaryCandidates(rows, parseInt, parseFloat);
    Seqs.DefinedInOrderSound(r, Seqs.Images(rows, f));
    forall k | 0 <= k < |r| ensures r[k].country in BubbleCountries() && (r[k].sex == MALE || r[k].sex == FEMALE) {
      var j :| 0 <= j < |rows| && f(rows[j]) == Some(r[k]);
    }
    r
  }

  /** A row failing the filter contributes nothing. */
  lemma UnusableRowDropped(rows: seq<RawRow>, row: RawRow, parseInt: string -> Option<int>,
                           parseFloat: string -> Option<real>)
    requires !Usable(row, parseFloat)
    ensures SalaryRecords(rows + [row], parseInt, parseFloat) == SalaryRecords(rows, parseInt, parseFloat)
  {
    assert (rows + [row])[..|rows|] == rows;
  }

  // ------------------------------------------------------------------
  // Grouping
  // ------------------------------------------------------------------

  /** `grouped[country][year][sex]`. */
  type Grouped = map<string, map<int, map<string, real>>>

  /** `grouped[c]?.[y]?.[s]`. */
  function Lookup(g: Grouped, c: string, y: int, s: string): Option<real> {
    if c in g && y in g[c] && s in g[c][y] then Some(g[c][y][s]) else None
  }

  /** The `forEach` that fills `grouped`, one record at a time. */
  function Group(recs: seq<SalaryRec>): Grouped {
    if |recs| == 0 then map[]
    else
      var g := Group(recs[..|recs| - 1]);
      var r := recs[|recs| - 1];
      var byYear := if r.country in g then g[r.country] else map[];
      var bySex := if r.year in byYear then byYear[r.year] else map[];
      g[r.country := byYear[r.year := bySex[r.sex := r.salary]]]
  }

  predicate Matches(r: SalaryRec, c: string, y: int, s: string) {
    r.country == c && r.year == y && r.sex == s
  }

  /** Some record is for country `c` in year `y`. */
  predicate HasRecord(recs: seq<SalaryRec>, c: string, y: int) {
    exists k :: 0 <= k < |recs| && recs[k].country == c && recs[k].year == y
  }

  /** Reference reading of "last one wins": the salary of the last matching record. */
  function LastSalary(recs: seq<SalaryRec>, c: string, y: int, s: string): (r: Option<real>)
    ensures r.None? <==> forall k :: 0 <= k < |recs| ==> !Matches(recs[k], c, y, s)
    ensures r.Some? ==> HasRecord(recs, c, y)
  {
    if |recs| == 0 then None
    else
      var n := |recs| - 1;
      assert forall k :: 0 <= k < n ==> recs[..n][k] == recs[k];
      if Matches(recs[n], c, y, s) then Some(recs[n].salary)
      else LastSalary(recs[..n], c, y, s)
  }

  /** `recs[k]` matches and no later record does. */
  predicate LastMatchAt(recs: seq<SalaryRec>, c: string, y: int, s: string, k: int) {
    && 0 <= k < |recs| && Matches(recs[k], c, y, s)
    && forall j :: k < j < |recs| ==> !Matches(recs[j], c, y, s)
  }

  /** `LastSalary` names the last matching record, and no later record matches. */
  lemma {:induction false} LastSalaryIsLast(recs: seq<SalaryRec>, c: string, y: int, s: string)
    requires LastSalary(recs, c, y, s).Some?
    ensures exists k :: LastMatchAt(recs, c, y, s, k) && recs[k].salary == LastSalary(recs, c, y, s).value
  {
    var n := |recs| - 1;
    if Matches(recs[n], c, y, s) {
      assert LastMatchAt(recs, c, y, s, n);
    } else {
      var front := recs[..n];
      assert LastSalary(recs, c, y, s) == LastSalary(front, c, y, s);
      LastSalaryIsLast(front, c, y, s);
      var k :| LastMatchAt(front, c, y, s, k) && front[k].salary == LastSalary(front, c, y, s).value;
      assert front[k] == recs[k];
      forall j | k < j < |recs| ensures !Matches(recs[j], c, y, s) {
        if j < n {
          assert front[j] == recs[j];
        }
      }
      assert LastMatchAt(recs, c, y, s, k);
    }
  }

  /** The nested object holds, for every key triple, the salary of the last record with it. */
  lemma {:induction false} GroupIsLastSalary(recs: seq<SalaryRec>, c: string, y: int, s: string)
    ensures Lookup(Group(recs), c, y, s) == LastSalary(recs, c, y, s)
  {
    if |recs| > 0 {
      GroupIsLastSalary(recs[..|recs| - 1], c, y, s);
    }
  }

  // ------------------------------------------------------------------
  // Key order and bubbles
  // ------------------------------------------------------------------

  function CountriesOf(recs: seq<SalaryRec>): (r: seq<string>)
    ensures |r| == |recs| && forall k :: 0 <= k < |r| ==> r[k] == recs[k].country
  {
    seq(|recs|, k requires 0 <= k < |recs| => recs[k].country)
  }

  /** The years of country `c`'s records, in file order. */
  function YearsOf(recs: seq<SalaryRec>, c: string): (r: seq<int>)
    ensures forall y :: y in r <==> HasRecord(recs, c, y)
  {
    if |recs| == 0 then []
    else
      var n := |recs| - 1;
      assert forall k :: 0 <= k < n ==> recs[..n][k] == recs[k];
      YearsOf(recs[..n], c) + (if recs[n].country == c then [recs[n].year] else [])
  }

  /** `Object.keys(grouped)`: the countries in the order the object lists them. */
  function CountryOrder(recs: seq<SalaryRec>): (r: seq<string>)
    ensures Seqs.Distinct(r)
    ensures forall c :: c in r <==> c in CountriesOf(recs)
  {
    StringKeys(CountriesOf(recs))
  }

  /** `Object.keys(grouped[c])`, read back as numbers. */
  function YearOrder(recs: seq<SalaryRec>, c: string): (r: seq<int>)
    ensures Seqs.Distinct(r)
    ensures forall y :: y in r <==> HasRecord(recs, c, y)
  {
    IntKeys(YearsOf(recs, c))
  }

  /**
   * The allowed countries are not array-index-like, so the country listing is
   * plain first-appearance order.
   */
  lemma CountryOrderIsFirstSeen(recs: seq<SalaryRec>)
    requires forall k :: 0 <= k < |recs| ==> recs[k].country in BubbleCountries()
    ensures CountryOrder(recs) == Seqs.Dedup(CountriesOf(recs))
  {
    var cs := CountriesOf(recs);
    forall k | 0 <= k < |cs| ensures !IsIndexKey(cs[k]) {
      assert cs[k] in BubbleCountries();
      NonDigitKeyIsNotIndex(cs[k]);
    }
    StringKeysInsertionOrder(cs);
  }

  /** With non-negative years below 2^32 - 1, a country's years are listed ascending. */
  lemma YearOrderAscending(recs: seq<SalaryRec>, c: string)
    requires forall k :: 0 <= k < |recs| ==> IsIndex(recs[k].year)
    ensures StrictlySorted(YearOrder(recs, c), IntAsc)
  {
    var ys := YearsOf(recs, c);
    forall k | 0 <= k < |ys| ensures IsIndex(ys[k]) {
      assert HasRecord(recs, c, ys[k]);
    }
    IntKeysAscending(ys);
  }

  lemma FloorBounds(w: real)
    ensures (w.Floor as real) <= w < (w.Floor as real) + 1.0
  {
  }

  /** Rounding half away from zero to one decimal, as `toFixed(1)` does on exact values. */
  function Round1(x: real): (r: real)
    ensures -0.05 <= r - x <= 0.05
    ensures x >= 0.0 ==> r >= 0.0
    ensures x <= 0.0 ==> r <= 0.0
    ensures ((r * 10.0).Floor as real) == r * 10.0
  {
    var a := if x >= 0.0 then x else -x;
    FloorBounds(a * 10.0 + 0.5);
    var n := (a * 10.0 + 0.5).Floor;
    var m := if x >= 0.0 then n else -n;
    assert (m as real).Floor == m;
    assert (m as real) / 10.0 * 10.0 == m as real;
    (m as real) / 10.0
  }

  /** The gap percentage; a zero male salary yields an infinity or NaN. */
  function Gap(male: real, female: real): (r: Summary.Ratio)
    ensures male != 0.0 ==> r.Finite? && -0.05 <= r.x - (male - female) / male * 100.0 <= 0.05
    ensures male > 0.0 && female <= male ==> r.Finite? && r.x >= 0.0
    ensures male > 0.0 && female >= male ==> r.Finite? && r.x <= 0.0
    ensures male == 0.0 ==> !r.Finite?
  {
    match Summary.Divide(male - female, male)
    case Finite(q) =>
      GapSign(male, female, q);
      Summary.Finite(Round1(q * 100.0))
    case other => other
  }

  lemma GapSign(male: real, female: real, q: real)
    requires male > 0.0 || male < 0.0
    requires q == (male - female) / male
    ensures male > 0.0 && female <= male ==> q >= 0.0
    ensures male > 0.0 && female >= male ==> q <= 0.0
  {
    assert q * male == male - female;
  }

  /** One point of the plot. */
  datatype Bubble = Bubble(country: string, year: int, male: real, female: real, gap: Summary.Ratio)

  /** Both sexes are filled in for `c` and `y`. */
  predicate BothIn(g: Grouped, c: string, y: int) {
    Lookup(g, c, y, MALE).Some? && Lookup(g, c, y, FEMALE).Some?
  }

  /** A bubble whose salaries are the grouped ones and whose gap is computed from them. */
  predicate FromGroup(g: Grouped, b: Bubble) {
    && Lookup(g, b.country, b.year, MALE) == Some(b.male)
    && Lookup(g, b.country, b.year, FEMALE) == Some(b.female)
    && b.gap == Gap(b.male, b.female)
  }

  predicate HasBubble(bs: seq<Bubble>, c: string, y: int) {
    exists k :: 0 <= k < |bs| && bs[k].country == c && bs[k].year == y
  }

  /** No two bubbles share a country and a year. */
  predicate PairsUnique(bs: seq<Bubble>) {
    forall i, j :: 0 <= i < j < |bs| ==> bs[i].country != bs[j].country || bs[i].year != bs[j].year
  }

  lemma HasBubbleAppend(a: seq<Bubble>, b: seq<Bubble>)
    ensures forall c, y :: HasBubble(a + b, c, y) <==> HasBubble(a, c, y) || HasBubble(b, c, y)
  {
    forall c, y ensures HasBubble(a + b, c, y) <==> HasBubble(a, c, y) || HasBubble(b, c, y) {
      if HasBubble(a, c, y) {
        var k :| 0 <= k < |a| && a[k].country == c && a[k].year == y;
        assert (a + b)[k] == a[k];
      }
      if HasBubble(b, c, y) {
        var k :| 0 <= k < |b| && b[k].country == c && b[k].year == y;
        assert (a + b)[|a| + k] == b[k];
      }
      if HasBubble(a + b, c, y) {
        var k :| 0 <= k < |a + b| && (a + b)[k].country == c && (a + b)[k].year == y;
        if k >= |a| {
          assert b[k - |a|] == (a + b)[k];
        } else {
          assert a[k] == (a + b)[k];
        }
      }
    }
  }

  /** The bubbles of one country, one per listed year that has both sexes. */
  function YearBubbles(g: Grouped, c: string, ys: seq<int>): (r: seq<Bubble>)
    ensures forall k :: 0 <= k < |r| ==> r[k].country == c && r[k].year in ys && FromGroup(g, r[k])
    ensures forall k :: 0 <= k < |ys| && BothIn(g, c, ys[k]) ==> HasBubble(r, c, ys[k])
    ensures Seqs.Distinct(ys) ==> PairsUnique(r)
  {
    if |ys| == 0 then []
    else
      var y := ys[0];
      var rest := YearBubbles(g, c, ys[1..]);
      var head := if BothIn(g, c, y) then
                    var m := Lookup(g, c, y, MALE).value;
                    var f := Lookup(g, c, y, FEMALE).value;
                    [Bubble(c, y, m, f, Gap(m, f))]
                  else [];
      assert HeadBubble(g, c, y, head);
      YearStepMembers(g, c, ys, head, rest);
      YearStepCoverage(g, c, ys, head, rest);
      YearStepUnique(g, c, ys, head, rest);
      head + rest
  }

  /** At most one bubble, for `c` in `y`, from the grouped salaries, present when both sexes are. */
  predicate HeadBubble(g: Grouped, c: string, y: int, head: seq<Bubble>) {
    && |head| <= 1
    && (forall k :: 0 <= k < |head| ==> head[k].country == c && head[k].year == y && FromGroup(g, head[k]))
    && (BothIn(g, c, y) ==> |head| == 1)
  }

  lemma YearStepMembers(g: Grouped, c: string, ys: seq<int>, head: seq<Bubble>, rest: seq<Bubble>)
    requires |ys| > 0 && HeadBubble(g, c, ys[0], head)
    requires forall k :: 0 <= k < |rest| ==> rest[k].country == c && rest[k].year in ys[1..] && FromGroup(g, rest[k])
    ensures forall k :: 0 <= k < |head + rest| ==>
              (head + rest)[k].country == c && (head + rest)[k].year in ys && FromGroup(g, (head + rest)[k])
  {
    forall k | 0 <= k < |head + rest|
      ensures (head + rest)[k].country == c && (head + rest)[k].year in ys && FromGroup(g, (head + rest)[k])
    {
      if k >= |head| {
        assert (head + rest)[k] == rest[k - |head|];
        var i :| 0 <= i < |ys[1..]| && ys[1..][i] == rest[k - |head|].year;
        assert ys[i + 1] == ys[1..][i];
      }
    }
  }

  lemma YearStepCoverage(g: Grouped, c: string, ys: seq<int>, head: seq<Bubble>, rest: seq<Bubble>)
    requires |ys| > 0 && HeadBubble(g, c, ys[0], head)
    requires forall k :: 0 <= k < |ys[1..]| && BothIn(g, c, ys[1..][k]) ==> HasBubble(rest, c, ys[1..][k])
    ensures forall k :: 0 <= k < |ys| && BothIn(g, c, ys[k]) ==> HasBubble(head + rest, c, ys[k])
  {
    HasBubbleAppend(head, rest);
    forall k | 0 <= k < |ys| && BothIn(g, c, ys[k]) ensures HasBubble(head + rest, c, ys[k]) {
      if k == 0 {
        assert head[0].country == c && head[0].year == ys[0];
        assert HasBubble(head, c, ys[k]);
      } else {
        assert ys[k] == ys[1..][k - 1];
      }
    }
  }

  lemma YearStepUnique(g: Grouped, c: string, ys: seq<int>, head: seq<Bubble>, rest: seq<Bubble>)
    requires |ys| > 0 && HeadBubble(g, c, ys[0], head)
    requires forall k :: 0 <= k < |rest| ==> rest[k].year in ys[1..]
    requires Seqs.Distinct(ys[1..]) ==> PairsUnique(rest)
    ensures Seqs.Distinct(ys) ==> PairsUnique(head + rest)
  {
    if Seqs.Distinct(ys) {
      assert Seqs.Distinct(ys[1..]) by {
        assert forall i :: 0 <= i < |ys| - 1 ==> ys[1..][i] == ys[i + 1];
      }
      assert ys[0] !in ys[1..] by {
        assert forall i :: 0 <= i < |ys| - 1 ==> ys[1..][i] == ys[i + 1];
      }
      var all := head + rest;
      forall i, j | 0 <= i < j < |all| ensures all[i].country != all[j].country || all[i].year != all[j].year {
        if i < |head| {
          assert all[j] == rest[j - |head|];
          assert all[j].year in ys[1..];
        } else {
          assert all[i] == rest[i - |head|] && all[j] == rest[j - |head|];
        }
      }
    }
  }

  /** The bubbles of the listed countries, country by country. */
  function CountryBubbles(recs: seq<SalaryRec>, g: Grouped, cs: seq<string>): (r: seq<Bubble>)
    ensures forall k :: 0 <= k < |r| ==> r[k].country in cs && FromGroup(g, r[k])
    ensures forall i, y :: 0 <= i < |cs| && HasRecord(recs, cs[i], y) && BothIn(g, cs[i], y) ==>
              HasBubble(r, cs[i], y)
    ensures Seqs.Distinct(cs) ==> PairsUnique(r)
  {
    if |cs| == 0 then []
    else
      var c := cs[0];
      var ys := YearOrder(recs, c);
      var head := YearBubbles(g, c, ys);
      var rest := CountryBubbles(recs, g, cs[1..]);
      StepMembers(g, cs, head, rest);
      StepCoverage(recs, g, cs, head, rest);
      StepUnique(g, cs, head, rest);
      head + rest
  }

  /** A first country's bubbles followed by the rest come from the listed countries and the grouping. */
  lemma StepMembers(g: Grouped, cs: seq<string>, head: seq<Bubble>, rest: seq<Bubble>)
    requires |cs| > 0 && forall k :: 0 <= k < |head| ==> head[k].country == cs[0] && FromGroup(g, head[k])
    requires forall k :: 0 <= k < |rest| ==> rest[k].country in cs[1..] && FromGroup(g, rest[k])
    ensures forall k :: 0 <= k < |head + rest| ==> (head + rest)[k].country in cs && FromGroup(g, (head + rest)[k])
  {
    forall k | 0 <= k < |head + rest|
      ensures (head + rest)[k].country in cs && FromGroup(g, (head + rest)[k])
    {
      if k >= |head| {
        assert (head + rest)[k] == rest[k - |head|];
      }
    }
  }

  /** A first country's bubbles followed by the rest cover every listed country-year with both sexes. */
  lemma StepCoverage(recs: seq<SalaryRec>, g: Grouped, cs: seq<string>, head: seq<Bubble>, rest: seq<Bubble>)
    requires |cs| > 0 && head == YearBubbles(g, cs[0], YearOrder(recs, cs[0]))
    requires forall i, y :: 0 <= i < |cs[1..]| && HasRecord(recs, cs[1..][i], y) && BothIn(g, cs[1..][i], y) ==>
               HasBubble(rest, cs[1..][i], y)
    ensures forall i, y :: 0 <= i < |cs| && HasRecord(recs, cs[i], y) && BothIn(g, cs[i], y) ==>
              HasBubble(head + rest, cs[i], y)
  {
    var ys := YearOrder(recs, cs[0]);
    HasBubbleAppend(head, rest);
    forall i, y | 0 <= i < |cs| && HasRecord(recs, cs[i], y) && BothIn(g, cs[i], y)
      ensures HasBubble(head + rest, cs[i], y)
    {
      if i == 0 {
        var k :| 0 <= k < |ys| && ys[k] == y;
      } else {
        assert cs[i] == cs[1..][i - 1];
      }
    }
  }

  /** With distinct countries, the first country's bubbles and the rest never share a country-year. */
  lemma StepUnique(g: Grouped, cs: seq<string>, head: seq<Bubble>, rest: seq<Bubble>)
    requires |cs| > 0 && forall k :: 0 <= k < |head| ==> head[k].country == cs[0]
    requires Seqs.Distinct(cs) ==> PairsUnique(head)
    requires forall k :: 0 <= k < |rest| ==> rest[k].country in cs[1..]
    requires Seqs.Distinct(cs[1..]) ==> PairsUnique(rest)
    ensures Seqs.Distinct(cs) ==> PairsUnique(head + rest)
  {
    if Seqs.Distinct(cs) {
      assert cs[0] !in cs[1..];
      assert Seqs.Distinct(cs[1..]);
      forall i, j | 0 <= i < j < |head + rest|
        ensures (head + rest)[i].country != (head + rest)[j].country || (head + rest)[i].year != (head + rest)[j].year
      {
        if j < |head| {
          assert (head + rest)[i] == head[i] && (head + rest)[j] == head[j];
        } else if i >= |head| {
          assert (head + rest)[i] == rest[i - |head|] && (head + rest)[j] == rest[j - |head|];
        } else {
          assert (head + rest)[i] == head[i] && (head + rest)[j] == rest[j - |head|];
        }
      }
    }
  }

  /** Country `c` has both a male and a female salary for year `y`. */
  predicate HasBoth(recs: seq<SalaryRec>, c: string, y: int) {
    LastSalary(recs, c, y, MALE).Some? && LastSalary(recs, c, y, FEMALE).Some?
  }

  /** A bubble holding the last male and female salaries of its country-year. */
  predicate FromRecords(recs: seq<SalaryRec>, b: Bubble) {
    && LastSalary(recs, b.country, b.year, MALE) == Some(b.male)
    && LastSalary(recs, b.country, b.year, FEMALE) == Some(b.female)
    && b.gap == Gap(b.male, b.female)
  }

  /**
   * The bubble list: a bubble exists for a country-year exactly when both
   * sexes are present, it carries the last salary read for each, and no
   * country-year appears twice.
   */
  function Bubbles(recs: seq<SalaryRec>): (r: seq<Bubble>)
    ensures forall k :: 0 <= k < |r| ==> FromRecords(recs, r[k])
    ensures forall c, y :: HasBoth(recs, c, y) ==> HasBubble(r, c, y)
    ensures PairsUnique(r)
  {
    var r := CountryBubbles(recs, Group(recs), CountryOrder(recs));
    BubblesFacts(recs, r);
    r
  }

  lemma BubblesFacts(recs: seq<SalaryRec>, r: seq<Bubble>)
    requires r == CountryBubbles(recs, Group(recs), CountryOrder(recs))
    ensures forall k :: 0 <= k < |r| ==> FromRecords(recs, r[k])
    ensures forall c, y :: HasBoth(recs, c, y) ==> HasBubble(r, c, y)
  {
    var g := Group(recs);
    var cs := CountryOrder(recs);
    forall k | 0 <= k < |r| ensures FromRecords(recs, r[k]) {
      GroupIsLastSalary(recs, r[k].country, r[k].year, MALE);
      GroupIsLastSalary(recs, r[k].country, r[k].year, FEMALE);
    }
    forall c, y | HasBoth(recs, c, y) ensures HasBubble(r, c, y) {
      GroupIsLastSalary(recs, c, y, MALE);
      GroupIsLastSalary(recs, c, y, FEMALE);
      var k :| 0 <= k < |recs| && recs[k].country == c && recs[k].year == y;
      assert CountriesOf(recs)[k] == c;
      var i :| 0 <= i < |cs| && cs[i] == c;
    }
  }

  /** The whole load: parse, filter, group and emit; `None` when the load fails. */
  function LoadBubbles(text: string, parseInt: string -> Option<int>,
                       parseFloat: string -> Option<real>): (r: Option<seq<Bubble>>)
    ensures r.None? <==> |Csv.NonBlankLines(text)| == 0
    ensures r.Some? ==> forall k :: 0 <= k < |r.value| ==> r.value[k].country in BubbleCountries()
    ensures r.Some? ==>
              var recs := SalaryRecords(ParseTable(text).value, parseInt, parseFloat);
              && (forall k :: 0 <= k < |r.value| ==> FromRecords(recs, r.value[k]))
              && (forall c, y :: HasBoth(recs, c, y) ==> HasBubble(r.value, c, y))
              && PairsUnique(r.value)
  {
    match ParseTable(text)
    case None => None
    case Some(rows) =>
      var recs := SalaryRecords(rows, parseInt, parseFloat);
      var bs := Bubbles(recs);
      AllowedCountries(recs, bs);
      Some(bs)
  }

  lemma AllowedCountries(recs: seq<SalaryRec>, bs: seq<Bubble>)
    requires forall k :: 0 <= k < |recs| ==> recs[k].country in BubbleCountries()
    requires forall k :: 0 <= k < |bs| ==> FromRecords(recs, bs[k])
    ensures forall k :: 0 <= k < |bs| ==> bs[k].country in BubbleCountries()
  {
    forall k | 0 <= k < |bs| ensures bs[k].country in BubbleCountries() {
      assert HasRecord(recs, bs[k].country, bs[k].year);
    }
  }

  // ------------------------------------------------------------------
  // Views over the bubbles
  // ------------------------------------------------------------------

  predicate HasBubbleYear(bs: seq<Bubble>, y: int) {
    exists k :: 0 <= k < |bs| && bs[k].year == y
  }

  function BubbleYears(bs: seq<Bubble>): (r: seq<int>)
    ensures forall y :: y in r <==> HasBubbleYear(bs, y)
  {
    var r := seq(|bs|, k requires 0 <= k < |bs| => bs[k].year);
    assert forall k :: 0 <= k < |bs| ==> r[k] == bs[k].year;
    r
  }

  /** The distinct years of the bubbles, newest first. */
  function AvailableYears(bs: seq<Bubble>): (r: seq<int>)
    ensures forall i, j :: 0 <= i < j < |r| ==> r[i] > r[j]
    ensures forall y :: y in r <==> HasBubbleYear(bs, y)
  {
    DescendingSet(BubbleYears(bs))
  }

  /** The bubbles of the selected year, in list order. */
  function CurrentYearData(bs: seq<Bubble>, year: int): (r: seq<Bubble>)
    ensures Seqs.IsSubseq(r, bs)
    ensures forall k :: 0 <= k < |r| ==> r[k].year == year
    ensures forall k :: 0 <= k < |bs| && bs[k].year == year ==> bs[k] in r
  {
    Seqs.FilterIsSubseq(bs, (b: Bubble) => b.year == year);
    Seqs.Filter(bs, (b: Bubble) => b.year == year)
  }

  /** The value axis of the plot. */
  datatype Domain = Domain(lo: real, hi: real)

  /** Every male and female salary of the bubbles, in list order. */
  function Salaries(bs: seq<Bubble>): (r: seq<real>)
    ensures |r| == 2 * |bs|
    ensures forall k :: 0 <= k < |bs| ==> r[2 * k] == bs[k].male && r[2 * k + 1] == bs[k].female
  {
    if |bs| == 0 then []
    else
      var rest := Salaries(bs[1..]);
      assert forall k :: 1 <= k < |bs| ==> bs[k] == bs[1..][k - 1];
      [bs[0].male, bs[0].female] + rest
  }

  /** `Math.min(...xs)` on a non-empty list. */
  function MinOf(xs: seq<real>): (r: real)
    requires |xs| > 0
    ensures r in xs && forall k :: 0 <= k < |xs| ==> r <= xs[k]
  {
    if |xs| == 1 then xs[0]
    else
      var m := MinOf(xs[1..]);
      assert forall k :: 1 <= k < |xs| ==> xs[k] == xs[1..][k - 1];
      if xs[0] <= m then xs[0] else m
  }

  /** `Math.max(...xs)` on a non-empty list. */
  function MaxOf(xs: seq<real>): (r: real)
    requires |xs| > 0
    ensures r in xs && forall k :: 0 <= k < |xs| ==> xs[k] <= r
  {
    if |xs| == 1 then xs[0]
    else
      var m := MaxOf(xs[1..]);
      assert forall k :: 1 <= k < |xs| ==> xs[k] == xs[1..][k - 1];
      if xs[0] >= m then xs[0] else m
  }

  /**
   * The axis range: a fixed [0, 1000] with nothing to show, otherwise the
   * salary range widened by a tenth of its width on each side, never below 0.
   */
  function ChartDomain(current: seq<Bubble>): (d: Domain)
    ensures |current| == 0 ==> d == Domain(0.0, 1000.0)
    ensures d.lo >= 0.0
    ensures forall k :: 0 <= k < |current| ==> current[k].male <= d.hi && current[k].female <= d.hi
    ensures forall k :: 0 <= k < |current| && current[k].male >= 0.0 ==> d.lo <= current[k].male
    ensures forall k :: 0 <= k < |current| && current[k].female >= 0.0 ==> d.lo <= current[k].female
    ensures |current| > 0 && d.lo > 0.0 ==>
              d.lo == MinOf(Salaries(current)) - (d.hi - MaxOf(Salaries(current)))
    ensures (forall k :: 0 <= k < |current| ==> current[k].male >= 0.0) ==> d.lo <= d.hi
    ensures |current| > 0 ==>
              var lo := MinOf(Salaries(current));
              var hi := MaxOf(Salaries(current));
              var pad := (hi - lo) * 0.1;
              d.hi == hi + pad && d.lo == (if lo - pad > 0.0 then lo - pad else 0.0)
  {
    if |current| == 0 then Domain(0.0, 1000.0)
    else
      var all := Salaries(current);
      var lo := MinOf(all);
      var hi := MaxOf(all);
      var pad := (hi - lo) * 0.1;
      assert current[0].male == all[0];
      Domain(if lo - pad > 0.0 then lo - pad else 0.0, hi + pad)
  }
}
