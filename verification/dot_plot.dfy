/**
 * The labour-participation dot plot: the post-processing of its parsed
 * rows (ten-year age bands only, the age token pulled out of the label,
 * men and women only), the country/year filter, the year and country
 * lists, the age groups ordered by their lower bound, and the dot size.
 */
module DotPlot {
  import opened Wrappers
  import Seqs
  import opened Sorting
  import opened Strings
  import opened Records

  const AGE_PREFIX := "Age (10-year bands):"

  // ------------------------------------------------------------------
  // The age token `/(\d{2}-\d{2}|\d{2}\+)/`
  // ------------------------------------------------------------------

  predicate Digit(c: char) { '0' <= c <= '9' }

  /** Two digits, a hyphen and two digits start at `i`. */
  predicate RangeAt(s: string, i: int) {
    0 <= i && i + 5 <= |s| && Digit(s[i]) && Digit(s[i + 1]) && s[i + 2] == '-' && Digit(s[i + 3]) && Digit(s[i + 4])
  }

  /** Two digits and a plus sign start at `i`. */
  predicate PlusAt(s: string, i: int) {
    0 <= i && i + 3 <= |s| && Digit(s[i]) && Digit(s[i + 1]) && s[i + 2] == '+'
  }

  /** What the pattern matches at `i`: its first alternative is tried first. */
  function TokenAt(s: string, i: int): Option<string> {
    if RangeAt(s, i) then Some(s[i..i + 5])
    else if PlusAt(s, i) then Some(s[i..i + 3])
    else None
  }

  /** An age group the pattern can produce: `NN-NN` or `NN+`. */
  predicate IsToken(t: string) {
    (|t| == 5 && RangeAt(t, 0)) || (|t| == 3 && PlusAt(t, 0))
  }

  /** The match at `i` is the leftmost one at or after `from`. */
  predicate LeftmostAt(s: string, from: int, i: int) {
    from <= i < |s| && TokenAt(s, i).Some? && forall j :: from <= j < i ==> TokenAt(s, j).None?
  }

  /** The regular-expression search from position `from`. */
  function FirstToken(s: string, from: nat): (r: Option<string>)
    decreases |s| - from
    ensures r.None? <==> forall i :: from <= i < |s| ==> TokenAt(s, i).None?
    ensures r.Some? ==> IsToken(r.value) && exists i :: LeftmostAt(s, from, i) && TokenAt(s, i) == r
  {
    if from >= |s| then None
    else if TokenAt(s, from).Some? then
      TokenAtIsToken(s, from);
      assert LeftmostAt(s, from, from);
      TokenAt(s, from)
    else
      var r := FirstToken(s, from + 1);
      LeftmostSkips(s, from, r);
      r
  }

  /** Whatever the pattern matches is a token. */
  lemma TokenAtIsToken(s: string, i: int)
    requires TokenAt(s, i).Some?
    ensures IsToken(TokenAt(s, i).value)
  {
    var t := TokenAt(s, i).value;
    if RangeAt(s, i) {
      assert t[0] == s[i] && t[1] == s[i + 1] && t[2] == s[i + 2] && t[3] == s[i + 3] && t[4] == s[i + 4];
    } else {
      assert t[0] == s[i] && t[1] == s[i + 1] && t[2] == s[i + 2];
    }
  }

  /** No match at `from` moves the leftmost match one position on. */
  lemma LeftmostSkips(s: string, from: nat, r: Option<string>)
    requires from < |s| && TokenAt(s, from).None?
    requires r.Some? ==> exists i :: LeftmostAt(s, from + 1, i) && TokenAt(s, i) == r
    ensures r.Some? ==> exists i :: LeftmostAt(s, from, i) && TokenAt(s, i) == r
  {
    if r.Some? {
      var i :| LeftmostAt(s, from + 1, i) && TokenAt(s, i) == r;
      assert LeftmostAt(s, from, i);
    }
  }

  /** `classif.match(...)?.[0]` on a `classif1.label` cell. */
  function AgeGroup(classif: string): (r: Option<string>)
    ensures r.None? <==> forall i :: 0 <= i < |classif| ==> TokenAt(classif, i).None?
    ensures r.Some? ==> IsToken(r.value) && exists i :: LeftmostAt(classif, 0, i) && TokenAt(classif, i) == r
  {
    FirstToken(classif, 0)
  }

  /** A token is the whole of what it matches. */
  lemma TokenMatchesItself(t: string)
    requires IsToken(t)
    ensures AgeGroup(t) == Some(t)
  {
    assert t[0..|t|] == t;
    assert TokenAt(t, 0) == Some(t);
  }

  /** The only digits of the prefix are the `10` of `(10-year`. */
  lemma PrefixDigits(i: int)
    requires 0 <= i < |AGE_PREFIX| && i != 5 && i != 6
    ensures !Digit(AGE_PREFIX[i])
  {
    if i < 5 {
      assert AGE_PREFIX[..5] == "Age (";
      assert AGE_PREFIX[i] == AGE_PREFIX[..5][i];
    } else {
      assert AGE_PREFIX[7..] == "-year bands):";
      assert AGE_PREFIX[i] == AGE_PREFIX[7..][i - 7];
    }
  }

  /** The `10-` inside the prefix is not taken for an age band; the band after it is. */
  lemma AgeGroupAfterPrefix()
    ensures AgeGroup(AGE_PREFIX + " 25-34") == Some("25-34")
  {
    var s := AGE_PREFIX + " 25-34";
    assert s[..20] == AGE_PREFIX;
    assert s[20..] == " 25-34";
    forall i | 0 <= i < 21 ensures TokenAt(s, i).None? {
      if i == 20 {
        assert s[20] == ' ';
      } else {
        assert s[i] == AGE_PREFIX[i];
        if i == 5 || i == 6 {
          assert s[7] == '-' && s[8] == 'y';
        } else {
          PrefixDigits(i);
        }
      }
    }
    assert s[21..26] == "25-34";
    assert TokenAt(s, 21) == Some("25-34");
  }

  // ------------------------------------------------------------------
  // Parsed rows
  // ------------------------------------------------------------------

  /** One dot: `Number(...)` that yields `NaN` is `None`. */
  datatype Dot = Dot(country: Option<string>, sex: string, ageGroup: string, year: Option<int>, rate: Option<real>)

  predicate MaleOrFemale(s: string) { s == "Male" || s == "Female" }

  /** `Number(row[key])`; a missing cell is `NaN`. */
  function NumberCell<T>(row: RawRow, key: string, parse: string -> Option<T>): Option<T> {
    match Cell(row, key)
    case None => None
    case Some(t) => parse(t)
  }

  /** A row in the ten-year-band breakdown, for a man or a woman, with a recognisable age band. */
  predicate Qualifies(row: RawRow) {
    && Cell(row, "classif1.label").Some? && StartsWith(row["classif1.label"], AGE_PREFIX)
    && AgeGroup(row["classif1.label"]).Some?
    && Cell(row, "sex.label").Some? && MaleOrFemale(row["sex.label"])
  }

  /** `parseCSV`'s filter, map and filter for one row. */
  function DotOf(row: RawRow, parseYear: string -> Option<int>, parseRate: string -> Option<real>): (r: Option<Dot>)
    ensures r.Some? <==> Qualifies(row)
    ensures r.Some? ==> && r.value.country == Cell(row, "ref_area.label")
                        && MaleOrFemale(r.value.sex) && IsToken(r.value.ageGroup)
                        && r.value.year == NumberCell(row, "time", parseYear)
                        && r.value.rate == NumberCell(row, "obs_value", parseRate)
  {
    if Qualifies(row) then
      Some(Dot(Cell(row, "ref_area.label"), row["sex.label"], AgeGroup(row["classif1.label"]).value,
               NumberCell(row, "time", parseYear), NumberCell(row, "obs_value", parseRate)))
    else None
  }

  /** Each row's outcome under `parseCSV`'s filter, row by row. */
  function DotCandidates(rows: seq<RawRow>, parseYear: string -> Option<int>, parseRate: string -> Option<real>)
    : (r: seq<Option<Dot>>)
    ensures |r| == |rows| && forall k :: 0 <= k < |rows| ==> r[k] == DotOf(rows[k], parseYear, parseRate)
  {
    seq(|rows|, k requires 0 <= k < |rows| => DotOf(rows[k], parseYear, parseRate))
  }

  /** Every qualifying row, in file order, and nothing else. */
  function LoadDots(rows: seq<RawRow>, parseYear: string -> Option<int>, parseRate: string -> Option<real>)
    : (r: seq<Dot>)
    ensures |r| <= |rows|
    ensures forall k :: 0 <= k < |r| ==> MaleOrFemale(r[k].sex) && IsToken(r[k].ageGroup)
    ensures forall k :: 0 <= k < |rows| && Qualifies(rows[k]) ==> DotOf(rows[k], parseYear, parseRate).value in r
    ensures forall k :: 0 <= k < |r| ==> Some(r[k]) in DotCandidates(rows, parseYear, parseRate)
    ensures Seqs.DefinedInOrder(r, DotCandidates(rows, parseYear, parseRate))
  {
    var f := (row: RawRow) => DotOf(row, parseYear, parseRate);
    var r := Seqs.FilterMap(rows, f);
    Seqs.FilterMapInOrder(rows, f);
    assert Seqs.Images(rows, f) == DotCandidates(rows, parseYear, parseRate);
    Seqs.DefinedInOrderSound(r, Seqs.Images(rows, f));
    forall k | 0 <= k < |r| ensures MaleOrFemale(r[k].sex) && IsToken(r[k].ageGroup) {
      var j :| 0 <= j < |rows| && f(rows[j]) == Some(r[k]);
    }
    r
  }

  // ------------------------------------------------------------------
  // Views
  // ------------------------------------------------------------------

  predicate At(country: string, year: int, d: Dot) {
    d.country == Some(country) && d.year == Some(year)
  }

  /** `filteredData`: the dots of the selected country and year, in order. */
  function FilteredData(data: seq<Dot>, country: string, year: int): (r: seq<Dot>)
    ensures Seqs.IsSubseq(r, data)
    ensures forall d :: d in r <==> d in data && At(country, year, d)
  {
    var p := (d: Dot) => At(country, year, d);
    Seqs.FilterIsSubseq(data, p);
    Seqs.Filter(data, p)
  }

  predicate HasYear(data: seq<Dot>, y: int) {
    exists k :: 0 <= k < |data| && data[k].year == Some(y)
  }

  /** The parsed years, `NaN` ones dropped. */
  function KnownYears(data: seq<Dot>): (r: seq<int>)
    ensures forall y :: y in r <==> HasYear(data, y)
  {
    if |data| == 0 then []
    else
      var n := |data| - 1;
      var rest := KnownYears(data[..n]);
      assert forall k :: 0 <= k < n ==> data[..n][k] == data[k];
      rest + (if data[n].year.Some? then [data[n].year.value] else [])
  }

  /** `availableYears`: each year once, oldest first. */
  function AvailableYears(data: seq<Dot>): (r: seq<int>)
    ensures forall i, j :: 0 <= i < j < |r| ==> r[i] < r[j]
    ensures forall y :: y in r <==> HasYear(data, y)
  {
    var ys := KnownYears(data);
    var r := AscendingSet(ys);
    assert forall y :: y in r <==> y in ys by {
      forall y | y in ys ensures y in r {
        var k :| 0 <= k < |ys| && ys[k] == y;
      }
    }
    r
  }

  function CountriesOf(data: seq<Dot>): (r: seq<Option<string>>)
    ensures |r| == |data| && forall k :: 0 <= k < |r| ==> r[k] == data[k].country
  {
    seq(|data|, k requires 0 <= k < |data| => data[k].country)
  }

  /** `availableCountries`: each country once, in order of first appearance. */
  function AvailableCountries(data: seq<Dot>): (r: seq<Option<string>>)
    ensures Seqs.Distinct(r)
    ensures Seqs.IsSubseq(r, CountriesOf(data))
    ensures forall c :: c in r <==> exists k :: 0 <= k < |data| && data[k].country == c
  {
    var cs := CountriesOf(data);
    Seqs.DedupIsSubseq(cs);
    var r := Seqs.Dedup(cs);
    assert forall c :: c in r <==> c in cs by {
      forall c | c in cs ensures c in r {
        var k :| 0 <= k < |cs| && cs[k] == c;
      }
    }
    r
  }

  /** The numeric start of an age band: `Number(s.split("-")[0].replace("+", ""))`. */
  function AgeStart(t: string): int {
    if |t| >= 2 && Digit(t[0]) && Digit(t[1]) then (t[0] as int - '0' as int) * 10 + (t[1] as int - '0' as int)
    else 0
  }

  /** A `NN+` band starts where its digits say, as does an `NN-NN` band. */
  lemma AgeStartExamples()
    ensures AgeStart("25-34") == 25 && AgeStart("65+") == 65 && AgeStart("15-24") < AgeStart("65+")
  {
  }

  /** The age groups of one country's dots, in order of first appearance. */
  function GroupsOf(data: seq<Dot>, country: string): (r: seq<string>)
    ensures forall g :: g in r <==> exists k :: 0 <= k < |data| && data[k].country == Some(country) && data[k].ageGroup == g
  {
    if |data| == 0 then []
    else
      var n := |data| - 1;
      var rest := GroupsOf(data[..n], country);
      assert forall k :: 0 <= k < n ==> data[..n][k] == data[k];
      rest + (if data[n].country == Some(country) then [data[n].ageGroup] else [])
  }

  /**
   * `ageGroups`: the distinct groups of the selected country over all
   * years, ordered by lower bound; a stable sort keeps first-appearance
   * order between groups with the same start.
   */
  function AgeGroups(data: seq<Dot>, country: string): (r: seq<string>)
    ensures SortedBy(r, AgeStart)
    ensures Seqs.Distinct(r)
    ensures forall g :: g in r <==> g in GroupsOf(data, country)
  {
    var unique := Seqs.Dedup(GroupsOf(data, country));
    var r := SortBy(unique, AgeStart);
    AgeGroupsFacts(GroupsOf(data, country), unique, r);
    r
  }

  lemma AgeGroupsFacts(groups: seq<string>, unique: seq<string>, r: seq<string>)
    requires unique == Seqs.Dedup(groups) && r == SortBy(unique, AgeStart)
    ensures Seqs.Distinct(r)
    ensures forall g :: g in r <==> g in groups
  {
    SortByElements(unique, AgeStart);
    Seqs.PermutationDistinct(unique, r);
    forall g | g in groups ensures g in unique {
      var k :| 0 <= k < |groups| && groups[k] == g;
    }
    forall g | g in r ensures g in groups {
      var k :| 0 <= k < |r| && r[k] == g;
      assert r[k] in unique;
      var j :| 0 <= j < |unique| && unique[j] == g;
    }
    forall g | g in groups ensures g in r {
      var j :| 0 <= j < |unique| && unique[j] == g;
    }
  }

  /** `Math.max(16, Math.min(50, rate))`; a `NaN` rate stays `NaN`. */
  function DotSize(rate: Option<real>): (r: Option<real>)
    ensures r.None? <==> rate.None?
    ensures r.Some? ==> 16.0 <= r.value <= 50.0
    ensures r.Some? && 16.0 <= rate.value <= 50.0 ==> r.value == rate.value
  {
    match rate
    case None => None
    case Some(x) => Some(if x < 16.0 then 16.0 else if x > 50.0 then 50.0 else x)
  }

  /** A larger rate never draws a smaller dot. */
  lemma DotSizeMonotone(a: real, b: real)
    requires a <= b
    ensures DotSize(Some(a)).value <= DotSize(Some(b)).value
  {
  }
}
