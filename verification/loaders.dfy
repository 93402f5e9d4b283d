/**
 * What happens to rows after a CSV parser hands them over: the employment
 * loader's validation with defaults and its lists of distinct values, the
 * early dashboard's South-American filter and country list, and the
 * salary bar chart's naive parse and positivity filter.
 */
module Loaders {
  import opened Wrappers
  import Seqs
  import opened Sorting
  import opened Records
  import Csv

  // ------------------------------------------------------------------
  // Employment loader
  // ------------------------------------------------------------------

  /**
   * A parsed row as a record: `Country`, `Year` and `Value` must be present
   * and non-empty and the two numbers must parse; a missing sex reads
   * `Total` and a missing age group `15+`.
   */
  function EmploymentRecord(row: RawRow, parseInt: string -> Option<int>,
                            parseFloat: string -> Option<real>): (r: Option<Obs>)
    ensures r.Some? <==> && Truthy(Cell(row, "Country")) && Truthy(Cell(row, "Year")) && Truthy(Cell(row, "Value"))
                         && parseInt(row["Year"]).Some? && parseFloat(row["Value"]).Some?
    ensures r.Some? ==> && r.value.country == row["Country"] && |r.value.country| > 0
                        && Some(r.value.year) == parseInt(row["Year"])
                        && Some(r.value.value) == parseFloat(row["Value"])
    ensures r.Some? ==> r.value.sex == (if Truthy(Cell(row, "Sex")) then row["Sex"] else "Total")
    ensures r.Some? ==> r.value.ageGroup == (if Truthy(Cell(row, "Age group")) then row["Age group"] else "15+")
    ensures r.Some? ==> |r.value.sex| > 0 && |r.value.ageGroup| > 0
  {
    if && Truthy(Cell(row, "Country")) && Truthy(Cell(row, "Year")) && Truthy(Cell(row, "Value"))
       && parseInt(row["Year"]).Some? && parseFloat(row["Value"]).Some?
    then
      var sex := if Truthy(Cell(row, "Sex")) then row["Sex"] else "Total";
      var age := if Truthy(Cell(row, "Age group")) then row["Age group"] else "15+";
      Some(Obs(row["Country"], parseInt(row["Year"]).value, parseFloat(row["Value"]).value, sex, age))
    else None
  }

  /** Every record has a country, a sex and an age group. */
  predicate Complete(r: Obs) {
    |r.country| > 0 && |r.sex| > 0 && |r.ageGroup| > 0
  }

  /** Each row's outcome under the employment loader's test, row by row. */
  function EmploymentRecords(rows: seq<RawRow>, parseInt: string -> Option<int>,
                             parseFloat: string -> Option<real>): (r: seq<Option<Obs>>)
    ensures |r| == |rows| && forall k :: 0 <= k < |rows| ==> r[k] == EmploymentRecord(rows[k], parseInt, parseFloat)
  {
    seq(|rows|, k requires 0 <= k < |rows| => EmploymentRecord(rows[k], parseInt, parseFloat))
  }

  /** The employment loader: every valid row, in file order, and nothing else. */
  function LoadEmployment(rows: seq<RawRow>, parseInt: string -> Option<int>,
                          parseFloat: string -> Option<real>): (r: seq<Obs>)
    ensures |r| <= |rows|
    ensures forall k :: 0 <= k < |rows| && EmploymentRecord(rows[k], parseInt, parseFloat).Some? ==>
              EmploymentRecord(rows[k], parseInt, parseFloat).value in r
    ensures forall k :: 0 <= k < |r| ==> Some(r[k]) in EmploymentRecords(rows, parseInt, parseFloat)
    ensures Seqs.DefinedInOrder(r, EmploymentRecords(rows, parseInt, parseFloat))
    ensures forall k :: 0 <= k < |r| ==> Complete(r[k])
  {
    var f := (row: RawRow) => EmploymentRecord(row, parseInt, parseFloat);
    var r := Seqs.FilterMap(rows, f);
    Seqs.FilterMapInOrder(rows, f);
    assert Seqs.Images(rows, f) == EmploymentRecords(rows, parseInt, parseFloat);
    Seqs.DefinedInOrderSound(r, Seqs.Images(rows, f));
    forall k | 0 <= k < |r| ensures Complete(r[k]) {
      var j :| 0 <= j < |rows| && f(rows[j]) == Some(r[k]);
    }
    r
  }

  /** `[...new Set(xs)].sort()` on strings. */
  function SortedNames(xs: seq<string>): (r: seq<string>)
    ensures StrictlySorted(r, StringLess)
    ensures forall x :: x in r <==> x in xs
  {
    StringOrderIsTotal();
    SortedSet(xs, StringLess)
  }

  /** The filter menus' option lists. */
  datatype Options = Options(countries: seq<string>, years: seq<int>, sexes: seq<string>, ageGroups: seq<string>)

  function SexesOf(data: seq<Obs>): (r: seq<string>)
    ensures |r| == |data| && forall k :: 0 <= k < |r| ==> r[k] == data[k].sex
  {
    seq(|data|, k requires 0 <= k < |data| => data[k].sex)
  }

  function AgeGroupsOf(data: seq<Obs>): (r: seq<string>)
    ensures |r| == |data| && forall k :: 0 <= k < |r| ==> r[k] == data[k].ageGroup
  {
    seq(|data|, k requires 0 <= k < |data| => data[k].ageGroup)
  }

  /**
   * `extractUniqueValues`: each list strictly increasing (so free of
   * duplicates), years numerically, and holding exactly the values some
   * record carries.
   */
  function ExtractUniqueValues(data: seq<Obs>): (r: Options)
    ensures StrictlySorted(r.countries, StringLess) && StrictlySorted(r.sexes, StringLess)
    ensures StrictlySorted(r.ageGroups, StringLess)
    ensures forall i, j :: 0 <= i < j < |r.years| ==> r.years[i] < r.years[j]
    ensures forall c :: c in r.countries <==> c in CountriesOf(data)
    ensures forall y :: y in r.years <==> y in YearsOf(data)
    ensures forall s :: s in r.sexes <==> s in SexesOf(data)
    ensures forall a :: a in r.ageGroups <==> a in AgeGroupsOf(data)
  {
    var ys := YearsOf(data);
    var years := AscendingSet(ys);
    assert forall y :: y in years <==> y in ys by {
      forall y | y in ys ensures y in years {
        var k :| 0 <= k < |ys| && ys[k] == y;
      }
    }
    Options(SortedNames(CountriesOf(data)), years, SortedNames(SexesOf(data)), SortedNames(AgeGroupsOf(data)))
  }

  /** A country that sorts before another is listed before it. */
  lemma UniqueCountriesOrdered(data: seq<Obs>, i: nat, j: nat)
    requires i < |data| && j < |data| && StringLess(data[i].country, data[j].country)
    ensures Before(ExtractUniqueValues(data).countries, data[i].country, data[j].country)
  {
    var cs := ExtractUniqueValues(data).countries;
    assert CountriesOf(data)[i] == data[i].country && CountriesOf(data)[j] == data[j].country;
    StringOrderIsTotal();
    SortedOrderIsPositional(cs, StringLess, data[i].country, data[j].country);
  }

  /** The sorted set of a single name is that name. */
  lemma SortedNamesSingleton(x: string)
    ensures SortedNames([x]) == [x]
  {
    var r := SortedNames([x]);
    assert x in r;
    if |r| > 1 {
      assert false;
    }
  }

  // ------------------------------------------------------------------
  // Early dashboard loader
  // ------------------------------------------------------------------

  /** The row's `ref_area.label` when it names one of the twelve countries. */
  predicate SouthAmerican(row: RawRow) {
    Cell(row, "ref_area.label").Some? && Cell(row, "ref_area.label").value in SouthAmerica()
  }

  /**
   * A row as a `Total` record of a South-American country with a parsable
   * year and value; the early dashboard has no age label, read as `""`.
   */
  function BackupRecord(row: RawRow, parseInt: string -> Option<int>,
                        parseFloat: string -> Option<real>): (r: Option<Obs>)
    ensures r.Some? <==> && SouthAmerican(row) && Cell(row, "sex.label") == Some("Total")
                         && Cell(row, "time").Some? && parseInt(row["time"]).Some?
                         && Cell(row, "obs_value").Some? && parseFloat(row["obs_value"]).Some?
    ensures r.Some? ==> r.value.country in SouthAmerica() && r.value.sex == "Total"
  {
    if && SouthAmerican(row) && Truthy(Cell(row, "ref_area.label"))
       && Cell(row, "time").Some? && parseInt(row["time"]).Some?
       && Cell(row, "obs_value").Some? && parseFloat(row["obs_value"]).Some?
       && Cell(row, "sex.label") == Some("Total")
    then Some(Obs(row["ref_area.label"], parseInt(row["time"]).value, parseFloat(row["obs_value"]).value, "Total", ""))
    else None
  }

  /** Every listed country has a non-empty name, so a listed name is always truthy. */
  lemma SouthAmericaNamesNonEmpty(c: string)
    requires c in SouthAmerica()
    ensures |c| > 0
  {
  }

  /** Some row names `c` as its country. */
  predicate Seen(rows: seq<RawRow>, c: string) {
    exists k :: 0 <= k < |rows| && Cell(rows[k], "ref_area.label") == Some(c)
  }

  /** The rows naming a South-American country, whatever their other cells hold. */
  function SeenCountries(rows: seq<RawRow>): (r: seq<string>)
    ensures forall c :: c in r <==> c in SouthAmerica() && Seen(rows, c)
  {
    if |rows| == 0 then []
    else
      var n := |rows| - 1;
      var rest := SeenCountries(rows[..n]);
      assert forall k :: 0 <= k < n ==> rows[..n][k] == rows[k];
      rest + (if SouthAmerican(rows[n]) then [rows[n]["ref_area.label"]] else [])
  }

  datatype Backup = Backup(data: seq<Obs>, countries: seq<string>)

  /** Each row's outcome under the early loader's test, row by row. */
  function BackupRecords(rows: seq<RawRow>, parseInt: string -> Option<int>,
                         parseFloat: string -> Option<real>): (r: seq<Option<Obs>>)
    ensures |r| == |rows| && forall k :: 0 <= k < |rows| ==> r[k] == BackupRecord(rows[k], parseInt, parseFloat)
  {
    seq(|rows|, k requires 0 <= k < |rows| => BackupRecord(rows[k], parseInt, parseFloat))
  }

  /** The kept records: the rows passing the early loader's test, in file order, and nothing else. */
  function BackupData(rows: seq<RawRow>, parseInt: string -> Option<int>,
                      parseFloat: string -> Option<real>): (data: seq<Obs>)
    ensures forall k :: 0 <= k < |data| ==>
              data[k].country in SouthAmerica() && data[k].sex == "Total" && Seen(rows, data[k].country)
    ensures forall k :: 0 <= k < |rows| && BackupRecord(rows[k], parseInt, parseFloat).Some? ==>
              BackupRecord(rows[k], parseInt, parseFloat).value in data
    ensures forall k :: 0 <= k < |data| ==> Some(data[k]) in BackupRecords(rows, parseInt, parseFloat)
    ensures Seqs.DefinedInOrder(data, BackupRecords(rows, parseInt, parseFloat))
  {
    var f := (row: RawRow) => BackupRecord(row, parseInt, parseFloat);
    var data := Seqs.FilterMap(rows, f);
    Seqs.FilterMapInOrder(rows, f);
    assert Seqs.Images(rows, f) == BackupRecords(rows, parseInt, parseFloat);
    Seqs.DefinedInOrderSound(data, Seqs.Images(rows, f));
    forall k | 0 <= k < |data|
      ensures data[k].country in SouthAmerica() && data[k].sex == "Total" && Seen(rows, data[k].country)
    {
      var j :| 0 <= j < |rows| && f(rows[j]) == Some(data[k]);
      assert Cell(rows[j], "ref_area.label") == Some(data[k].country);
    }
    data
  }

  /**
   * `fetchData`'s completion: the kept records in file order, and the sorted
   * set of South-American countries met while filtering, including those
   * whose rows all fail the other tests.
   */
  function LoadBackup(rows: seq<RawRow>, parseInt: string -> Option<int>,
                      parseFloat: string -> Option<real>): (r: Backup)
    ensures forall k :: 0 <= k < |r.data| ==> r.data[k].country in SouthAmerica() && r.data[k].sex == "Total"
    ensures forall k :: 0 <= k < |rows| && BackupRecord(rows[k], parseInt, parseFloat).Some? ==>
              BackupRecord(rows[k], parseInt, parseFloat).value in r.data
    ensures forall k :: 0 <= k < |r.data| ==> Some(r.data[k]) in BackupRecords(rows, parseInt, parseFloat)
    ensures Seqs.DefinedInOrder(r.data, BackupRecords(rows, parseInt, parseFloat))
    ensures StrictlySorted(r.countries, StringLess)
    ensures forall c :: c in r.countries <==> c in SouthAmerica() && Seen(rows, c)
    ensures forall k :: 0 <= k < |r.data| ==> r.data[k].country in r.countries
  {
    Backup(BackupData(rows, parseInt, parseFloat), SortedNames(SeenCountries(rows)))
  }

  /** A country whose only row has an unparsable year is listed with no data. */
  lemma ListedWithoutData()
    ensures var row := map["ref_area.label" := "Chile", "time" := "", "obs_value" := "1", "sex.label" := "Total"];
            var r := LoadBackup([row], (s: string) => None, (s: string) => Some(1.0));
            r.data == [] && r.countries == ["Chile"]
  {
    var row := map["ref_area.label" := "Chile", "time" := "", "obs_value" := "1", "sex.label" := "Total"];
    assert SouthAmerican(row);
    assert SeenCountries([row]) == ["Chile"];
    SortedNamesSingleton("Chile");
  }

  // ------------------------------------------------------------------
  // Salary bar chart
  // ------------------------------------------------------------------

  /** One bar pair: minimum wage and average income of a country. */
  datatype Bar = Bar(country: string, minimumWage: real, averageIncome: real)

  /** `parseFloat(row[key]) || 0`: a missing cell, text that does not parse, and 0 all give 0. */
  function Amount(row: RawRow, key: string, parseFloat: string -> Option<real>): (r: real)
    ensures r != 0.0 ==> key in row && parseFloat(row[key]) == Some(r)
    ensures key in row && parseFloat(row[key]).Some? ==> r == parseFloat(row[key]).value
  {
    match Cell(row, key)
    case None => 0.0
    case Some(t) => parseFloat(t).GetOr(0.0)
  }

  /** A zipped line as a bar, kept when it names a country and both amounts are positive. */
  function BarOf(row: RawRow, parseFloat: string -> Option<real>): (r: Option<Bar>)
    ensures r.Some? <==> Truthy(Cell(row, "Pais"))
                         && Amount(row, "Salario_Minimo_Mensual_USD_2025", parseFloat) > 0.0
                         && Amount(row, "Ingreso_Promedio_Mensual_Estimado_USD_2025", parseFloat) > 0.0
    ensures r.Some? ==> |r.value.country| > 0 && r.value.minimumWage > 0.0 && r.value.averageIncome > 0.0
  {
    var minimum := Amount(row, "Salario_Minimo_Mensual_USD_2025", parseFloat);
    var average := Amount(row, "Ingreso_Promedio_Mensual_Estimado_USD_2025", parseFloat);
    if Truthy(Cell(row, "Pais")) && minimum > 0.0 && average > 0.0
    then Some(Bar(row["Pais"], minimum, average))
    else None
  }

  /** The body lines, each split on every comma and zipped with the header. */
  function NaiveRows(headers: seq<string>, body: seq<string>): (r: seq<RawRow>)
    ensures |r| == |body|
    ensures forall k :: 0 <= k < |r| ==> r[k] == Csv.ZipRow(headers, Csv.NaiveSplit(body[k]))
  {
    seq(|body|, k requires 0 <= k < |body| => Csv.ZipRow(headers, Csv.NaiveSplit(body[k])))
  }

  /**
   * The bar chart's loader: no non-blank line makes `lines[0]` undefined
   * and the load fails; otherwise the bars of the qualifying lines, in order.
   */
  function LoadBars(text: string, parseFloat: string -> Option<real>): (r: Option<seq<Bar>>)
    ensures r.None? <==> |Csv.NonBlankLines(text)| == 0
    ensures r.Some? ==> |r.value| <= |Csv.NonBlankLines(text)| - 1
    ensures r.Some? ==> forall k :: 0 <= k < |r.value| ==>
              |r.value[k].country| > 0 && r.value[k].minimumWage > 0.0 && r.value[k].averageIncome > 0.0
    ensures r.Some? ==> forall k :: 1 <= k < |Csv.NonBlankLines(text)| ==>
              var lines := Csv.NonBlankLines(text);
              var b := BarOf(Csv.ZipRow(Csv.NaiveSplit(lines[0]), Csv.NaiveSplit(lines[k])), parseFloat);
              b.Some? ==> b.value in r.value
    ensures r.Some? ==>
              var lines := Csv.NonBlankLines(text);
              var candidates := BarCandidates(Csv.NaiveSplit(lines[0]), lines[1..], parseFloat);
              && (forall k :: 0 <= k < |r.value| ==> Some(r.value[k]) in candidates)
              && Seqs.DefinedInOrder(r.value, candidates)
  {
    var lines := Csv.NonBlankLines(text);
    if |lines| == 0 then None
    else
      var bars := BarsOf(Csv.NaiveSplit(lines[0]), lines[1..], parseFloat);
      assert forall k :: 1 <= k < |lines| ==> lines[k] == lines[1..][k - 1];
      Some(bars)
  }

  /** Each body line's outcome as a bar, line by line. */
  function BarCandidates(headers: seq<string>, body: seq<string>, parseFloat: string -> Option<real>)
    : (r: seq<Option<Bar>>)
    ensures |r| == |body|
    ensures forall k :: 0 <= k < |body| ==> r[k] == BarOf(Csv.ZipRow(headers, Csv.NaiveSplit(body[k])), parseFloat)
  {
    seq(|body|, k requires 0 <= k < |body| => BarOf(Csv.ZipRow(headers, Csv.NaiveSplit(body[k])), parseFloat))
  }

  /** The bars of the body lines zipped with the header, in order. */
  function BarsOf(headers: seq<string>, body: seq<string>, parseFloat: string -> Option<real>): (r: seq<Bar>)
    ensures |r| <= |body|
    ensures forall k :: 0 <= k < |r| ==>
              |r[k].country| > 0 && r[k].minimumWage > 0.0 && r[k].averageIncome > 0.0
    ensures forall k :: 0 <= k < |body| ==>
              var b := BarOf(Csv.ZipRow(headers, Csv.NaiveSplit(body[k])), parseFloat);
              b.Some? ==> b.value in r
    ensures forall k :: 0 <= k < |r| ==> Some(r[k]) in BarCandidates(headers, body, parseFloat)
    ensures Seqs.DefinedInOrder(r, BarCandidates(headers, body, parseFloat))
  {
    var rows := NaiveRows(headers, body);
    var f := (row: RawRow) => BarOf(row, parseFloat);
    var bars := Seqs.FilterMap(rows, f);
    Seqs.FilterMapInOrder(rows, f);
    assert Seqs.Images(rows, f) == BarCandidates(headers, body, parseFloat);
    Seqs.DefinedInOrderSound(bars, Seqs.Images(rows, f));
    forall k | 0 <= k < |bars|
      ensures |bars[k].country| > 0 && bars[k].minimumWage > 0.0 && bars[k].averageIncome > 0.0
    {
      var j :| 0 <= j < |rows| && f(rows[j]) == Some(bars[k]);
    }
    bars
  }
}
