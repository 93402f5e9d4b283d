/**
 * The timeline comparison: labour-force participation and salaries of one
 * country side by side. Two CSV files are read with the boundary-quote
 * splitter and filtered, the countries present in both become the choice
 * list, the selected year range is clamped to the data, and the selected
 * country's records are grouped into one row per year carrying the active
 * population and salary of each sex.
 */
module Timeline {
  import opened Wrappers
  import Seqs
  import opened Strings
  import opened Sorting
  import Csv
  import Records
  import Summary

  const MALE: string := "Male"
  const FEMALE: string := "Female"

  /** Both loaders keep only the years 2010 to 2024. */
  const FIRST_YEAR: int := 2010
  const LAST_YEAR: int := 2024

  // ------------------------------------------------------------------
  // Country names
  // ------------------------------------------------------------------

  /** Brazil and Peru are shown with their Spanish names; every other name is kept. */
  function Normalize(name: string): (r: string)
    ensures r == name || (name == "Brazil" && r == "Brasil") || (name == "Peru" && r == "Perú")
    ensures r == "Brasil" <==> name == "Brazil" || name == "Brasil"
    ensures r == "Perú" <==> name == "Peru" || name == "Perú"
  {
    match name
    case "Brazil" => "Brasil"
    case "Brasil" => "Brasil"
    case "Peru" => "Perú"
    case "Perú" => "Perú"
    case _ => name
  }

  /** The name a display name has in the data files. */
  function DatasetName(name: string): (r: string)
    ensures r == name || (name == "Brasil" && r == "Brazil") || (name == "Perú" && r == "Peru")
    ensures r != name <==> name == "Brasil" || name == "Perú"
  {
    match name
    case "Brasil" => "Brazil"
    case "Perú" => "Peru"
    case _ => name
  }

  /**
   * Normalizing twice is normalizing once, and the dataset name of a
   * normalized name is the original, except for a file that already uses
   * the Spanish spelling.
   */
  lemma NameRoundTrip(x: string)
    ensures Normalize(Normalize(x)) == Normalize(x)
    ensures x != "Brasil" && x != "Perú" ==> DatasetName(Normalize(x)) == x
    ensures DatasetName(Normalize("Brasil")) == "Brazil"
  {
  }

  // ------------------------------------------------------------------
  // The two loaders
  // ------------------------------------------------------------------

  /** `cols[k]?.replace(/"/g, '').trim()`; `None` for a missing column. */
  function Clean(cols: seq<string>, k: nat): (r: Option<string>)
    ensures r.Some? <==> k < |cols|
    ensures r.Some? ==> '"' !in r.value
  {
    if k < |cols| then
      Some(Trim(RemoveQuotes(cols[k])))
    else None
  }

  /** `parseInt(cols[k])` or `parseFloat(cols[k])`; a missing column does not parse. */
  function Number<T>(cols: seq<string>, k: nat, parse: string -> Option<T>): Option<T> {
    if k < |cols| then parse(cols[k]) else None
  }

  /** A labour-force record. */
  datatype LabourRec = LabourRec(country: string, sex: string, ageGroup: string, year: int, rate: real)

  /** What every loaded labour record satisfies. */
  predicate LabourOk(r: LabourRec) {
    && |r.country| > 0
    && Contains(r.ageGroup, "15+")
    && (r.sex == MALE || r.sex == FEMALE)
    && FIRST_YEAR <= r.year <= LAST_YEAR
  }

  /** One line of the labour file as a record, if it passes the loader's filter. */
  function LabourOf(cols: seq<string>, parseInt: string -> Option<int>,
                    parseFloat: string -> Option<real>): (r: Option<LabourRec>)
    ensures r.Some? ==> LabourOk(r.value)
    ensures r.Some? ==> Number(cols, 5, parseInt) == Some(r.value.year)
                        && Number(cols, 6, parseFloat) == Some(r.value.rate)
  {
    var country := match Clean(cols, 0) case Some(c) => Some(Normalize(c)) case None => None;
    var sex := Clean(cols, 3);
    var age := Clean(cols, 4);
    var year := Number(cols, 5, parseInt);
    var rate := Number(cols, 6, parseFloat);
    if && Records.Truthy(country) && Records.Truthy(sex) && Records.Truthy(age)
       && year.Some? && year.value != 0 && rate.Some?
       && Contains(age.value, "15+")
       && (sex.value == MALE || sex.value == FEMALE)
       && FIRST_YEAR <= year.value <= LAST_YEAR
    then Some(LabourRec(country.value, sex.value, age.value, year.value, rate.value))
    else None
  }

  /**
   * The labour loader: a failed request gives no records, otherwise the
   * lines of the file that pass the filter, in file order.
   */
  function LoadLabour(body: Option<string>, parseInt: string -> Option<int>,
                      parseFloat: string -> Option<real>): (r: seq<LabourRec>)
    ensures body.None? ==> r == []
    ensures forall k :: 0 <= k < |r| ==> LabourOk(r[k])
    ensures body.Some? ==> forall k :: 0 <= k < |Csv.ParseTimelineCsv(body.value)| ==>
              var rec := LabourOf(Csv.ParseTimelineCsv(body.value)[k], parseInt, parseFloat);
              rec.Some? ==> rec.value in r
    ensures body.Some? ==>
              var candidates := LabourCandidates(Csv.ParseTimelineCsv(body.value), parseInt, parseFloat);
              && (forall k :: 0 <= k < |r| ==> Some(r[k]) in candidates)
              && Seqs.DefinedInOrder(r, candidates)
  {
    match body
    case None => []
    case Some(text) =>
      var f := (cols: seq<string>) => LabourOf(cols, parseInt, parseFloat);
      var rows := Csv.ParseTimelineCsv(text);
      var r := Seqs.FilterMap(rows, f);
      ProducedLabourOk(rows, f, r);
      Seqs.FilterMapInOrder(rows, f);
      assert Seqs.Images(rows, f) == LabourCandidates(rows, parseInt, parseFloat);
      Seqs.DefinedInOrderSound(r, Seqs.Images(rows, f));
      r
  }

  /** Each parsed line's outcome under the labour loader's filter, line by line. */
  function LabourCandidates(rows: seq<seq<string>>, parseInt: string -> Option<int>,
                    parseFloat: string -> Option<real>): (r: seq<Option<LabourRec>>)
    ensures |r| == |rows| && forall k :: 0 <= k < |rows| ==> r[k] == LabourOf(rows[k], parseInt, parseFloat)
  {
    seq(|rows|, k requires 0 <= k < |rows| => LabourOf(rows[k], parseInt, parseFloat))
  }

  lemma ProducedLabourOk(rows: seq<seq<string>>, f: seq<string> -> Option<LabourRec>, r: seq<LabourRec>)
    requires forall cols :: f(cols).Some? ==> LabourOk(f(cols).value)
    requires forall k :: 0 <= k < |r| ==> Seqs.Produced(rows, f, r[k])
    ensures forall k :: 0 <= k < |r| ==> LabourOk(r[k])
  {
    forall k | 0 <= k < |r| ensures LabourOk(r[k]) {
      var j :| 0 <= j < |rows| && f(rows[j]) == Some(r[k]);
    }
  }

  /** A salary record. */
  datatype SalaryRec = SalaryRec(country: string, sex: string, currency: string, year: int, salary: real)

  /** What every loaded salary record satisfies. */
  predicate SalaryOk(r: SalaryRec) {
    && |r.country| > 0
    && Contains(r.currency, "U.S. dollars")
    && (r.sex == MALE || r.sex == FEMALE)
    && FIRST_YEAR <= r.year <= LAST_YEAR
  }

  /** One line of the salary file as a record, if it passes the loader's filter. */
  function SalaryOf(cols: seq<string>, parseInt: string -> Option<int>,
                    parseFloat: string -> Option<real>): (r: Option<SalaryRec>)
    ensures r.Some? ==> SalaryOk(r.value)
    ensures r.Some? ==> Number(cols, 5, parseInt) == Some(r.value.year)
                        && Number(cols, 6, parseFloat) == Some(r.value.salary)
  {
    var country := match Clean(cols, 0) case Some(c) => Some(Normalize(c)) case None => None;
    var sex := Clean(cols, 3);
    var currency := Clean(cols, 4);
    var year := Number(cols, 5, parseInt);
    var salary := Number(cols, 6, parseFloat);
    if && Records.Truthy(country) && Records.Truthy(sex) && Records.Truthy(currency)
       && year.Some? && year.value != 0 && salary.Some?
       && Contains(currency.value, "U.S. dollars")
       && (sex.value == MALE || sex.value == FEMALE)
       && FIRST_YEAR <= year.value <= LAST_YEAR
    then Some(SalaryRec(country.value, sex.value, currency.value, year.value, salary.value))
    else None
  }

  /** The salary loader, alike but with a currency test in place of the age test. */
  function LoadSalary(body: Option<string>, parseInt: string -> Option<int>,
                      parseFloat: string -> Option<real>): (r: seq<SalaryRec>)
    ensures body.None? ==> r == []
    ensures forall k :: 0 <= k < |r| ==> SalaryOk(r[k])
    ensures body.Some? ==> forall k :: 0 <= k < |Csv.ParseTimelineCsv(body.value)| ==>
              var rec := SalaryOf(Csv.ParseTimelineCsv(body.value)[k], parseInt, parseFloat);
              rec.Some? ==> rec.value in r
    ensures body.Some? ==>
              var candidates := SalaryCandidates(Csv.ParseTimelineCsv(body.value), parseInt, parseFloat);
              && (forall k :: 0 <= k < |r| ==> Some(r[k]) in candidates)
              && Seqs.DefinedInOrder(r, candidates)
  {
    match body
    case None => []
    case Some(text) =>
      var f := (cols: seq<string>) => SalaryOf(cols, parseInt, parseFloat);
      var rows := Csv.ParseTimelineCsv(text);
      var r := Seqs.FilterMap(rows, f);
      ProducedSalaryOk(rows, f, r);
      Seqs.FilterMapInOrder(rows, f);
      assert Seqs.Images(rows, f) == SalaryCandidates(rows, parseInt, parseFloat);
      Seqs.DefinedInOrderSound(r, Seqs.Images(rows, f));
      r
  }

  /** Each parsed line's outcome under the salary loader's filter, line by line. */
  function SalaryCandidates(rows: seq<seq<string>>, parseInt: string -> Option<int>,
                    parseFloat: string -> Option<real>): (r: seq<Option<SalaryRec>>)
    ensures |r| == |rows| && forall k :: 0 <= k < |rows| ==> r[k] == SalaryOf(rows[k], parseInt, parseFloat)
  {
    seq(|rows|, k requires 0 <= k < |rows| => SalaryOf(rows[k], parseInt, parseFloat))
  }

  lemma ProducedSalaryOk(rows: seq<seq<string>>, f: seq<string> -> Option<SalaryRec>, r: seq<SalaryRec>)
    requires forall cols :: f(cols).Some? ==> SalaryOk(f(cols).value)
    requires forall k :: 0 <= k < |r| ==> Seqs.Produced(rows, f, r[k])
    ensures forall k :: 0 <= k < |r| ==> SalaryOk(r[k])
  {
    forall k | 0 <= k < |r| ensures SalaryOk(r[k]) {
      var j :| 0 <= j < |rows| && f(rows[j]) == Some(r[k]);
    }
  }

  // ------------------------------------------------------------------
  // Country list, year range and selected country after loading
  // ------------------------------------------------------------------

  function LabourCountries(rs: seq<LabourRec>): (r: seq<string>)
    ensures |r| == |rs| && forall k :: 0 <= k < |r| ==> r[k] == rs[k].country
  {
    seq(|rs|, k requires 0 <= k < |rs| => rs[k].country)
  }

  function SalaryCountries(rs: seq<SalaryRec>): (r: seq<string>)
    ensures |r| == |rs| && forall k :: 0 <= k < |r| ==> r[k] == rs[k].country
  {
    seq(|rs|, k requires 0 <= k < |rs| => rs[k].country)
  }

  /** `[...new Set(names)].filter(Boolean)`. */
  function NonEmptyDistinct(names: seq<string>): (r: seq<string>)
    ensures Seqs.Distinct(r)
    ensures forall c :: c in r <==> c in names && c != ""
    ensures Seqs.IsSubseq(r, Seqs.Dedup(names))
  {
    var d := Seqs.Dedup(names);
    Seqs.FilterIsSubseq(d, Csv.NonEmpty);
    Seqs.SubseqDistinct(Seqs.Filter(d, Csv.NonEmpty), d);
    Seqs.Filter(d, Csv.NonEmpty)
  }

  /**
   * The choice list: the labour file's countries, first-appearance order,
   * restricted to those the salary file also has.
   */
  function CommonCountries(labourNames: seq<string>, salaryNames: seq<string>): (r: seq<string>)
    ensures Seqs.Distinct(r)
    ensures forall c :: c in r <==> c in labourNames && c in salaryNames && c != ""
    ensures Seqs.IsSubseq(r, NonEmptyDistinct(labourNames))
  {
    var lc := NonEmptyDistinct(labourNames);
    var sc := NonEmptyDistinct(salaryNames);
    var inSalary := (c: string) => c in sc;
    Seqs.FilterIsSubseq(lc, inSalary);
    Seqs.SubseqDistinct(Seqs.Filter(lc, inSalary), lc);
    Seqs.Filter(lc, inSalary)
  }

  /** An inclusive year interval. */
  datatype YearRange = YearRange(start: int, end: int)

  function IntMin(xs: seq<int>): (r: int)
    requires |xs| > 0
    ensures r in xs && forall k :: 0 <= k < |xs| ==> r <= xs[k]
  {
    if |xs| == 1 then xs[0]
    else
      var m := IntMin(xs[1..]);
      assert forall k :: 1 <= k < |xs| ==> xs[k] == xs[1..][k - 1];
      if xs[0] <= m then xs[0] else m
  }

  function IntMax(xs: seq<int>): (r: int)
    requires |xs| > 0
    ensures r in xs && forall k :: 0 <= k < |xs| ==> xs[k] <= r
  {
    if |xs| == 1 then xs[0]
    else
      var m := IntMax(xs[1..]);
      assert forall k :: 1 <= k < |xs| ==> xs[k] == xs[1..][k - 1];
      if xs[0] >= m then xs[0] else m
  }

  predicate InRange(r: YearRange, y: int) { r.start <= y <= r.end }

  /** The earliest and latest of the loaded years, when there are any. */
  function YearBounds(years: seq<int>): (r: Option<YearRange>)
    ensures r.None? <==> |years| == 0
    ensures r.Some? ==> r.value.start in years && r.value.end in years
    ensures r.Some? ==> forall y :: y in years ==> InRange(r.value, y)
  {
    if |years| == 0 then None else Some(YearRange(IntMin(years), IntMax(years)))
  }

  /**
   * The selected range after loading: its start raised to the earliest
   * year and its end lowered to the latest, which leaves exactly the years
   * both intervals contain.
   */
  function ClampRange(prev: YearRange, bounds: YearRange): (r: YearRange)
    ensures forall y :: InRange(r, y) <==> InRange(prev, y) && InRange(bounds, y)
    ensures r.start == prev.start || r.start == bounds.start
    ensures r.end == prev.end || r.end == bounds.end
  {
    YearRange(if prev.start >= bounds.start then prev.start else bounds.start,
              if prev.end <= bounds.end then prev.end else bounds.end)
  }

  /** Clamping a second time changes nothing. */
  lemma ClampRangeIdempotent(prev: YearRange, bounds: YearRange)
    ensures ClampRange(ClampRange(prev, bounds), bounds) == ClampRange(prev, bounds)
  {
  }

  /** The selected country is kept when it is on the list, and replaced by the first entry otherwise. */
  function ResetCountry(common: seq<string>, selected: string): (r: string)
    ensures |common| > 0 ==> r in common
    ensures selected in common || |common| == 0 ==> r == selected
    ensures r != selected ==> r == common[0]
  {
    if |common| > 0 && selected !in common then common[0] else selected
  }

  /** The state the loading effect leaves behind. */
  datatype Loaded = Loaded(countries: seq<string>, bounds: YearRange, range: YearRange, country: string)

  /** The bounds shown before any data arrives. */
  const DEFAULT_BOUNDS: YearRange := YearRange(FIRST_YEAR, LAST_YEAR)

  function LabourYears(rs: seq<LabourRec>): (r: seq<int>)
    ensures |r| == |rs| && forall k :: 0 <= k < |r| ==> r[k] == rs[k].year
  {
    seq(|rs|, k requires 0 <= k < |rs| => rs[k].year)
  }

  function SalaryYears(rs: seq<SalaryRec>): (r: seq<int>)
    ensures |r| == |rs| && forall k :: 0 <= k < |r| ==> r[k] == rs[k].year
  {
    seq(|rs|, k requires 0 <= k < |rs| => rs[k].year)
  }

  /** `[...laborYears, ...salaryYears]`. */
  function AllYears(labour: seq<LabourRec>, salary: seq<SalaryRec>): (r: seq<int>)
    ensures |r| == |labour| + |salary|
    ensures forall k :: 0 <= k < |labour| ==> labour[k].year in r
    ensures forall k :: 0 <= k < |salary| ==> salary[k].year in r
  {
    var r := LabourYears(labour) + SalaryYears(salary);
    YearsListed(labour, salary, r);
    r
  }

  lemma YearsListed(labour: seq<LabourRec>, salary: seq<SalaryRec>, r: seq<int>)
    requires r == LabourYears(labour) + SalaryYears(salary)
    ensures forall k :: 0 <= k < |labour| ==> labour[k].year in r
    ensures forall k :: 0 <= k < |salary| ==> salary[k].year in r
  {
    forall k | 0 <= k < |labour| ensures labour[k].year in r {
      assert r[k] == labour[k].year;
    }
    forall k | 0 <= k < |salary| ensures salary[k].year in r {
      assert r[|labour| + k] == salary[k].year;
    }
  }

  /** The effect run once both files are loaded. */
  function AfterLoad(labour: seq<LabourRec>, salary: seq<SalaryRec>, range: YearRange, country: string): (r: Loaded)
    ensures forall c :: c in r.countries <==>
              c in LabourCountries(labour) && c in SalaryCountries(salary) && c != ""
    ensures |labour| + |salary| == 0 ==> r.bounds == DEFAULT_BOUNDS && r.range == range
    ensures forall k :: 0 <= k < |labour| ==> InRange(r.bounds, labour[k].year)
    ensures forall k :: 0 <= k < |salary| ==> InRange(r.bounds, salary[k].year)
    ensures |labour| + |salary| > 0 ==> r.range == ClampRange(range, r.bounds)
    ensures |r.countries| > 0 ==> r.country in r.countries
    ensures r.countries == CommonCountries(LabourCountries(labour), SalaryCountries(salary))
    ensures |labour| + |salary| > 0 ==> Some(r.bounds) == YearBounds(AllYears(labour, salary))
    ensures r.country == ResetCountry(r.countries, country)
  {
    var common := CommonCountries(LabourCountries(labour), SalaryCountries(salary));
    var years := AllYears(labour, salary);
    match YearBounds(years)
    case None => Loaded(common, DEFAULT_BOUNDS, range, ResetCountry(common, country))
    case Some(bounds) => Loaded(common, bounds, ClampRange(range, bounds), ResetCountry(common, country))
  }

  /** Re-running the effect on the state it left changes nothing. */
  lemma AfterLoadIdempotent(labour: seq<LabourRec>, salary: seq<SalaryRec>, range: YearRange, country: string)
    ensures var r := AfterLoad(labour, salary, range, country);
            AfterLoad(labour, salary, r.range, r.country) == r
  {
  }

  // ------------------------------------------------------------------
  // The per-year rows of the selected country
  // ------------------------------------------------------------------

  /** One chart row: the year and, per sex, active population, participation rate and salary. */
  datatype YearRow = YearRow(year: int, activePop: map<string, real>, rate: map<string, real>,
                             salary: map<string, real>)

  /** The population table: millions of inhabitants by country name and year, where known. */
  type Population = (string, int) -> Option<real>

  /**
   * The population under the display name, else under the dataset name,
   * else 0; a zero entry counts as missing.
   */
  function PopulationFor(pop: Population, c: string, y: int): (r: real)
    ensures r == 0.0 || pop(c, y) == Some(r) || pop(DatasetName(c), y) == Some(r)
    ensures pop(c, y).Some? && pop(c, y).value != 0.0 ==> r == pop(c, y).value
    ensures r == 0.0 ==> pop(c, y).None? || pop(c, y) == Some(0.0)
  {
    var a := pop(c, y);
    if a.Some? && a.value != 0.0 then a.value
    else
      var b := pop(DatasetName(c), y);
      if b.Some? && b.value != 0.0 then b.value else 0.0
  }

  /** Active population in millions: the participation rate applied to the population. */
  function ActivePop(r: LabourRec, pop: Population): real {
    r.rate / 100.0 * PopulationFor(pop, r.country, r.year)
  }

  /** The labour `forEach`: a later record of the same year and sex overwrites an earlier one. */
  function LabourFold(items: seq<LabourRec>, pop: Population): map<int, YearRow> {
    if |items| == 0 then map[]
    else
      var n := |items| - 1;
      var m := LabourFold(items[..n], pop);
      var it := items[n];
      var row := if it.year in m then m[it.year] else YearRow(it.year, map[], map[], map[]);
      m[it.year := row.(activePop := row.activePop[it.sex := ActivePop(it, pop)],
                        rate := row.rate[it.sex := it.rate])]
  }

  /** The salary `forEach`: it fills in salaries of years the labour data created, and no others. */
  function SalaryFold(items: seq<SalaryRec>, m: map<int, YearRow>): map<int, YearRow> {
    if |items| == 0 then m
    else
      var n := |items| - 1;
      var g := SalaryFold(items[..n], m);
      var it := items[n];
      if it.year in g then g[it.year := g[it.year].(salary := g[it.year].salary[it.sex := it.salary])]
      else g
  }

  function AtYearSex(y: int, s: string): LabourRec -> bool {
    (r: LabourRec) => r.year == y && r.sex == s
  }

  function SalaryAtYearSex(y: int, s: string): SalaryRec -> bool {
    (r: SalaryRec) => r.year == y && r.sex == s
  }

  predicate HasYear(items: seq<LabourRec>, y: int) {
    exists k :: 0 <= k < |items| && items[k].year == y
  }

  /** The labour fold has a row for exactly the years some record carries. */
  lemma {:induction false} LabourFoldYears(items: seq<LabourRec>, pop: Population, y: int)
    ensures y in LabourFold(items, pop) <==> HasYear(items, y)
  {
    if |items| > 0 {
      var n := |items| - 1;
      LabourFoldYears(items[..n], pop, y);
      assert forall k :: 0 <= k < n ==> items[..n][k] == items[k];
      assert HasYear(items, y) <==> HasYear(items[..n], y) || items[n].year == y;
    }
  }

  /** The row of year `y` holds, for sex `s`, the figures of the last record of that year and sex. */
  predicate LabourRowOk(row: YearRow, items: seq<LabourRec>, pop: Population, y: int, s: string) {
    var last := Seqs.Last(items, AtYearSex(y, s));
    && row.year == y && row.salary == map[]
    && (s in row.activePop <==> last.Some?) && (s in row.rate <==> last.Some?)
    && (last.Some? ==> row.activePop[s] == ActivePop(last.value, pop) && row.rate[s] == last.value.rate)
  }

  /** What the labour fold stores for year `y` and sex `s`. */
  lemma {:induction false} LabourFoldSpec(items: seq<LabourRec>, pop: Population, y: int, s: string)
    ensures y in LabourFold(items, pop) <==> HasYear(items, y)
    ensures y in LabourFold(items, pop) ==>
              var row := LabourFold(items, pop)[y];
              var last := Seqs.Last(items, AtYearSex(y, s));
              && row.year == y && row.salary == map[]
              && (s in row.activePop <==> last.Some?) && (s in row.rate <==> last.Some?)
              && (last.Some? ==> row.activePop[s] == ActivePop(last.value, pop) && row.rate[s] == last.value.rate)
  {
    LabourFoldYears(items, pop, y);
    if y in LabourFold(items, pop) {
      LabourFoldRow(items, pop, y, s);
    }
  }

  lemma {:induction false} LabourFoldRow(items: seq<LabourRec>, pop: Population, y: int, s: string)
    requires y in LabourFold(items, pop)
    ensures LabourRowOk(LabourFold(items, pop)[y], items, pop, y, s)
  {
    var n := |items| - 1;
    var front := items[..n];
    var m := LabourFold(front, pop);
    var it := items[n];
    assert Seqs.Last(items, AtYearSex(y, s)) ==
           if AtYearSex(y, s)(it) then Some(it) else Seqs.Last(front, AtYearSex(y, s));
    if it.year != y {
      LabourFoldRow(front, pop, y, s);
    } else if y in m {
      LabourFoldRow(front, pop, y, s);
    } else {
      LabourFoldYears(front, pop, y);
      LabourFoldAbsent(front, y, s);
    }
  }

  /** No record of a year means no record of that year and any sex. */
  lemma LabourFoldAbsent(items: seq<LabourRec>, y: int, s: string)
    requires !HasYear(items, y)
    ensures Seqs.Last(items, AtYearSex(y, s)).None?
  {
    forall i | 0 <= i < |items| ensures !AtYearSex(y, s)(items[i]) {
      assert items[i].year != y;
    }
  }

  /** What the salary fold changes: only salaries, only of years already present. */
  lemma {:induction false} SalaryFoldSpec(items: seq<SalaryRec>, m: map<int, YearRow>, y: int, s: string)
    ensures y in SalaryFold(items, m) <==> y in m
    ensures y in m ==>
              var row := SalaryFold(items, m)[y];
              var last := Seqs.Last(items, SalaryAtYearSex(y, s));
              && row.year == m[y].year && row.activePop == m[y].activePop && row.rate == m[y].rate
              && (s in row.salary <==> s in m[y].salary || last.Some?)
              && (last.Some? ==> row.salary[s] == last.value.salary)
              && (last.None? && s in m[y].salary ==> row.salary[s] == m[y].salary[s])
  {
    if |items| > 0 {
      SalaryFoldSpec(items[..|items| - 1], m, y, s);
    }
  }

  function LabourInScope(c: string, range: YearRange): LabourRec -> bool {
    (r: LabourRec) => r.country == c && range.start <= r.year <= range.end
  }

  function SalaryInScope(c: string, range: YearRange): SalaryRec -> bool {
    (r: SalaryRec) => r.country == c && range.start <= r.year <= range.end
  }

  /** The records of country `c`, year `y` and sex `s`. */
  function LabourAt(c: string, y: int, s: string): LabourRec -> bool {
    (r: LabourRec) => r.country == c && r.year == y && r.sex == s
  }

  function SalaryAt(c: string, y: int, s: string): SalaryRec -> bool {
    (r: SalaryRec) => r.country == c && r.year == y && r.sex == s
  }

  /** Country `c` has a labour record for year `y`, and `y` is in the range. */
  predicate HasLabourAt(labour: seq<LabourRec>, c: string, range: YearRange, y: int) {
    range.start <= y <= range.end && exists k :: 0 <= k < |labour| && labour[k].country == c && labour[k].year == y
  }

  /**
   * A row of country `c` whose figures are those of the last labour record
   * and the last salary record for its year and each sex.
   */
  ghost predicate RowFrom(labour: seq<LabourRec>, salary: seq<SalaryRec>, c: string, pop: Population, row: YearRow) {
    && (forall s :: s in row.activePop <==> Seqs.Last(labour, LabourAt(c, row.year, s)).Some?)
    && (forall s :: s in row.rate <==> Seqs.Last(labour, LabourAt(c, row.year, s)).Some?)
    && (forall s :: s in row.activePop ==>
          row.activePop[s] == ActivePop(Seqs.Last(labour, LabourAt(c, row.year, s)).value, pop))
    && (forall s :: s in row.rate ==> row.rate[s] == Seqs.Last(labour, LabourAt(c, row.year, s)).value.rate)
    && (forall s :: s in row.salary <==> Seqs.Last(salary, SalaryAt(c, row.year, s)).Some?)
    && (forall s :: s in row.salary ==> row.salary[s] == Seqs.Last(salary, SalaryAt(c, row.year, s)).value.salary)
  }

  /** The grouped object before rows lacking a sex are dropped. */
  function Grouped(labour: seq<LabourRec>, salary: seq<SalaryRec>, c: string, range: YearRange,
                   pop: Population): map<int, YearRow> {
    SalaryFold(Seqs.Filter(salary, SalaryInScope(c, range)),
               LabourFold(Seqs.Filter(labour, LabourInScope(c, range)), pop))
  }

  /** The grouped object has a row for each year of the country in range, built from the last records. */
  lemma GroupedSpec(labour: seq<LabourRec>, salary: seq<SalaryRec>, c: string, range: YearRange,
                    pop: Population, y: int)
    ensures y in Grouped(labour, salary, c, range, pop) <==> HasLabourAt(labour, c, range, y)
    ensures y in Grouped(labour, salary, c, range, pop) ==>
              Grouped(labour, salary, c, range, pop)[y].year == y
              && RowFrom(labour, salary, c, pop, Grouped(labour, salary, c, range, pop)[y])
  {
    var fl := Seqs.Filter(labour, LabourInScope(c, range));
    var fs := Seqs.Filter(salary, SalaryInScope(c, range));
    var m := LabourFold(fl, pop);
    var g := Grouped(labour, salary, c, range, pop);
    LabourFoldSpec(fl, pop, y, MALE);
    SalaryFoldSpec(fs, m, y, MALE);
    if HasLabourAt(labour, c, range, y) {
      var k :| 0 <= k < |labour| && labour[k].country == c && labour[k].year == y;
      assert labour[k] in fl;
    }
    if HasYear(fl, y) {
      var k :| 0 <= k < |fl| && fl[k].year == y;
      assert LabourInScope(c, range)(fl[k]);
    }
    if y in g {
      forall s ensures
        && (s in g[y].activePop <==> Seqs.Last(labour, LabourAt(c, y, s)).Some?)
        && (s in g[y].rate <==> Seqs.Last(labour, LabourAt(c, y, s)).Some?)
        && (s in g[y].activePop ==> g[y].activePop[s] == ActivePop(Seqs.Last(labour, LabourAt(c, y, s)).value, pop))
        && (s in g[y].rate ==> g[y].rate[s] == Seqs.Last(labour, LabourAt(c, y, s)).value.rate)
        && (s in g[y].salary <==> Seqs.Last(salary, SalaryAt(c, y, s)).Some?)
        && (s in g[y].salary ==> g[y].salary[s] == Seqs.Last(salary, SalaryAt(c, y, s)).value.salary)
      {
        LabourFoldSpec(fl, pop, y, s);
        SalaryFoldSpec(fs, m, y, s);
        Seqs.LastOfFilter(labour, LabourInScope(c, range), AtYearSex(y, s), LabourAt(c, y, s));
        Seqs.LastOfFilter(salary, SalaryInScope(c, range), SalaryAtYearSex(y, s), SalaryAt(c, y, s));
      }
    }
  }

  predicate HasBothSexes(row: YearRow) {
    MALE in row.activePop && FEMALE in row.activePop
  }

  predicate HasRow(rows: seq<YearRow>, y: int) {
    exists k :: 0 <= k < |rows| && rows[k].year == y
  }

  /**
   * `processedData`: nothing unless both files gave records; otherwise one
   * row per year of the selected country in the selected range that has
   * participation figures for both sexes, ascending by year. Listing the
   * grouped rows by ascending year stands for `Object.values` followed by
   * the sort on `year`, which is a key of the object.
   */
  function ProcessedData(labour: seq<LabourRec>, salary: seq<SalaryRec>, c: string, range: YearRange,
                         pop: Population): (r: seq<YearRow>)
    ensures |labour| == 0 || |salary| == 0 ==> r == []
    ensures forall i, j :: 0 <= i < j < |r| ==> r[i].year < r[j].year
    ensures forall k :: 0 <= k < |r| ==> HasLabourAt(labour, c, range, r[k].year)
    ensures forall k :: 0 <= k < |r| ==> HasBothSexes(r[k]) && RowFrom(labour, salary, c, pop, r[k])
    ensures |labour| > 0 && |salary| > 0 ==>
              forall y :: (range.start <= y <= range.end
                           && Seqs.Last(labour, LabourAt(c, y, MALE)).Some?
                           && Seqs.Last(labour, LabourAt(c, y, FEMALE)).Some?) ==> HasRow(r, y)
  {
    if |labour| == 0 || |salary| == 0 then []
    else
      var g := Grouped(labour, salary, c, range, pop);
      var ys := AscendingSet(LabourYears(Seqs.Filter(labour, LabourInScope(c, range))));
      GroupedKeys(labour, salary, c, range, pop, ys);
      assert forall k :: 0 <= k < |ys| ==> ys[k] in g;
      var rows := seq(|ys|, k requires 0 <= k < |ys| => g[ys[k]]);
      var r := Seqs.Filter(rows, HasBothSexes);
      ProcessedFacts(labour, salary, c, range, pop, ys, rows, r);
      r
  }

  lemma GroupedKeys(labour: seq<LabourRec>, salary: seq<SalaryRec>, c: string, range: YearRange,
                    pop: Population, ys: seq<int>)
    requires forall y :: y in ys <==> y in LabourYears(Seqs.Filter(labour, LabourInScope(c, range)))
    ensures forall y :: y in ys <==> HasLabourAt(labour, c, range, y)
    ensures forall y :: y in ys <==> y in Grouped(labour, salary, c, range, pop)
  {
    var fl := Seqs.Filter(labour, LabourInScope(c, range));
    forall y ensures y in ys <==> HasLabourAt(labour, c, range, y) {
      GroupedSpec(labour, salary, c, range, pop, y);
      if y in LabourYears(fl) {
        var k :| 0 <= k < |fl| && LabourYears(fl)[k] == y;
        assert LabourInScope(c, range)(fl[k]);
        assert fl[k] in labour;
      }
      if HasLabourAt(labour, c, range, y) {
        var k :| 0 <= k < |labour| && labour[k].country == c && labour[k].year == y;
        assert labour[k] in fl;
        var j :| 0 <= j < |fl| && fl[j] == labour[k];
        assert LabourYears(fl)[j] == y;
      }
    }
    forall y ensures y in ys <==> y in Grouped(labour, salary, c, range, pop) {
      GroupedSpec(labour, salary, c, range, pop, y);
    }
  }

  lemma ProcessedFacts(labour: seq<LabourRec>, salary: seq<SalaryRec>, c: string, range: YearRange,
                       pop: Population, ys: seq<int>, rows: seq<YearRow>, r: seq<YearRow>)
    requires forall i, j :: 0 <= i < j < |ys| ==> ys[i] < ys[j]
    requires forall y :: y in ys <==> HasLabourAt(labour, c, range, y)
    requires forall y :: y in ys <==> y in Grouped(labour, salary, c, range, pop)
    requires |rows| == |ys|
    requires forall k :: 0 <= k < |ys| ==> (ys[k] in Grouped(labour, salary, c, range, pop)
                                          && rows[k] == Grouped(labour, salary, c, range, pop)[ys[k]])
    requires r == Seqs.Filter(rows, HasBothSexes)
    ensures forall i, j :: 0 <= i < j < |r| ==> r[i].year < r[j].year
    ensures forall k :: 0 <= k < |r| ==> HasLabourAt(labour, c, range, r[k].year)
    ensures forall k :: 0 <= k < |r| ==> HasBothSexes(r[k]) && RowFrom(labour, salary, c, pop, r[k])
    ensures forall y :: (range.start <= y <= range.end
                         && Seqs.Last(labour, LabourAt(c, y, MALE)).Some?
                         && Seqs.Last(labour, LabourAt(c, y, FEMALE)).Some?) ==> HasRow(r, y)
  {
    forall k | 0 <= k < |rows|
      ensures rows[k].year == ys[k] && HasLabourAt(labour, c, range, rows[k].year)
              && RowFrom(labour, salary, c, pop, rows[k])
    {
      GroupedSpec(labour, salary, c, range, pop, ys[k]);
    }
    RowsFiltered(rows, r);
    forall y | (range.start <= y <= range.end
                && Seqs.Last(labour, LabourAt(c, y, MALE)).Some?
                && Seqs.Last(labour, LabourAt(c, y, FEMALE)).Some?)
      ensures HasRow(r, y)
    {
      RowPresent(labour, salary, c, range, pop, ys, rows, r, y);
    }
  }

  /** Dropping rows keeps years increasing and keeps each row's own facts. */
  lemma RowsFiltered(rows: seq<YearRow>, r: seq<YearRow>)
    requires forall i, j :: 0 <= i < j < |rows| ==> rows[i].year < rows[j].year
    requires r == Seqs.Filter(rows, HasBothSexes)
    ensures forall i, j :: 0 <= i < j < |r| ==> r[i].year < r[j].year
    ensures forall k :: 0 <= k < |r| ==> r[k] in rows && HasBothSexes(r[k])
  {
    Seqs.FilterIsSubseq(rows, HasBothSexes);
    SortedSubseq(rows, r);
  }

  lemma RowPresent(labour: seq<LabourRec>, salary: seq<SalaryRec>, c: string, range: YearRange,
                   pop: Population, ys: seq<int>, rows: seq<YearRow>, r: seq<YearRow>, y: int)
    requires forall y :: y in ys <==> HasLabourAt(labour, c, range, y)
    requires |rows| == |ys|
    requires forall k :: 0 <= k < |ys| ==> (ys[k] in Grouped(labour, salary, c, range, pop)
                                          && rows[k] == Grouped(labour, salary, c, range, pop)[ys[k]])
    requires r == Seqs.Filter(rows, HasBothSexes)
    requires range.start <= y <= range.end
    requires Seqs.Last(labour, LabourAt(c, y, MALE)).Some? && Seqs.Last(labour, LabourAt(c, y, FEMALE)).Some?
    ensures HasRow(r, y)
  {
    var last := Seqs.Last(labour, LabourAt(c, y, MALE)).value;
    assert LabourAt(c, y, MALE)(last);
    var k :| 0 <= k < |labour| && labour[k] == last;
    assert HasLabourAt(labour, c, range, y);
    var i :| 0 <= i < |ys| && ys[i] == y;
    GroupedSpec(labour, salary, c, range, pop, y);
    assert HasBothSexes(rows[i]);
    assert rows[i] in r;
    var j :| 0 <= j < |r| && r[j] == rows[i];
  }

  /** A subsequence of rows with strictly increasing years keeps them strictly increasing. */
  lemma {:induction false} SortedSubseq(rows: seq<YearRow>, r: seq<YearRow>)
    requires forall i, j :: 0 <= i < j < |rows| ==> rows[i].year < rows[j].year
    requires Seqs.IsSubseq(r, rows)
    ensures forall i, j :: 0 <= i < j < |r| ==> r[i].year < r[j].year
    decreases |rows|
  {
    if |r| > 0 {
      var rows0 := rows[..|rows| - 1];
      if r[|r| - 1] == rows[|rows| - 1] {
        var r0 := r[..|r| - 1];
        SortedSubseq(rows0, r0);
        Seqs.SubseqElements(r0, rows0);
        forall i | 0 <= i < |r0| ensures r[i].year < r[|r| - 1].year {
          var j :| 0 <= j < |rows0| && rows0[j] == r0[i];
        }
        assert forall i :: 0 <= i < |r0| ==> r[i] == r0[i];
      } else {
        SortedSubseq(rows0, r);
      }
    }
  }

  // ------------------------------------------------------------------
  // Trend figure
  // ------------------------------------------------------------------

  /** `calculateTrend`: 0 when either value is 0, else the change in percent of the first. */
  function Trend(latest: real, first: real): (r: real)
    ensures latest == 0.0 || first == 0.0 ==> r == 0.0
    ensures latest != 0.0 && first != 0.0 ==> r * first == (latest - first) * 100.0
    ensures latest != 0.0 && first > 0.0 ==> (r > 0.0 <==> latest > first)
  {
    if latest == 0.0 || first == 0.0 then 0.0
    else
      var q := (latest - first) / first;
      assert q * first == latest - first;
      assert first > 0.0 ==> (q > 0.0 <==> latest > first);
      q * 100.0
  }

  /** The trend is the percentage change the summary figures use, whenever both values are non-zero. */
  lemma TrendIsChange(latest: real, first: real)
    requires latest != 0.0 && first != 0.0
    ensures Summary.Change(latest, first) == Summary.Finite(Trend(latest, first))
  {
    var t := Trend(latest, first);
    assert t * first == (latest - first) * 100.0;
    assert ((latest - first) * 100.0) / first == t;
  }
}
