/**
 * The informality-analysis panel: its table of informality rates by
 * country, year and sex (given to the model as a parameter) is pivoted
 * into one object per country for the selected year, turned into
 * female-minus-male gaps, and read into a two-year trend table of the
 * `Total` rates.
 */
module Informality {
  import opened Wrappers
  import Seqs
  import opened JsObject

  /** One entry of the panel's rate table; years are strings, as in the table. */
  datatype Rate = Rate(country: string, year: string, sex: string, rate: real)

  /** One pivoted country: the rate stored under each sex label. */
  datatype CountryRates = CountryRates(country: string, rates: map<string, real>)

  predicate InYear(year: string, r: Rate) { r.year == year }

  function YearData(data: seq<Rate>, year: string): (r: seq<Rate>)
    ensures forall x :: x in r <==> x in data && x.year == year
  {
    Seqs.Filter(data, (x: Rate) => InYear(year, x))
  }

  function CountriesOf(rows: seq<Rate>): (r: seq<string>)
    ensures |r| == |rows| && forall k :: 0 <= k < |r| ==> r[k] == rows[k].country
  {
    seq(|rows|, k requires 0 <= k < |rows| => rows[k].country)
  }

  predicate HasSex(rows: seq<Rate>, c: string, s: string) {
    exists k :: 0 <= k < |rows| && rows[k].country == c && rows[k].sex == s
  }

  /** `grouped[country][sex] = rate` over the rows, a later row overwriting an earlier one. */
  function SexRates(rows: seq<Rate>, c: string): (r: map<string, real>)
    ensures forall s :: s in r <==> HasSex(rows, c, s)
  {
    if |rows| == 0 then map[]
    else
      var n := |rows| - 1;
      var rest := SexRates(rows[..n], c);
      assert forall k :: 0 <= k < n ==> rows[..n][k] == rows[k];
      if rows[n].country == c then rest[rows[n].sex := rows[n].rate] else rest
  }

  predicate IsFor(c: string, s: string, r: Rate) { r.country == c && r.sex == s }

  function For(c: string, s: string): Rate -> bool { (r: Rate) => IsFor(c, s, r) }

  /** The rate stored for a sex is that of the last row for the country and that sex. */
  lemma {:induction false} SexRatesLastWins(rows: seq<Rate>, c: string, s: string)
    ensures var last := Seqs.Last(rows, For(c, s));
            (s in SexRates(rows, c) <==> last.Some?)
            && (last.Some? ==> SexRates(rows, c)[s] == last.value.rate)
  {
    if |rows| > 0 {
      var n := |rows| - 1;
      SexRatesLastWins(rows[..n], c, s);
    }
  }

  /**
   * `processedData`: one object per country with a row in the selected
   * year, listed in `Object.values` order, each holding every sex's rate.
   */
  function ProcessedData(data: seq<Rate>, year: string): (r: seq<CountryRates>)
    ensures Seqs.Distinct(CountriesOfRates(r))
    ensures forall c :: c in CountriesOfRates(r) <==> exists x :: x in data && x.year == year && x.country == c
    ensures forall i :: 0 <= i < |r| ==> r[i].rates == SexRates(YearData(data, year), r[i].country)
  {
    var rows := YearData(data, year);
    var order := StringKeys(CountriesOf(rows));
    var r := seq(|order|, i requires 0 <= i < |order| => CountryRates(order[i], SexRates(rows, order[i])));
    assert CountriesOfRates(r) == order;
    YearCountries(data, year, order);
    r
  }

  /** A key list covering exactly the year's countries names the countries with a row in that year. */
  lemma YearCountries(data: seq<Rate>, year: string, order: seq<string>)
    requires forall k :: 0 <= k < |order| ==> order[k] in CountriesOf(YearData(data, year))
    requires forall k :: 0 <= k < |YearData(data, year)| ==> CountriesOf(YearData(data, year))[k] in order
    ensures forall c :: c in order <==> exists x :: x in data && x.year == year && x.country == c
  {
    var rows := YearData(data, year);
    forall c | c in order ensures exists x :: x in data && x.year == year && x.country == c {
      var i :| 0 <= i < |order| && order[i] == c;
      var k :| 0 <= k < |rows| && CountriesOf(rows)[k] == c;
      assert rows[k] in data && rows[k].year == year;
    }
    forall c | exists x :: x in data && x.year == year && x.country == c ensures c in order {
      var x :| x in data && x.year == year && x.country == c;
      var k :| 0 <= k < |rows| && rows[k] == x;
      assert CountriesOf(rows)[k] == c;
    }
  }

  function CountriesOfRates(rs: seq<CountryRates>): (r: seq<string>)
    ensures |r| == |rs| && forall k :: 0 <= k < |r| ==> r[k] == rs[k].country
  {
    seq(|rs|, k requires 0 <= k < |rs| => rs[k].country)
  }

  /** Without integer-like country names the countries come in order of first appearance. */
  lemma ProcessedOrderIsFirstSeen(data: seq<Rate>, year: string)
    requires forall k :: 0 <= k < |data| ==> !IsIndexKey(data[k].country)
    ensures CountriesOfRates(ProcessedData(data, year)) == Seqs.Dedup(CountriesOf(YearData(data, year)))
  {
    var cs := CountriesOf(YearData(data, year));
    forall k | 0 <= k < |cs| ensures !IsIndexKey(cs[k]) {
      assert YearData(data, year)[k] in data;
    }
    StringKeysInsertionOrder(cs);
  }

  /** One bar group of the gender-gap chart. */
  datatype GapEntry = GapEntry(country: string, male: real, female: real, gap: real)

  /** `item[sex] || 0`. */
  function RateOrZero(rates: map<string, real>, s: string): real {
    if s in rates then rates[s] else 0.0
  }

  /** `genderGapData`: per pivoted country, the two rates and female minus male. */
  function GenderGapData(processed: seq<CountryRates>): (r: seq<GapEntry>)
    ensures |r| == |processed|
    ensures forall i :: 0 <= i < |r| ==>
              && r[i].country == processed[i].country
              && r[i].male == RateOrZero(processed[i].rates, "Male")
              && r[i].female == RateOrZero(processed[i].rates, "Female")
              && r[i].gap == r[i].female - r[i].male
  {
    seq(|processed|, i requires 0 <= i < |processed| =>
      var m := RateOrZero(processed[i].rates, "Male");
      var f := RateOrZero(processed[i].rates, "Female");
      GapEntry(processed[i].country, m, f, f - m))
  }

  /** The rate of the last row for the country, year and sex, or 0 without one. */
  function LastRate(data: seq<Rate>, year: string, c: string, s: string): real {
    match Seqs.Last(YearData(data, year), For(c, s))
    case Some(x) => x.rate
    case None => 0.0
  }

  /** End to end: each gap entry holds the year's last male and female rates and their difference. */
  lemma GapFromRecords(data: seq<Rate>, year: string)
    ensures var g := GenderGapData(ProcessedData(data, year));
            forall i :: 0 <= i < |g| ==>
              && g[i].male == LastRate(data, year, g[i].country, "Male")
              && g[i].female == LastRate(data, year, g[i].country, "Female")
              && g[i].gap == LastRate(data, year, g[i].country, "Female") - LastRate(data, year, g[i].country, "Male")
  {
    var p := ProcessedData(data, year);
    var g := GenderGapData(p);
    forall i | 0 <= i < |g|
      ensures && g[i].male == LastRate(data, year, g[i].country, "Male")
              && g[i].female == LastRate(data, year, g[i].country, "Female")
    {
      SexRatesLastWins(YearData(data, year), p[i].country, "Male");
      SexRatesLastWins(YearData(data, year), p[i].country, "Female");
    }
  }

  // ------------------------------------------------------------------
  // Two-year trend of the Total rates
  // ------------------------------------------------------------------

  function TrendCountries(): seq<string> {
    ["Argentina", "Brasil", "Chile", "Colombia", "Ecuador", "Perú"]
  }

  /** One year of the trend chart: the `Total` rate of every country that has one. */
  datatype TrendRow = TrendRow(year: string, values: map<string, real>)

  predicate TotalAt(c: string, y: string, r: Rate) { r.country == c && r.year == y && r.sex == "Total" }

  function TotalAtP(c: string, y: string): Rate -> bool { (r: Rate) => TotalAt(c, y, r) }

  /** The `forEach` over the countries, `result[country] = find(...).rate` when found. */
  function TrendValues(data: seq<Rate>, y: string, cs: seq<string>): (r: map<string, real>)
    ensures forall c :: c in r <==> c in cs && Seqs.Find(data, TotalAtP(c, y)).Some?
    ensures forall c :: c in r ==> r[c] == Seqs.Find(data, TotalAtP(c, y)).value.rate
  {
    if |cs| == 0 then map[]
    else
      var n := |cs| - 1;
      var rest := TrendValues(data, y, cs[..n]);
      assert forall c :: c in cs <==> c in cs[..n] || c == cs[n] by {
        assert cs == cs[..n] + [cs[n]];
      }
      match Seqs.Find(data, TotalAtP(cs[n], y))
      case Some(x) => rest[cs[n] := x.rate]
      case None => rest
  }

  /**
   * A trend row holds, for each listed country with a `Total` row in its
   * year, the rate of the first such row, and nothing else.
   */
  ghost predicate TrendRowOk(data: seq<Rate>, row: TrendRow) {
    && (forall c :: c in row.values <==> c in TrendCountries() && exists k :: 0 <= k < |data| && TotalAt(c, row.year, data[k]))
    && (forall c :: c in row.values ==> FirstTotalRate(data, c, row.year, row.values[c]))
  }

  /** `v` is the rate of the first `Total` row of `c` in year `y`. */
  predicate FirstTotalRate(data: seq<Rate>, c: string, y: string, v: real) {
    exists k :: && 0 <= k < |data| && TotalAt(c, y, data[k]) && v == data[k].rate
                && forall j :: 0 <= j < k ==> !TotalAt(c, y, data[j])
  }

  /** `trendsData`: one row per year, 2023 then 2024. */
  function TrendsData(data: seq<Rate>): (r: seq<TrendRow>)
    ensures |r| == 2 && r[0].year == "2023" && r[1].year == "2024"
    ensures TrendRowOk(data, r[0]) && TrendRowOk(data, r[1])
  {
    var r0 := TrendRow("2023", TrendValues(data, "2023", TrendCountries()));
    var r1 := TrendRow("2024", TrendValues(data, "2024", TrendCountries()));
    TrendRowFacts(data, r0);
    TrendRowFacts(data, r1);
    [r0, r1]
  }

  lemma TrendRowFacts(data: seq<Rate>, row: TrendRow)
    requires row.values == TrendValues(data, row.year, TrendCountries())
    ensures TrendRowOk(data, row)
  {
    forall c | c in row.values
      ensures FirstTotalRate(data, c, row.year, row.values[c])
    {
      var p := TotalAtP(c, row.year);
      var f := Seqs.Find(data, p);
      var k :| 0 <= k < |data| && data[k] == f.value && p(data[k]) && forall j :: 0 <= j < k ==> !p(data[j]);
      assert forall j :: 0 <= j < k ==> !TotalAt(c, row.year, data[j]);
    }
    forall c | c in TrendCountries() && exists k :: 0 <= k < |data| && TotalAt(c, row.year, data[k])
      ensures c in row.values
    {
      var k :| 0 <= k < |data| && TotalAt(c, row.year, data[k]);
      assert TotalAtP(c, row.year)(data[k]);
    }
  }

  /**
   * The trend table reads the first `Total` row while the pivot keeps the
   * last: with two `Total` rows for one country and year they disagree.
   */
  lemma FirstAndLastDiffer()
    ensures var data := [Rate("Chile", "2024", "Total", 1.0), Rate("Chile", "2024", "Total", 2.0)];
            && "Chile" in TrendsData(data)[1].values && TrendsData(data)[1].values["Chile"] == 1.0
            && "Total" in SexRates(YearData(data, "2024"), "Chile")
            && SexRates(YearData(data, "2024"), "Chile")["Total"] == 2.0
  {
    var data := [Rate("Chile", "2024", "Total", 1.0), Rate("Chile", "2024", "Total", 2.0)];
    FirstTotalWins(data);
    LastTotalWins(data);
  }

  lemma FirstTotalWins(data: seq<Rate>)
    requires data == [Rate("Chile", "2024", "Total", 1.0), Rate("Chile", "2024", "Total", 2.0)]
    ensures "Chile" in TrendsData(data)[1].values && TrendsData(data)[1].values["Chile"] == 1.0
  {
    var p := TotalAtP("Chile", "2024");
    assert p(data[0]);
    assert Seqs.Find(data, p) == Some(data[0]);
    assert TrendCountries()[2] == "Chile";
    var v := TrendValues(data, "2024", TrendCountries());
    assert "Chile" in v && v["Chile"] == 1.0;
    assert TrendsData(data)[1].values == v;
  }

  lemma LastTotalWins(data: seq<Rate>)
    requires data == [Rate("Chile", "2024", "Total", 1.0), Rate("Chile", "2024", "Total", 2.0)]
    ensures "Total" in SexRates(YearData(data, "2024"), "Chile")
    ensures SexRates(YearData(data, "2024"), "Chile")["Total"] == 2.0
  {
    assert YearData(data, "2024") == data by {
      Seqs.FilterAll(data, (x: Rate) => InYear("2024", x));
    }
    assert data[1].country == "Chile" && data[1].sex == "Total";
    assert SexRates(data, "Chile") == SexRates(data[..1], "Chile")["Total" := 2.0];
  }
}
