/**
 * The small computations inside the chart components: the per-country
 * period averages and the last-year pie of the distribution panel, the
 * radar chart's transposition of its per-country records into
 * per-indicator rows, and the choropleth's year list, year reset and
 * parallel location/value/label arrays.
 */
module Charts {
  import opened Wrappers
  import Seqs
  import opened Sorting
  import opened Records
  import Reshape
  import Joins
  import Summary

  type ChartRow = Reshape.ChartRow

  /** The twelve fill colours the charts cycle through. */
  function Palette(): seq<string> {
    ["#3B82F6", "#10B981", "#EF4444", "#F59E0B", "#8B5CF6", "#EC4899",
     "#6366F1", "#F97316", "#06B6D4", "#D946EF", "#22C55E", "#EAB308"]
  }

  // ------------------------------------------------------------------
  // Period averages
  // ------------------------------------------------------------------

  /** `d[country] !== undefined`. */
  predicate HasValue(c: string, row: ChartRow) { c in row.values }

  /** How many rows carry a value for `c`. */
  function ColumnCount(rows: seq<ChartRow>, c: string): nat {
    if |rows| == 0 then 0
    else
      var n := |rows| - 1;
      ColumnCount(rows[..n], c) + (if c in rows[n].values then 1 else 0)
  }

  /** The sum of those values. */
  function ColumnSum(rows: seq<ChartRow>, c: string): real {
    if |rows| == 0 then 0.0
    else
      var n := |rows| - 1;
      ColumnSum(rows[..n], c) + (if c in rows[n].values then rows[n].values[c] else 0.0)
  }

  /** The count is the length of `chartData.filter(d => d[country] !== undefined)`. */
  lemma {:induction false} ColumnCountIsFilterLength(rows: seq<ChartRow>, c: string)
    ensures ColumnCount(rows, c) == |Seqs.Filter(rows, (row: ChartRow) => HasValue(c, row))|
  {
    if |rows| > 0 {
      ColumnCountIsFilterLength(rows[..|rows| - 1], c);
    }
  }

  /** Every value the column carries lies in `[lo, hi]`. */
  predicate ColumnBounded(rows: seq<ChartRow>, c: string, lo: real, hi: real) {
    forall k :: 0 <= k < |rows| && c in rows[k].values ==> lo <= rows[k].values[c] <= hi
  }

  lemma {:induction false} ColumnSumBounds(rows: seq<ChartRow>, c: string, lo: real, hi: real)
    requires ColumnBounded(rows, c, lo, hi)
    ensures Summary.Repeat(ColumnCount(rows, c), lo) <= ColumnSum(rows, c)
    ensures ColumnSum(rows, c) <= Summary.Repeat(ColumnCount(rows, c), hi)
  {
    if |rows| > 0 {
      var n := |rows| - 1;
      assert ColumnBounded(rows[..n], c, lo, hi) by {
        assert forall k :: 0 <= k < n ==> rows[..n][k] == rows[k];
      }
      ColumnSumBounds(rows[..n], c, lo, hi);
    }
  }

  /** The mean of a country's values over the rows that have one, or 0 when none does. */
  function Mean(rows: seq<ChartRow>, c: string): (r: real)
    ensures ColumnCount(rows, c) == 0 ==> r == 0.0
    ensures ColumnCount(rows, c) > 0 ==> r * ColumnCount(rows, c) as real == ColumnSum(rows, c)
  {
    var n := ColumnCount(rows, c);
    if n > 0 then ColumnSum(rows, c) / n as real else 0.0
  }

  /** A mean never leaves the range of the values it averages. */
  lemma MeanWithinBounds(rows: seq<ChartRow>, c: string, lo: real, hi: real)
    requires ColumnBounded(rows, c, lo, hi) && ColumnCount(rows, c) > 0
    ensures lo <= Mean(rows, c) <= hi
  {
    ColumnSumBounds(rows, c, lo, hi);
    Summary.MeanBounds(ColumnSum(rows, c), ColumnCount(rows, c), lo, hi);
  }

  /** Rows without a value for the country do not move its mean. */
  lemma {:induction false} MeanIgnoresRowsWithout(rows: seq<ChartRow>, extra: ChartRow, c: string)
    requires c !in extra.values
    ensures Mean(rows + [extra], c) == Mean(rows, c)
  {
    assert (rows + [extra])[..|rows|] == rows;
  }

  /** One bar of the "average over the period" chart. */
  datatype AverageEntry = AverageEntry(country: string, average: real)

  /** `averageData`: one entry per selected country, in selection order. */
  function AverageData(chart: seq<ChartRow>, selected: seq<string>): (r: seq<AverageEntry>)
    ensures |r| == |selected|
    ensures forall i :: 0 <= i < |r| ==> r[i].country == selected[i] && r[i].average == Mean(chart, selected[i])
  {
    seq(|selected|, i requires 0 <= i < |selected| => AverageEntry(selected[i], Mean(chart, selected[i])))
  }

  // ------------------------------------------------------------------
  // Last-year pie
  // ------------------------------------------------------------------

  /** One pie slice: a selected country, its value and its colour. */
  datatype Slice = Slice(name: string, value: real, fill: string)

  /** `row[country] || 0`. */
  function ValueOrZero(values: map<string, real>, c: string): real {
    if c in values then values[c] else 0.0
  }

  /** Every selected country's slice before the positivity filter. */
  function AllSlices(last: map<string, real>, selected: seq<string>): (r: seq<Slice>)
    ensures |r| == |selected|
    ensures forall i :: 0 <= i < |r| ==>
              && r[i].name == selected[i]
              && r[i].fill == Palette()[i % 12]
              && (r[i].value != 0.0 ==> selected[i] in last && last[selected[i]] == r[i].value)
              && (selected[i] in last ==> r[i].value == last[selected[i]])
  {
    seq(|selected|, i requires 0 <= i < |selected| =>
      Slice(selected[i], ValueOrZero(last, selected[i]), Palette()[i % 12]))
  }

  predicate Positive(s: Slice) { s.value > 0.0 }

  /**
   * `pieData`: the slices of the last row's positive values, in selection
   * order, each coloured by its country's position in the selection.
   */
  function PieData(chart: seq<ChartRow>, selected: seq<string>): (r: seq<Slice>)
    requires |chart| > 0
    ensures Seqs.IsSubseq(r, AllSlices(chart[|chart| - 1].values, selected))
    ensures forall k :: 0 <= k < |r| ==> r[k].value > 0.0
    ensures forall i :: 0 <= i < |selected| ==>
              (var v := ValueOrZero(chart[|chart| - 1].values, selected[i]);
               Slice(selected[i], v, Palette()[i % 12]) in r <==> v > 0.0)
  {
    var all := AllSlices(chart[|chart| - 1].values, selected);
    var r := Seqs.Filter(all, Positive);
    Seqs.FilterIsSubseq(all, Positive);
    r
  }

  /** What the distribution panel draws, when it draws anything. */
  datatype Distribution = Distribution(averages: seq<AverageEntry>, pie: seq<Slice>)

  /** The panel renders nothing without a selection or without rows. */
  function DistributionCharts(chart: seq<ChartRow>, selected: seq<string>): (r: Option<Distribution>)
    ensures r.None? <==> |selected| == 0 || |chart| == 0
    ensures r.Some? ==> r.value.averages == AverageData(chart, selected) && r.value.pie == PieData(chart, selected)
  {
    if |selected| == 0 || |chart| == 0 then None
    else Some(Distribution(AverageData(chart, selected), PieData(chart, selected)))
  }

  /** The stand-alone pie chart: the same slices, under the same guard. */
  function PieChart(chart: seq<ChartRow>, selected: seq<string>): (r: Option<seq<Slice>>)
    ensures r.None? <==> |selected| == 0 || |chart| == 0
    ensures r.Some? ==> r == Some(DistributionCharts(chart, selected).value.pie)
  {
    if |selected| == 0 || |chart| == 0 then None
    else Some(PieData(chart, selected))
  }

  /** With distinct selected names, a pie slice never repeats a country. */
  lemma {:induction false} PieNamesDistinct(chart: seq<ChartRow>, selected: seq<string>)
    requires |chart| > 0 && Seqs.Distinct(selected)
    ensures Seqs.Distinct(PieData(chart, selected))
  {
    var all := AllSlices(chart[|chart| - 1].values, selected);
    assert Seqs.Distinct(all) by {
      forall i, j | 0 <= i < j < |all| ensures all[i] != all[j] {
        assert all[i].name == selected[i] && all[j].name == selected[j];
      }
    }
    Seqs.SubseqDistinct(PieData(chart, selected), all);
  }

  // ------------------------------------------------------------------
  // Radar transposition
  // ------------------------------------------------------------------

  /** The keys of a radar record other than `country`, in the order they were written. */
  function Indicators(): seq<string> {
    ["employment", "unemployment", "informal", "laborForce", "salary"]
  }

  /** `record[key] || 0`. */
  function Indicator(rec: Joins.RadarRow, key: string): real {
    match key
    case "employment" => rec.employment
    case "unemployment" => rec.unemployment
    case "informal" => rec.informal
    case "laborForce" => rec.laborForce
    case "salary" => rec.salary
    case _ => 0.0
  }

  /** One row of the transposed table: an indicator and each country's value of it. */
  datatype IndicatorRow = IndicatorRow(indicator: string, values: map<string, real>)

  predicate NamedIn(recs: seq<Joins.RadarRow>, c: string) {
    exists j :: 0 <= j < |recs| && recs[j].country == c
  }

  /** The last record of the country `c`, which the spread leaves in place. */
  predicate LastOf(recs: seq<Joins.RadarRow>, c: string, j: int) {
    && 0 <= j < |recs| && recs[j].country == c
    && forall k :: j < k < |recs| ==> recs[k].country != c
  }

  /** The `reduce` that spreads `{[country]: record[key] || 0}` into one object. */
  function Column(recs: seq<Joins.RadarRow>, key: string): (r: map<string, real>)
    ensures forall c :: c in r <==> NamedIn(recs, c)
  {
    if |recs| == 0 then map[]
    else
      var n := |recs| - 1;
      assert forall k :: 0 <= k < n ==> recs[..n][k] == recs[k];
      Column(recs[..n], key)[recs[n].country := Indicator(recs[n], key)]
  }

  /** A country's entry in the column is its last record's value. */
  lemma {:induction false} ColumnLastWins(recs: seq<Joins.RadarRow>, key: string, j: int)
    requires 0 <= j < |recs| && LastOf(recs, recs[j].country, j)
    ensures Column(recs, key)[recs[j].country] == Indicator(recs[j], key)
  {
    var n := |recs| - 1;
    if j < n {
      var c := recs[j].country;
      assert recs[n].country != c;
      assert LastOf(recs[..n], c, j) by {
        assert forall k :: 0 <= k < n ==> recs[..n][k] == recs[k];
      }
      ColumnLastWins(recs[..n], key, j);
    }
  }

  /** The radar chart's table: one row per indicator, every country's value in it. */
  function Transpose(recs: seq<Joins.RadarRow>): (r: seq<IndicatorRow>)
    requires |recs| > 0
    ensures |r| == |Indicators()|
    ensures forall i :: 0 <= i < |r| ==> r[i].indicator == Indicators()[i]
    ensures forall i, c :: 0 <= i < |r| ==> (c in r[i].values <==> NamedIn(recs, c))
  {
    seq(|Indicators()|, i requires 0 <= i < |Indicators()| => IndicatorRow(Indicators()[i], Column(recs, Indicators()[i])))
  }

  /** The radar component renders nothing for no records. */
  function RadarChart(recs: seq<Joins.RadarRow>): (r: Option<seq<IndicatorRow>>)
    ensures r.None? <==> |recs| == 0
    ensures r.Some? ==> r.value == Transpose(recs)
  {
    if |recs| == 0 then None else Some(Transpose(recs))
  }

  /** Read one country's record back out of the transposed table. */
  function ReadBack(table: seq<IndicatorRow>, c: string): Joins.RadarRow
    requires |table| == 5
    requires forall i :: 0 <= i < 5 ==> c in table[i].values
  {
    Joins.RadarRow(c, table[0].values[c], table[1].values[c], table[2].values[c],
                   table[3].values[c], table[4].values[c])
  }

  /**
   * Transposing and reading back a country recovers its last record: with
   * distinct country names, every record survives the transposition.
   */
  lemma TransposeRoundTrip(recs: seq<Joins.RadarRow>, j: int)
    requires 0 <= j < |recs| && LastOf(recs, recs[j].country, j)
    ensures ReadBack(Transpose(recs), recs[j].country) == recs[j]
  {
    var t := Transpose(recs);
    var c := recs[j].country;
    assert NamedIn(recs, c);
    forall i | 0 <= i < 5 ensures t[i].values[c] == Indicator(recs[j], Indicators()[i]) {
      ColumnLastWins(recs, Indicators()[i], j);
    }
  }

  // ------------------------------------------------------------------
  // Choropleth of informal employment
  // ------------------------------------------------------------------

  predicate HasYearIn(data: seq<Obs>, y: int) {
    exists k :: 0 <= k < |data| && data[k].year == y
  }

  /** `availableYears`: each year once, newest first. */
  function AvailableYears(data: seq<Obs>): (r: seq<int>)
    ensures forall i, j :: 0 <= i < j < |r| ==> r[i] > r[j]
    ensures forall y :: y in r <==> HasYearIn(data, y)
    ensures |data| == 0 ==> r == []
  {
    var ys := YearsOf(data);
    var r := DescendingSet(ys);
    assert forall y :: y in r <==> HasYearIn(data, y) by {
      forall y | HasYearIn(data, y) ensures y in r {
        var k :| 0 <= k < |data| && data[k].year == y;
        assert ys[k] == y;
      }
      forall y | y in r ensures HasYearIn(data, y) {
        var i :| 0 <= i < |r| && r[i] == y;
        var k :| 0 <= k < |ys| && ys[k] == y;
      }
    }
    r
  }

  /**
   * The effect that resets the selected year: a year outside a non-empty
   * list is replaced by the list's first, newest, entry.
   */
  function ResetYear(available: seq<int>, selected: int): (r: int)
    ensures |available| > 0 ==> r in available
    ensures selected in available || |available| == 0 ==> r == selected
    ensures selected !in available && |available| > 0 ==> r == available[0]
  {
    if |available| > 0 && selected !in available then available[0] else selected
  }

  /** After a reset the year is the newest available one or a year that has data. */
  lemma ResetYearFacts(data: seq<Obs>, selected: int)
    ensures var r := ResetYear(AvailableYears(data), selected);
            (|data| > 0 ==> HasYearIn(data, r))
            && (HasYearIn(data, selected) ==> r == selected)
            && ResetYear(AvailableYears(data), r) == r
  {
    var av := AvailableYears(data);
    if |data| > 0 {
      assert HasYearIn(data, data[0].year);
      assert data[0].year in av;
    }
  }

  /** The hover label of one map region: the country, the year and the rate. */
  datatype Hover = Hover(country: string, year: int, rate: real)

  /** `mapData`: three parallel arrays, one entry per mapped row of the year. */
  datatype MapData = MapData(locations: seq<string>, z: seq<real>, text: seq<Hover>)

  /** The rows that reach the map: the chosen year's, for a country the ISO-3 table knows. */
  predicate OnMap(year: int, r: Obs) {
    r.year == year && Iso3(r.country).Some?
  }

  /** The arrays grow by one entry per qualifying row, in row order. */
  function Plot(data: seq<Obs>, year: int): (r: MapData)
    ensures |r.locations| == |r.z| == |r.text|
    ensures |r.locations| == |Seqs.Filter(data, (o: Obs) => OnMap(year, o))|
    ensures forall k :: 0 <= k < |r.locations| ==>
              PlottedFrom(data, year, r.locations[k], r.z[k], r.text[k])
  {
    if |data| == 0 then MapData([], [], [])
    else
      var n := |data| - 1;
      var rest := Plot(data[..n], year);
      assert data == data[..n] + [data[n]];
      PlottedFromPrefix(data, year, rest);
      var o := data[n];
      if OnMap(year, o) then
        assert PlottedFrom(data, year, Iso3(o.country).value, o.value, Hover(o.country, o.year, o.value));
        MapData(rest.locations + [Iso3(o.country).value], rest.z + [o.value],
                rest.text + [Hover(o.country, o.year, o.value)])
      else rest
  }

  /** One map entry comes from a single qualifying row: its code, its value and its label. */
  predicate PlottedFrom(data: seq<Obs>, year: int, loc: string, z: real, text: Hover) {
    exists j :: 0 <= j < |data| && OnMap(year, data[j]) && Iso3(data[j].country) == Some(loc)
                && z == data[j].value && text == Hover(data[j].country, data[j].year, data[j].value)
  }

  lemma PlottedFromPrefix(data: seq<Obs>, year: int, rest: MapData)
    requires |data| > 0 && |rest.locations| == |rest.z| == |rest.text|
    requires forall k :: 0 <= k < |rest.locations| ==>
               PlottedFrom(data[..|data| - 1], year, rest.locations[k], rest.z[k], rest.text[k])
    ensures forall k :: 0 <= k < |rest.locations| ==>
              PlottedFrom(data, year, rest.locations[k], rest.z[k], rest.text[k])
  {
    var n := |data| - 1;
    forall k | 0 <= k < |rest.locations|
      ensures PlottedFrom(data, year, rest.locations[k], rest.z[k], rest.text[k])
    {
      var j :| 0 <= j < n && OnMap(year, data[..n][j]) && Iso3(data[..n][j].country) == Some(rest.locations[k])
               && rest.z[k] == data[..n][j].value
               && rest.text[k] == Hover(data[..n][j].country, data[..n][j].year, data[..n][j].value);
      assert data[..n][j] == data[j];
    }
  }

  /** Every qualifying row's code is on the map. */
  lemma {:induction false} PlotComplete(data: seq<Obs>, year: int, k: int)
    requires 0 <= k < |data| && OnMap(year, data[k])
    ensures Iso3(data[k].country).value in Plot(data, year).locations
  {
    var n := |data| - 1;
    if k < n {
      assert data[..n][k] == data[k];
      PlotComplete(data[..n], year, k);
    }
  }

  /** No two rows of the same year name the same country. */
  predicate OnePerCountryYear(data: seq<Obs>) {
    forall i, j :: 0 <= i < j < |data| && data[i].year == data[j].year ==> data[i].country != data[j].country
  }

  /** Some row of the year maps to `loc`. */
  predicate LocatedAt(data: seq<Obs>, year: int, loc: string) {
    exists j :: 0 <= j < |data| && OnMap(year, data[j]) && Iso3(data[j].country) == Some(loc)
  }

  lemma PlotLocations(data: seq<Obs>, year: int)
    ensures forall k :: 0 <= k < |Plot(data, year).locations| ==> LocatedAt(data, year, Plot(data, year).locations[k])
  {
    var r := Plot(data, year);
    forall k | 0 <= k < |r.locations| ensures LocatedAt(data, year, r.locations[k]) {
      assert PlottedFrom(data, year, r.locations[k], r.z[k], r.text[k]);
    }
  }

  /** With one row per country and year, no region is painted twice. */
  lemma {:induction false} PlotLocationsDistinct(data: seq<Obs>, year: int)
    requires OnePerCountryYear(data)
    ensures Seqs.Distinct(Plot(data, year).locations)
  {
    if |data| > 0 {
      var n := |data| - 1;
      var prefix := data[..n];
      var rest := Plot(prefix, year).locations;
      assert OnePerCountryYear(prefix) by {
        assert forall i :: 0 <= i < n ==> prefix[i] == data[i];
      }
      PlotLocationsDistinct(prefix, year);
      if OnMap(year, data[n]) {
        var code := Iso3(data[n].country).value;
        assert Plot(data, year).locations == rest + [code];
        NewCodeFresh(data, year);
        Seqs.DistinctSnoc(rest, code);
      } else {
        assert Plot(data, year).locations == rest;
      }
    }
  }

  /** The last row's code is not among the codes of the rows before it. */
  lemma NewCodeFresh(data: seq<Obs>, year: int)
    requires |data| > 0 && OnePerCountryYear(data) && OnMap(year, data[|data| - 1])
    ensures Iso3(data[|data| - 1].country).value !in Plot(data[..|data| - 1], year).locations
  {
    var n := |data| - 1;
    var o := data[n];
    var prefix := data[..n];
    var rest := Plot(prefix, year).locations;
    PlotLocations(prefix, year);
    forall k | 0 <= k < |rest| ensures rest[k] != Iso3(o.country).value {
      assert LocatedAt(prefix, year, rest[k]);
      var j :| 0 <= j < n && OnMap(year, prefix[j]) && Iso3(prefix[j].country) == Some(rest[k]);
      assert prefix[j] == data[j];
      if rest[k] == Iso3(o.country).value {
        Iso3Injective(data[j].country, o.country);
      }
    }
  }

  /** The choropleth's `mapData`: empty arrays without data, else the plot of the year. */
  function MapDataFor(data: seq<Obs>, year: int): (r: MapData)
    ensures |data| == 0 ==> r == MapData([], [], [])
    ensures |r.locations| == |r.z| == |r.text|
    ensures forall k :: 0 <= k < |r.locations| ==> PlottedFrom(data, year, r.locations[k], r.z[k], r.text[k])
    ensures forall k :: 0 <= k < |data| && OnMap(year, data[k]) ==> Iso3(data[k].country).value in r.locations
  {
    if |data| == 0 then MapData([], [], [])
    else
      var r := Plot(data, year);
      forall k | 0 <= k < |data| && OnMap(year, data[k]) ensures Iso3(data[k].country).value in r.locations {
        PlotComplete(data, year, k);
      }
      r
  }
}
