/**
 * The "one object per year" reshaping behind the line charts: a fold that
 * stores each record's value under `acc[year][column]`, read back with
 * `Object.values` and sorted by year.  Three variants share it: the
 * filtered frontend hook, the unfiltered hook under `src/`, and the early
 * single-indicator dashboard.
 */
module Reshape {
  import opened Wrappers
  import Seqs
  import opened Strings
  import opened Sorting
  import opened Records
  import FilterEngine

  /** One chart point: a year and the value of each column in that year. */
  datatype ChartRow = ChartRow(year: int, values: map<string, real>)

  /** Some record is dated `y`. */
  predicate HasYear(rows: seq<Obs>, y: int) {
    exists k :: 0 <= k < |rows| && rows[k].year == y
  }

  /** Some record is dated `y` and feeds column `c`. */
  predicate HasCell(rows: seq<Obs>, keyOf: Obs -> string, y: int, c: string) {
    exists k :: 0 <= k < |rows| && rows[k].year == y && keyOf(rows[k]) == c
  }

  /** The fold: a later record overwrites an earlier one with the same year and column. */
  function Accumulate(rows: seq<Obs>, keyOf: Obs -> string): (acc: map<int, map<string, real>>)
    ensures forall y :: y in acc <==> HasYear(rows, y)
    ensures forall y, c :: y in acc ==> (c in acc[y] <==> HasCell(rows, keyOf, y, c))
  {
    if |rows| == 0 then map[]
    else
      var n := |rows| - 1;
      var acc := Accumulate(rows[..n], keyOf);
      PrefixFacts(rows, keyOf);
      var cur := if rows[n].year in acc then acc[rows[n].year] else map[];
      acc[rows[n].year := cur[keyOf(rows[n]) := rows[n].value]]
  }

  /** How the two existence predicates grow by one record. */
  lemma PrefixFacts(rows: seq<Obs>, keyOf: Obs -> string)
    requires |rows| > 0
    ensures forall y :: HasYear(rows, y) <==> HasYear(rows[..|rows| - 1], y) || rows[|rows| - 1].year == y
    ensures forall y, c :: HasCell(rows, keyOf, y, c) <==>
              HasCell(rows[..|rows| - 1], keyOf, y, c) || (rows[|rows| - 1].year == y && keyOf(rows[|rows| - 1]) == c)
  {
    var n := |rows| - 1;
    assert forall k :: 0 <= k < n ==> rows[..n][k] == rows[k];
  }

  /** No later record has the same year and column as `rows[k]`. */
  predicate LastFor(rows: seq<Obs>, keyOf: Obs -> string, k: int) {
    && 0 <= k < |rows|
    && forall j :: k < j < |rows| ==> rows[j].year != rows[k].year || keyOf(rows[j]) != keyOf(rows[k])
  }

  /** The value stored for a cell is that of the last record for it. */
  lemma {:induction false} AccumulateLastWins(rows: seq<Obs>, keyOf: Obs -> string, k: int)
    requires LastFor(rows, keyOf, k)
    ensures rows[k].year in Accumulate(rows, keyOf)
    ensures keyOf(rows[k]) in Accumulate(rows, keyOf)[rows[k].year]
    ensures Accumulate(rows, keyOf)[rows[k].year][keyOf(rows[k])] == rows[k].value
  {
    var n := |rows| - 1;
    if k < n {
      assert LastFor(rows[..n], keyOf, k) by {
        assert forall j :: 0 <= j < n ==> rows[..n][j] == rows[j];
      }
      AccumulateLastWins(rows[..n], keyOf, k);
      assert rows[..n][k] == rows[k];
    }
  }

  /** The distinct years of `rows`, ascending. */
  function SortedYears(rows: seq<Obs>): (ys: seq<int>)
    ensures forall i, j :: 0 <= i < j < |ys| ==> ys[i] < ys[j]
    ensures forall y :: y in ys <==> HasYear(rows, y)
  {
    var ys := AscendingSet(YearsOf(rows));
    YearsMembership(rows, ys);
    ys
  }

  lemma YearsMembership(rows: seq<Obs>, ys: seq<int>)
    requires forall i :: 0 <= i < |ys| ==> ys[i] in YearsOf(rows)
    requires forall k :: 0 <= k < |rows| ==> YearsOf(rows)[k] in ys
    ensures forall y :: y in ys <==> HasYear(rows, y)
  {
    var years := YearsOf(rows);
    forall y | y in ys ensures HasYear(rows, y) {
      var k :| 0 <= k < |years| && years[k] == y;
      assert rows[k].year == y;
    }
    forall y | HasYear(rows, y) ensures y in ys {
      var k :| 0 <= k < |rows| && rows[k].year == y;
      assert years[k] in ys;
    }
  }

  /** Some chart point is dated `y`. */
  predicate HasPoint(out: seq<ChartRow>, y: int) {
    exists i :: 0 <= i < |out| && out[i].year == y
  }

  /** Some chart point dated `y` holds `v` in column `c`. */
  predicate ShowsValue(out: seq<ChartRow>, y: int, c: string, v: real) {
    exists i :: 0 <= i < |out| && out[i].year == y && c in out[i].values && out[i].values[c] == v
  }

  /** `Object.values(acc).sort((a, b) => a.year - b.year)`. */
  function Pivot(rows: seq<Obs>, keyOf: Obs -> string): (out: seq<ChartRow>)
    ensures forall i, j :: 0 <= i < j < |out| ==> out[i].year < out[j].year
    ensures forall y :: HasPoint(out, y) <==> HasYear(rows, y)
    ensures forall i, c :: 0 <= i < |out| ==> (c in out[i].values <==> HasCell(rows, keyOf, out[i].year, c))
    ensures forall k :: LastFor(rows, keyOf, k) ==> ShowsValue(out, rows[k].year, keyOf(rows[k]), rows[k].value)
  {
    var acc := Accumulate(rows, keyOf);
    var ys := SortedYears(rows);
    var out := seq(|ys|, i requires 0 <= i < |ys| => ChartRow(ys[i], acc[ys[i]]));
    PivotFacts(rows, keyOf, out);
    PivotLastWins(rows, keyOf, out);
    out
  }

  /** The rows read back from the fold, one per year in ascending order. */
  predicate ReadBackFrom(rows: seq<Obs>, keyOf: Obs -> string, out: seq<ChartRow>) {
    var acc := Accumulate(rows, keyOf);
    var ys := SortedYears(rows);
    && |out| == |ys|
    && forall i :: 0 <= i < |out| ==> out[i].year == ys[i] && ys[i] in acc && out[i].values == acc[ys[i]]
  }

  lemma PivotFacts(rows: seq<Obs>, keyOf: Obs -> string, out: seq<ChartRow>)
    requires ReadBackFrom(rows, keyOf, out)
    ensures forall i, j :: 0 <= i < j < |out| ==> out[i].year < out[j].year
    ensures forall y :: HasPoint(out, y) <==> HasYear(rows, y)
    ensures forall i, c :: 0 <= i < |out| ==> (c in out[i].values <==> HasCell(rows, keyOf, out[i].year, c))
  {
    PointsAreYears(out, SortedYears(rows));
  }

  lemma PivotLastWins(rows: seq<Obs>, keyOf: Obs -> string, out: seq<ChartRow>)
    requires ReadBackFrom(rows, keyOf, out)
    ensures forall k :: LastFor(rows, keyOf, k) ==> ShowsValue(out, rows[k].year, keyOf(rows[k]), rows[k].value)
  {
    var ys := SortedYears(rows);
    forall k | LastFor(rows, keyOf, k)
      ensures ShowsValue(out, rows[k].year, keyOf(rows[k]), rows[k].value)
    {
      AccumulateLastWins(rows, keyOf, k);
      assert HasYear(rows, rows[k].year);
      var i :| 0 <= i < |ys| && ys[i] == rows[k].year;
      assert out[i].year == rows[k].year;
    }
  }

  lemma PointsAreYears(out: seq<ChartRow>, ys: seq<int>)
    requires |out| == |ys| && forall i :: 0 <= i < |out| ==> out[i].year == ys[i]
    ensures forall y :: HasPoint(out, y) <==> y in ys
  {
    forall y | y in ys ensures HasPoint(out, y) {
      var i :| 0 <= i < |ys| && ys[i] == y;
      assert out[i].year == y;
    }
  }

  /**
   * The column a record feeds in the frontend hook: the first selected name
   * contained in its raw label, or the raw label when there is none (or when
   * that name is empty, which is falsy).
   */
  function SimplifiedCountry(selected: seq<string>, raw: string): (r: string)
    ensures r == raw || (r in selected && Contains(raw, r))
    ensures (forall j :: 0 <= j < |selected| ==> !Contains(raw, selected[j])) ==> r == raw
    ensures forall i :: (0 <= i < |selected| && Contains(raw, selected[i]) && selected[i] != ""
                         && (forall j :: 0 <= j < i ==> !Contains(raw, selected[j]))) ==> r == selected[i]
  {
    match Seqs.Find(selected, (c: string) => Contains(raw, c))
    case Some(c) => if c == "" then raw else c
    case None => raw
  }

  function FrontendKey(selected: seq<string>): Obs -> string {
    (r: Obs) => SimplifiedCountry(selected, r.country)
  }

  /** `chartData` of the frontend hook: the filtered rows, one point per year. */
  function FrontendChartData(sel: FilterEngine.Selection, ds: Datasets): (out: seq<ChartRow>)
    ensures |sel.countries| == 0 ==> out == []
    ensures forall i, j :: 0 <= i < j < |out| ==> out[i].year < out[j].year
    ensures forall y :: HasPoint(out, y) <==> HasYear(FilterEngine.FilteredActiveData(sel, ds), y)
    ensures forall i, c :: 0 <= i < |out| ==>
              (c in out[i].values <==>
                 HasCell(FilterEngine.FilteredActiveData(sel, ds), FrontendKey(sel.countries), out[i].year, c))
    ensures |sel.countries| > 0 ==>
              var active := FilterEngine.FilteredActiveData(sel, ds);
              forall k :: LastFor(active, FrontendKey(sel.countries), k) ==>
                ShowsValue(out, active[k].year, FrontendKey(sel.countries)(active[k]), active[k].value)
  {
    var active := FilterEngine.FilteredActiveData(sel, ds);
    if |active| == 0 || |sel.countries| == 0 then []
    else Pivot(active, FrontendKey(sel.countries))
  }

  /** When no selected name is empty, every column of the frontend chart is a selected country. */
  lemma FrontendColumnsAreSelected(sel: FilterEngine.Selection, ds: Datasets)
    requires forall j :: 0 <= j < |sel.countries| ==> sel.countries[j] != ""
    ensures forall i, c :: 0 <= i < |FrontendChartData(sel, ds)| && c in FrontendChartData(sel, ds)[i].values
              ==> c in sel.countries
  {
    var active := FilterEngine.FilteredActiveData(sel, ds);
    if |active| > 0 && |sel.countries| > 0 {
      var keyOf := FrontendKey(sel.countries);
      forall k | 0 <= k < |active| ensures keyOf(active[k]) in sel.countries {
        assert FilterEngine.Passes(sel, active[k]);
        KeyOfMatchingRow(sel.countries, active[k]);
      }
      PivotColumns(active, keyOf, sel.countries);
    }
  }

  /** Columns can only come from the records' keys. */
  lemma PivotColumns(rows: seq<Obs>, keyOf: Obs -> string, allowed: seq<string>)
    requires forall k :: 0 <= k < |rows| ==> keyOf(rows[k]) in allowed
    ensures forall i, c :: 0 <= i < |Pivot(rows, keyOf)| && c in Pivot(rows, keyOf)[i].values ==> c in allowed
  {
    var out := Pivot(rows, keyOf);
    forall i, c | 0 <= i < |out| && c in out[i].values ensures c in allowed {
      assert HasCell(rows, keyOf, out[i].year, c);
    }
  }

  /** Every record's year has a point, and that point has the record's column. */
  lemma PivotCovers(rows: seq<Obs>, keyOf: Obs -> string)
    ensures forall x :: x in rows ==>
              exists i :: 0 <= i < |Pivot(rows, keyOf)| && Pivot(rows, keyOf)[i].year == x.year
                          && keyOf(x) in Pivot(rows, keyOf)[i].values
  {
    var out := Pivot(rows, keyOf);
    forall x | x in rows
      ensures exists i :: 0 <= i < |out| && out[i].year == x.year && keyOf(x) in out[i].values
    {
      var k :| 0 <= k < |rows| && rows[k] == x;
      assert HasYear(rows, x.year);
      var i :| 0 <= i < |out| && out[i].year == x.year;
      assert HasCell(rows, keyOf, x.year, keyOf(x));
    }
  }

  lemma KeyOfMatchingRow(selected: seq<string>, r: Obs)
    requires forall j :: 0 <= j < |selected| ==> selected[j] != ""
    requires FilterEngine.CountryMatches(selected, r)
    ensures SimplifiedCountry(selected, r.country) in selected
  {
    var found := Seqs.Find(selected, (s: string) => Contains(r.country, s));
    assert found.Some?;
  }

  function CountryOf(r: Obs): string { r.country }

  /** `chartData` of the hook under `src/`: every record of the series, keyed by its raw label. */
  function SrcChartData(ds: Datasets, dataset: string): (out: seq<ChartRow>)
    ensures dataset !in DatasetKeys() ==> out == []
    ensures forall i, j :: 0 <= i < j < |out| ==> out[i].year < out[j].year
    ensures forall y :: HasPoint(out, y) <==> HasYear(SelectDataset(ds, dataset), y)
    ensures forall i, c :: 0 <= i < |out| ==>
              (c in out[i].values <==> HasCell(SelectDataset(ds, dataset), CountryOf, out[i].year, c))
    ensures forall k :: LastFor(SelectDataset(ds, dataset), CountryOf, k) ==>
              var x := SelectDataset(ds, dataset)[k];
              ShowsValue(out, x.year, x.country, x.value)
  {
    var active := SelectDataset(ds, dataset);
    if |active| == 0 then [] else Pivot(active, CountryOf)
  }

  predicate InSelection(selected: seq<string>, r: Obs) { r.country in selected }

  /** The records of the selected countries, in their original order. */
  function SelectedRows(all: seq<Obs>, selected: seq<string>): (rows: seq<Obs>)
    ensures Seqs.IsSubseq(rows, all)
    ensures forall x :: x in rows <==> x in all && x.country in selected
  {
    var p := (r: Obs) => InSelection(selected, r);
    Seqs.FilterIsSubseq(all, p);
    Seqs.SubseqElements(Seqs.Filter(all, p), all);
    Seqs.Filter(all, p)
  }

  /**
   * The early dashboard's selection effect: with data loaded, the selected
   * countries' rows pivoted by year; with none, the previous chart stays.
   */
  function BackupDataByYear(previous: seq<ChartRow>, all: seq<Obs>, selected: seq<string>): (out: seq<ChartRow>)
    ensures |all| == 0 ==> out == previous
    ensures |all| > 0 ==> forall i, j :: 0 <= i < j < |out| ==> out[i].year < out[j].year
    ensures |all| > 0 ==> forall i, c :: 0 <= i < |out| && c in out[i].values ==> c in selected
    ensures |all| > 0 ==> forall x :: x in all && x.country in selected ==>
              exists i :: 0 <= i < |out| && out[i].year == x.year && x.country in out[i].values
    ensures |all| > 0 ==> forall y :: HasPoint(out, y) <==> HasYear(SelectedRows(all, selected), y)
    ensures |all| > 0 ==> forall i, c :: 0 <= i < |out| ==>
              (c in out[i].values <==> HasCell(SelectedRows(all, selected), CountryOf, out[i].year, c))
    ensures |all| > 0 ==> forall k :: LastFor(SelectedRows(all, selected), CountryOf, k) ==>
              var x := SelectedRows(all, selected)[k];
              ShowsValue(out, x.year, x.country, x.value)
  {
    if |all| == 0 then previous
    else
      var rows := SelectedRows(all, selected);
      var out := Pivot(rows, CountryOf);
      PivotColumns(rows, CountryOf, selected);
      PivotCovers(rows, CountryOf);
      out
  }
}
