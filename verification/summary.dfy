/**
 * The headline figures above the main chart: the average of the selected
 * countries in the latest year, the covered year range, and the relative
 * change against the year before.
 */
module Summary {
  import opened Wrappers
  import Seqs
  import opened Reshape

  /**
   * An IEEE double quotient whose divisor may be zero: `(a - b) / b` is
   * finite when `b != 0`, and otherwise an infinity or NaN by the sign of
   * the numerator.
   */
  datatype Ratio = Finite(x: real) | PlusInfinity | MinusInfinity | NaN

  function Divide(a: real, b: real): (r: Ratio)
    ensures b != 0.0 ==> r == Finite(a / b)
    ensures b == 0.0 ==> (r.PlusInfinity? <==> a > 0.0) && (r.MinusInfinity? <==> a < 0.0) && (r.NaN? <==> a == 0.0)
  {
    if b != 0.0 then Finite(a / b)
    else if a > 0.0 then PlusInfinity
    else if a < 0.0 then MinusInfinity
    else NaN
  }

  /** `((current - previous) / previous) * 100`. */
  function Change(current: real, previous: real): (r: Ratio)
    ensures previous != 0.0 ==> r == Finite((current - previous) / previous * 100.0)
    ensures previous > 0.0 ==> r.Finite? && (r.x > 0.0 <==> current > previous) && (r.x == 0.0 <==> current == previous)
    ensures previous < 0.0 ==> r.Finite? && (r.x > 0.0 <==> current < previous)
    ensures previous == 0.0 ==> !r.Finite?
  {
    Divide((current - previous) * 100.0, previous)
  }

  /** Applying a finite change to the base gives back the current value. */
  lemma ChangeRecoversCurrent(current: real, previous: real)
    requires previous != 0.0
    ensures Change(current, previous).Finite?
    ensures previous + previous * Change(current, previous).x / 100.0 == current
  {
  }

  /** The statistics object; `None` stands for the text `'N/A'`. */
  datatype Stats = Stats(
    latestAvg: Option<real>,
    yearRange: Option<(int, int)>,
    totalCountries: nat,
    dataPoints: nat,
    trend: Option<Ratio>)

  function NotAvailable(): Stats {
    Stats(None, None, 0, 0, None)
  }

  predicate Present(values: map<string, real>, c: string) { c in values }

  /** How many selected entries have a value in the row (a duplicate counts twice). */
  function CountPresent(values: map<string, real>, selected: seq<string>): (n: nat)
    ensures n <= |selected|
    ensures n == 0 <==> forall j :: 0 <= j < |selected| ==> selected[j] !in values
  {
    if |selected| == 0 then 0
    else
      var n := |selected| - 1;
      assert forall j :: 0 <= j < n ==> selected[..n][j] == selected[j];
      CountPresent(values, selected[..n]) + (if selected[n] in values then 1 else 0)
  }

  /** The count is the length of `selected.filter(c => row[c] !== undefined)`. */
  lemma {:induction false} CountPresentIsFilterLength(values: map<string, real>, selected: seq<string>)
    ensures CountPresent(values, selected) == |Seqs.Filter(selected, (c: string) => Present(values, c))|
  {
    if |selected| > 0 {
      CountPresentIsFilterLength(values, selected[..|selected| - 1]);
    }
  }

  /** The sum of those values. */
  function SumPresent(values: map<string, real>, selected: seq<string>): real {
    if |selected| == 0 then 0.0
    else
      var n := |selected| - 1;
      SumPresent(values, selected[..n]) + (if selected[n] in values then values[selected[n]] else 0.0)
  }

  /** Every selected value in the row lies in `[lo, hi]`. */
  predicate Bounded(values: map<string, real>, selected: seq<string>, lo: real, hi: real) {
    forall j :: 0 <= j < |selected| && selected[j] in values ==> lo <= values[selected[j]] <= hi
  }

  /** `v + v + ... + v`, `n` times. */
  function Repeat(n: nat, v: real): real {
    if n == 0 then 0.0 else Repeat(n - 1, v) + v
  }

  lemma {:induction false} RepeatIsProduct(n: nat, v: real)
    ensures Repeat(n, v) == n as real * v
  {
    if n > 0 {
      RepeatIsProduct(n - 1, v);
      assert n as real * v == (n - 1) as real * v + v;
    }
  }

  /** The sum of `n` values from `[lo, hi]` lies between `n` copies of `lo` and `n` copies of `hi`. */
  lemma {:induction false} SumBounds(values: map<string, real>, selected: seq<string>, lo: real, hi: real)
    requires Bounded(values, selected, lo, hi)
    ensures Repeat(CountPresent(values, selected), lo) <= SumPresent(values, selected)
    ensures SumPresent(values, selected) <= Repeat(CountPresent(values, selected), hi)
  {
    if |selected| > 0 {
      var n := |selected| - 1;
      assert Bounded(values, selected[..n], lo, hi) by {
        assert forall j :: 0 <= j < n ==> selected[..n][j] == selected[j];
      }
      SumBounds(values, selected[..n], lo, hi);
    }
  }

  /**
   * The average of the present values, when there is one: the mean is the
   * sum of the present values over their count.
   */
  function Average(values: map<string, real>, selected: seq<string>): (r: Option<real>)
    ensures r.None? <==> forall j :: 0 <= j < |selected| ==> selected[j] !in values
    ensures r.Some? ==> CountPresent(values, selected) > 0
    ensures r.Some? ==> r.value * CountPresent(values, selected) as real == SumPresent(values, selected)
  {
    var n := CountPresent(values, selected);
    if n > 0 then Some(SumPresent(values, selected) / n as real) else None
  }

  /** An average never leaves the range of the values it averages. */
  lemma AverageWithinBounds(values: map<string, real>, selected: seq<string>, lo: real, hi: real)
    requires Bounded(values, selected, lo, hi)
    requires Average(values, selected).Some?
    ensures lo <= Average(values, selected).value <= hi
  {
    SumBounds(values, selected, lo, hi);
    MeanBounds(SumPresent(values, selected), CountPresent(values, selected), lo, hi);
  }

  /** A sum between `c` copies of `lo` and `c` copies of `hi`, divided by `c`, lies in `[lo, hi]`. */
  lemma MeanBounds(s: real, c: nat, lo: real, hi: real)
    requires c > 0 && Repeat(c, lo) <= s <= Repeat(c, hi)
    ensures lo <= s / c as real <= hi
  {
    RepeatIsProduct(c, lo);
    RepeatIsProduct(c, hi);
    DivisionBounds(s, c as real, lo, hi);
  }

  lemma DivisionBounds(s: real, n: real, lo: real, hi: real)
    requires n > 0.0 && n * lo <= s <= n * hi
    ensures lo <= s / n <= hi
  {
  }

  /** `summaryStats` of the statistics hook. */
  function SummaryStats(chart: seq<ChartRow>, selected: seq<string>): (r: Stats)
    ensures |chart| == 0 || |selected| == 0 ==> r == NotAvailable()
    ensures |chart| > 0 && |selected| > 0 ==>
              && r.totalCountries == |selected|
              && r.dataPoints == |chart| * |selected|
              && r.yearRange == Some((chart[0].year, chart[|chart| - 1].year))
    ensures r.latestAvg.Some? <==>
              |chart| > 0 && exists j :: 0 <= j < |selected| && selected[j] in chart[|chart| - 1].values
    ensures r.trend.Some? ==> |chart| >= 2 && r.latestAvg.Some?
    ensures r.trend.Some? <==>
              && |chart| >= 2
              && (exists j :: 0 <= j < |selected| && selected[j] in chart[|chart| - 1].values)
              && (exists j :: 0 <= j < |selected| && selected[j] in chart[|chart| - 2].values)
    ensures |chart| > 0 && |selected| > 0 ==> r.latestAvg == Average(chart[|chart| - 1].values, selected)
    ensures r.trend.Some? ==>
              var previous := Average(chart[|chart| - 2].values, selected);
              previous.Some? && r.trend == Some(Change(r.latestAvg.value, previous.value))
  {
    if |chart| == 0 || |selected| == 0 then NotAvailable()
    else
      var latest := Average(chart[|chart| - 1].values, selected);
      var trend :=
        if latest.Some? && |chart| >= 2 then
          match Average(chart[|chart| - 2].values, selected)
          case Some(prev) => Some(Change(latest.value, prev))
          case None => None
        else None;
      Stats(latest, Some((chart[0].year, chart[|chart| - 1].year)), |selected|, |chart| * |selected|, trend)
  }

  /** The two figures of the early single-indicator dashboard. */
  datatype BackupStats = BackupStats(latestAvg: Option<real>, yearRange: Option<(int, int)>)

  /** The early dashboard's `summaryStats`: the later hook's first two figures, computed alike. */
  function BackupSummary(chart: seq<ChartRow>, selected: seq<string>): (r: BackupStats)
    ensures r.latestAvg == SummaryStats(chart, selected).latestAvg
    ensures r.yearRange == SummaryStats(chart, selected).yearRange
  {
    if |chart| == 0 || |selected| == 0 then BackupStats(None, None)
    else BackupStats(Average(chart[|chart| - 1].values, selected), Some((chart[0].year, chart[|chart| - 1].year)))
  }
}
