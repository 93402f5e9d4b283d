# Labour-market dashboard pipeline, in Dafny

The dashboard shows labour-market figures for South American countries from
ILO-style CSV extracts:
- employment, unemployment, informal employment and labour force;
- minimum wage and average salary.

All of its real logic is a client-side data pipeline. It is repeated, with
small differences, across React hooks and chart components:
- CSV lines are split;
- rows are validated and normalised;
- a selection filter is applied;
- long rows are pivoted into one wide row per year;
- datasets are joined per country on the most recent record;
- headline figures are derived: averages, trends, wage gaps and chart domains.

This project lifts each memo or effect body out of its React wrapper. Each one
becomes a pure Dafny function over sequences of small datatypes. Where the
`src/` and `frontend/src/` copies differ, each copy has its own function.

Modules, one per file:

| module | what it holds |
|---|---|
| `Wrappers`, `Seqs`, `Strings`, `Sorting` | the vocabulary. `Option`; order-preserving filter, first/last match and de-duplication; JavaScript `trim`, `includes`, `replace`, `split`/`join`; stable sort by key and `[...new Set(xs)].sort()` |
| `JsObject` | the order in which `Object.keys`/`Object.values` list an object built by insertion: integer-like keys ascending, other keys in insertion order |
| `Csv` | the three hand-written line splitters (toggle, field-boundary, naive) and header/value zipping |
| `Records` | the observation record, the dataset switch, the country lists and the ISO-3 table |
| `Loaders` | row validation of the generic loader hook, the early single-indicator dashboard and the minimum-wage bar chart |
| `FilterEngine` | the selection filter of the main dashboard |
| `Reshape` | the long-to-wide pivot, in its three variants |
| `Summary` | the headline statistics |
| `Joins` | the scatter and radar joins of both hook variants, and the informal-employment map de-duplication |
| `Charts` | averages and pie slices, radar transposition, and the choropleth's years and arrays |
| `WageGap` | the salary-gap bubble plot |
| `Timeline` | the labour-force / salary timeline |
| `DotPlot` | the participation dot plot |
| `Informality` | the informality analysis panel |
| `Selection` | country toggling, display names and the mock-data filter |

Modelling conventions:
- **Number parsing.** `parseInt`, `parseFloat` and `Number` are function parameters of type `string -> Option<int>` or `string -> Option<real>`. `None` stands for `NaN`.
- **Amounts.** Amounts are `real`.
- **Division.** A quotient whose divisor may be zero is `Summary.Ratio`: finite, +Infinity, −Infinity or NaN, chosen by the sign of the numerator as IEEE division does.
- **Raw rows.** A papaparse row, or a zipped header/value row, is a `map<string, string>`. A missing key is JavaScript's `undefined`.
- **"Most recent" lookups.** These sort by descending year and take the first match. They are stated as "a record of maximal year, first in input order among ties", which is what a stable sort gives (`Joins.FindNewest`).
- **"Later overwrites earlier".** Writes into an object in a loop are proved equal to the last matching input row (`Seqs.Last`).
- **Row loaders.** A loader that maps rows to records and drops the rest is stated with `Seqs.DefinedInOrder`: its output is an order-preserving selection of the row-by-row outcomes that takes every defined one. So the output is exactly the records of the qualifying rows, in file order (`Seqs.FilterMapInOrder`).
- **`return null`.** A component that returns `null` yields `None`.

## Model

| member | source | states |
|---|---|---|
| Csv.ParseLineToggle | frontend/src/components/charts/BubblePlotBrechaSalarial.jsx:39-56 | the toggle splitter returns at least one field; every field is trimmed and holds no `"` |
| Csv.ToggleFieldsHaveNoQuotes | frontend/src/components/charts/BubblePlotBrechaSalarial.jsx:43-53 | a quote character is never copied into a field |
| Csv.ToggleFieldsJoin | frontend/src/components/charts/BubblePlotBrechaSalarial.jsx:40-54 | before the final trim, joining the fields with `,` gives back the input line with every `"` removed |
| Csv.ToggleFieldsCount | frontend/src/components/charts/BubblePlotBrechaSalarial.jsx:40-54 | the number of fields is one more than the number of commas preceded by an even number of quotes |
| Csv.ToggleRoundTrip | frontend/src/components/charts/BubblePlotBrechaSalarial.jsx:40-54 | a line written from fields that are bare (no comma, no quote) or quoted (no quote inside) splits back into exactly those fields |
| Csv.ParseLineToggleRoundTrip | frontend/src/components/charts/BubblePlotBrechaSalarial.jsx:39-56 | the same round trip through `parseCSVLine`, up to trimming of each field |
| Csv.QuotedCommaExample | frontend/src/components/charts/BubblePlotBrechaSalarial.jsx:43-53 | `1,"2,3",4` splits into `1`, `2,3`, `4`: a comma inside quotes does not split |
| Csv.SplitBoundary | frontend/src/components/charts/TimelineComparison.jsx:53-71 | the boundary splitter returns at least one column, each trimmed |
| Csv.BoundaryRoundTrip | frontend/src/components/charts/TimelineComparison.jsx:57-71 | a line written from bare fields, and from quoted fields with no quote inside and no trailing comma, splits back into those fields (trimmed): a quote opens only at a field start and closes only at a field end |
| Csv.BoundaryQuoteAfterComma | frontend/src/components/charts/TimelineComparison.jsx:60-66 | a quoted field ending in a comma is not closed: `"a,",b` yields the single column `a,,b` |
| Csv.ParseTimelineCsvSpec | frontend/src/components/charts/TimelineComparison.jsx:45-77 | `parseCSV` drops the header line and every line that is blank after trim, and yields exactly one column array per remaining trimmed line, in order |
| Csv.NonBlankLines | frontend/src/components/charts/GraficoBarrasSalarios.jsx:15 | the kept lines are non-blank after trim and hold no line break |
| Csv.NaiveSplit | frontend/src/components/charts/GraficoBarrasSalarios.jsx:19 | every comma splits, so there is one more field than commas; no field holds a comma or a quote |
| Csv.NaiveRoundTrip | frontend/src/components/charts/GraficoBarrasSalarios.jsx:19 | joining comma- and quote-free fields with `,` and splitting again gives the fields back |
| Csv.ZipRowKeys | frontend/src/components/charts/GraficoBarrasSalarios.jsx:20-23 | a zipped row has no key other than the headers |
| Csv.ZipRowLastWins | frontend/src/components/charts/BubblePlotBrechaSalarial.jsx:69-72 | header `i` (not repeated later) is in the row exactly when there is a value `i`, and then maps to it |
| Records.SelectDataset | frontend/src/hooks/useProcesadorDatos.js:21-28 | an unknown dataset key selects the empty dataset |
| Records.SelectKnownDataset | src/hooks/useProcesadorDatos.js:15-24 | each of the five known keys selects its own dataset |
| Records.Iso3Domain | frontend/src/components/charts/MapaCoropleticoEmpleoInformal.jsx:11-24 | a country has an ISO-3 code exactly when it is one of the twelve listed South American countries; every code has three letters |
| Records.Iso3Injective | frontend/src/components/charts/MapaCoropleticoEmpleoInformal.jsx:11-24 | no two countries share a code |
| Loaders.EmploymentRecord | frontend/src/hooks/useDataLoader.js:43-52 | a row yields a record exactly when `Country`, `Year` and `Value` are non-empty and year and value parse; a missing sex reads `Total` and a missing age group `15+` |
| Loaders.LoadEmployment | frontend/src/hooks/useDataLoader.js:43-52 | every row that yields a record contributes it, every loaded record is some row's record, and the records keep file order with none left out (`Seqs.DefinedInOrder` over the row-by-row outcomes); every loaded record is complete |
| Loaders.SortedNames | frontend/src/hooks/useDataLoader.js:65 | `[...new Set(xs)].sort()` is strictly sorted and holds exactly the values of `xs` |
| Loaders.ExtractUniqueValues | frontend/src/hooks/useDataLoader.js:64-71 | each list is duplicate-free and sorted (years numerically ascending), and holds a value exactly when some row carries it |
| Loaders.UniqueCountriesOrdered | frontend/src/hooks/useDataLoader.js:65 | two countries appear in the country list in string order |
| Loaders.BackupRecord | frontend/src/App_backup.jsx:48-61 | a row is kept exactly when its country is among the twelve listed, its sex is `Total`, and year and value parse |
| Loaders.SeenCountries | frontend/src/App_backup.jsx:55-59 | the country set holds exactly the listed countries that some row names |
| Loaders.BackupData | frontend/src/App_backup.jsx:48-61 | the kept records are exactly the rows passing the early loader's test, in file order; each is a `Total` record of a South-American country that some row names |
| Loaders.LoadBackup | frontend/src/App_backup.jsx:48-67 | the data is `BackupData`: `Total`, South-American records of the valid rows, in file order, and nothing else; the available countries are sorted and are the listed countries seen, including those without valid rows |
| Loaders.ListedWithoutData | frontend/src/App_backup.jsx:56-60 | a listed country whose only row has an unparsable year is still offered, with no data |
| Loaders.Amount | frontend/src/components/charts/GraficoBarrasSalarios.jsx:27-28 | a parsable amount is read as parsed; anything else reads 0 |
| Loaders.BarOf | frontend/src/components/charts/GraficoBarrasSalarios.jsx:25-30 | a row yields a bar exactly when the country is non-empty and both amounts are positive |
| Loaders.NaiveRows | frontend/src/components/charts/GraficoBarrasSalarios.jsx:18-23 | one row per body line, zipping the naive header fields with the line's fields |
| Loaders.BarsOf | frontend/src/components/charts/GraficoBarrasSalarios.jsx:18-30 | each body line that yields a bar contributes it, every bar is some line's bar, and bars keep line order with none left out; every bar has a country and positive amounts |
| Loaders.LoadBars | frontend/src/components/charts/GraficoBarrasSalarios.jsx:15-30 | no non-blank line means no table; otherwise the first line is the header, and the bars are exactly those of the later lines, in line order; every bar has a country and positive amounts |
| FilterEngine.AgeMatchesSpec | frontend/src/hooks/useProcesadorDatos.js:35-46 | the age test passes for salary data, for rows without an age label, for a selected value outside `15+`, `15-64`, `15-24` and `25+`, and otherwise exactly when the label contains the token |
| FilterEngine.FilteredActiveData | frontend/src/hooks/useProcesadorDatos.js:21-49 | the result is an order-preserving subsequence of the selected dataset, holding exactly the rows that pass the sex, inclusive year-range, country-substring and age tests; it is empty with no selected country or an unknown dataset |
| FilterEngine.WiderRangeKeepsRows | frontend/src/hooks/useProcesadorDatos.js:32 | widening the year range never drops a row |
| Reshape.Accumulate | frontend/src/hooks/useProcesadorDatos.js:57-62 | the accumulator has a year exactly when some row has it, and a cell for `(year, key)` exactly when some row has that year and key |
| Reshape.AccumulateLastWins | frontend/src/hooks/useProcesadorDatos.js:57-62 | the value of a cell is that of the last row with its year and key |
| Reshape.SortedYears | frontend/src/hooks/useProcesadorDatos.js:64 | the output years are strictly ascending and are exactly the years of the input |
| Reshape.Pivot | src/hooks/useProcesadorDatos.js:32-38 | one output row per distinct input year, strictly ascending; a column exactly for the keys present in that year; each cell holds the last matching row's value |
| Reshape.PivotCovers | src/hooks/useProcesadorDatos.js:32-35 | every input row's year and key appear in the output |
| Reshape.PivotColumns | frontend/src/hooks/useProcesadorDatos.js:59 | when every row's key is allowed, every output column is allowed |
| Reshape.SimplifiedCountry | frontend/src/hooks/useProcesadorDatos.js:59 | the key is the first non-empty selected name that occurs in the raw label, or the raw label when none occurs |
| Reshape.KeyOfMatchingRow | frontend/src/hooks/useProcesadorDatos.js:33 | a row that passed the country test is keyed by a selected name |
| Reshape.FrontendChartData | frontend/src/hooks/useProcesadorDatos.js:53-65 | empty with no selection; otherwise one row per year of the filtered data, ascending, with a column exactly for the simplified keys present that year, holding the value of the last filtered record for that year and key |
| Reshape.FrontendColumnsAreSelected | frontend/src/hooks/useProcesadorDatos.js:57-62 | with non-empty selected names, every chart column is a selected name |
| Reshape.SrcChartData | src/hooks/useProcesadorDatos.js:15-39 | an unknown dataset gives no rows; otherwise one row per year of the whole dataset, ascending, keyed by the raw country, with nothing filtered out; each cell holds the last record's value for its year and country |
| Reshape.BackupDataByYear | frontend/src/App_backup.jsx:86-98 | with no data the chart is left as it was; otherwise there is a row exactly for each year of a selected country's record, ascending; a column exactly for each selected country with a record that year; each cell holds the last such record's value |
| Summary.Divide | src/hooks/useEstadisticasResumen.js:48-50 | a non-zero divisor gives the real quotient; a zero divisor gives +Infinity, −Infinity or NaN by the sign of the numerator |
| Summary.Change | src/hooks/useEstadisticasResumen.js:48-51 | against a non-zero base the change is `(current - previous) / previous * 100`; against a positive base it is positive exactly when the value rose and zero exactly when it stayed; a zero base gives no finite change |
| Summary.ChangeRecoversCurrent | src/hooks/useEstadisticasResumen.js:48-50 | the change is the relative difference: applying it to a non-zero base gives back the current average |
| Summary.CountPresent | src/hooks/useEstadisticasResumen.js:28-33 | the count is at most the selection size, and zero exactly when no selected country has a value |
| Summary.CountPresentIsFilterLength | src/hooks/useEstadisticasResumen.js:28-33 | the count equals the number of selected entries with a value |
| Summary.SumBounds | src/hooks/useEstadisticasResumen.js:28-33 | with every present value in `[lo, hi]`, the sum lies between count·lo and count·hi |
| Summary.Average | src/hooks/useEstadisticasResumen.js:28-33 | the average is `N/A` exactly when no selected country has a value in the row; otherwise it times the count of present values is their sum (the mean, absent countries counting in neither) |
| Summary.AverageWithinBounds | src/hooks/useEstadisticasResumen.js:56 | the average of values in `[lo, hi]` lies in `[lo, hi]`: absent countries count in neither sum nor divisor |
| Summary.SummaryStats | src/hooks/useEstadisticasResumen.js:12-62 | all `N/A` and zero counts with no rows or no selection; otherwise: `totalCountries` is the selection size; `dataPoints` is rows × selection; the year range is first to last row; the average is `Average` of the last row and exists exactly when that row has a selected value; the trend exists exactly when there are two rows and both of the last two have a selected value, and is then `Change` from the second-to-last row's average to the last row's |
| Summary.BackupSummary | frontend/src/App_backup.jsx:122-142 | the early dashboard's average and year range agree with the later hook's |
| Joins.Latest | frontend/src/hooks/useDatosGraficosEspecializados.js:20-32 | none exactly when no row matches; otherwise a matching row of maximal year, the first such in input order |
| Joins.FindNewest | frontend/src/hooks/useDatosGraficosEspecializados.js:31-40 | the first match in the newest-first stable sort is exactly that latest record |
| Joins.LatestValue | frontend/src/hooks/useDatosGraficosEspecializados.js:59-71 | the latest matching value, or 0 when nothing matches |
| Joins.Points | frontend/src/hooks/useDatosGraficosEspecializados.js:38-50 | at most one point per listed country, in list order (the point countries are a subsequence of the list): a point exactly when both datasets match (inner join), with both values and the later of the two years; distinct countries give distinct points |
| Joins.FrontendScatter | frontend/src/hooks/useDatosGraficosEspecializados.js:17-53 | empty with no selection; each point is for a selected country and joins its latest filtered employment and unemployment records; every selected country with both gets a point; points follow the selection's order |
| Joins.FrontendLookups | frontend/src/hooks/useDatosGraficosEspecializados.js:31-40 | finding a country in the newest-first filtered list is the latest record passing both the filter and the country test |
| Joins.FrontendRadar | frontend/src/hooks/useDatosGraficosEspecializados.js:56-81 | exactly min(3, n) entries, one per selected country in order; each indicator is the latest matching value or 0; salary is divided by 100 |
| Joins.SrcScatter | src/hooks/useDatosGraficosEspecializados.js:14-42 | one point per country at most; a country gets a point exactly when both datasets have a `Total` row for it; the point joins the latest `Total` records |
| Joins.SrcLookups | src/hooks/useDatosGraficosEspecializados.js:15-19 | finding a country in the newest-first `Total` list is the latest `Total` record of that country |
| Joins.LatestHasTotal | src/hooks/useDatosGraficosEspecializados.js:15-19 | a latest `Total` record exists exactly when the country has a `Total` row |
| Joins.SrcRadarRow | src/hooks/useDatosGraficosEspecializados.js:56-63 | each indicator is the latest `Total` value or 0; salary is divided by 100 |
| Joins.SrcRadar | src/hooks/useDatosGraficosEspecializados.js:45-64 | the entries are the first `min(3, n)` distinct employment countries in first-appearance order, each with its latest `Total` values; hence at most three, distinct, and every employment country is covered when there are fewer than three |
| Joins.RadarCoverage | src/hooks/useDatosGraficosEspecializados.js:54 | taking the first min(3, n) countries leaves none out when fewer than three are taken |
| Joins.LastTotalAt | src/hooks/useDatosGraficosEspecializados.js:80-84 | the record kept for a country-year is a `Total` row of that key with no later `Total` row of the same key |
| Joins.MapRows | src/hooks/useDatosGraficosEspecializados.js:67-90 | one row per country-year holding a `Total` row, in the order those keys first appear, each the last such input row, no key twice; no input gives no rows |
| Charts.ColumnCountIsFilterLength | frontend/src/components/charts/DistributionCharts.jsx:13-16 | the divisor counts exactly the rows where the country has a value |
| Charts.ColumnSumBounds | frontend/src/components/charts/DistributionCharts.jsx:13-16 | with values in `[lo, hi]`, the column sum lies between count·lo and count·hi |
| Charts.Mean | frontend/src/components/charts/DistributionCharts.jsx:13-16 | 0 when the country has no value; otherwise mean × count equals the column sum |
| Charts.MeanWithinBounds | frontend/src/components/charts/DistributionCharts.jsx:13-16 | a country's average lies between the least and greatest of its values |
| Charts.MeanIgnoresRowsWithout | frontend/src/components/charts/DistributionCharts.jsx:13-16 | a row without the country does not change its average |
| Charts.AverageData | frontend/src/components/charts/DistributionCharts.jsx:12-18 | one entry per selected country in selection order, each with that country's average |
| Charts.AllSlices | frontend/src/components/charts/PieChart.jsx:12-16 | one slice per selected country, with the last row's value (0 if missing) and colour index = position mod 12 |
| Charts.PieData | frontend/src/components/charts/DistributionCharts.jsx:20-25 | an order-preserving subsequence of those slices, holding a country's slice exactly when its last-row value is positive |
| Charts.DistributionCharts | frontend/src/components/charts/DistributionCharts.jsx:10-25 | nothing is drawn exactly when the selection or the data is empty; otherwise averages and pie as above |
| Charts.PieChart | frontend/src/components/charts/PieChart.jsx:10-17 | nothing is drawn exactly when the selection or the data is empty; otherwise the same slices as the distribution panel |
| Charts.PieNamesDistinct | frontend/src/components/charts/PieChart.jsx:12-17 | a duplicate-free selection gives duplicate-free slices |
| Charts.Column | frontend/src/components/charts/RadarChart.jsx:13-17 | an indicator row has a column exactly for the countries of the radar records |
| Charts.ColumnLastWins | frontend/src/components/charts/RadarChart.jsx:13-17 | the column of a country holds the indicator of its last record |
| Charts.Transpose | frontend/src/components/charts/RadarChart.jsx:12-18 | one row per indicator key other than `country`, in key order, each labelled by its key, with a column per record's country |
| Charts.RadarChart | frontend/src/components/charts/RadarChart.jsx:10-18 | nothing is drawn exactly when there are no records |
| Charts.TransposeRoundTrip | frontend/src/components/charts/RadarChart.jsx:12-18 | reading a country's column back out of every indicator row gives its record again |
| Charts.AvailableYears | frontend/src/components/charts/MapaCoropleticoEmpleoInformal.jsx:27-31 | the years are strictly descending and are exactly those of the data; empty for no data |
| Charts.ResetYear | frontend/src/components/charts/MapaCoropleticoEmpleoInformal.jsx:34-38 | a year that is not available is replaced by the first (largest) available one; an available year, or no years at all, leaves it unchanged |
| Charts.ResetYearFacts | frontend/src/components/charts/MapaCoropleticoEmpleoInformal.jsx:34-38 | with data the chosen year occurs in it; a year with data is kept; resetting twice changes nothing |
| Charts.Plot | frontend/src/components/charts/MapaCoropleticoEmpleoInformal.jsx:44-63 | the three arrays have equal length, one entry per row of the year with a mapped country; each entry is that row's ISO-3 code, value and hover text |
| Charts.PlotComplete | frontend/src/components/charts/MapaCoropleticoEmpleoInformal.jsx:44-57 | every mapped row of the year contributes its code |
| Charts.PlotLocations | frontend/src/components/charts/MapaCoropleticoEmpleoInformal.jsx:44-57 | every location comes from a mapped row of the year |
| Charts.PlotLocationsDistinct | frontend/src/components/charts/MapaCoropleticoEmpleoInformal.jsx:44-63 | with one row per country and year, no location appears twice |
| Charts.MapDataFor | frontend/src/components/charts/MapaCoropleticoEmpleoInformal.jsx:41-64 | three empty arrays for no data; otherwise equal-length arrays, every mapped row of the year present |
| WageGap.ParseTable | frontend/src/components/charts/BubblePlotBrechaSalarial.jsx:64-74 | no table without a non-blank line; otherwise one row per non-blank line after the header |
| WageGap.ZipLines | frontend/src/components/charts/BubblePlotBrechaSalarial.jsx:67-74 | one row per body line, keyed only by headers |
| WageGap.SalaryRecOf | frontend/src/components/charts/BubblePlotBrechaSalarial.jsx:77-91 | a record exactly when the row passes the filter and its year parses; it carries the row's country and sex, the parsed year and the parsed salary |
| WageGap.SalaryRecords | frontend/src/components/charts/BubblePlotBrechaSalarial.jsx:77-83 | the records are exactly the usable rows with a parsable year, in file order, each with its row's country, sex, parsed year and parsed salary; every record is of one of the ten mapped countries and of sex Male or Female |
| WageGap.UnusableRowDropped | frontend/src/components/charts/BubblePlotBrechaSalarial.jsx:77-83 | a row outside the country map, not exactly `Currency: U.S. dollars`, of another sex, or without a parsable value contributes nothing |
| WageGap.LastSalary | frontend/src/components/charts/BubblePlotBrechaSalarial.jsx:86-96 | no salary exactly when no record matches country, year and sex |
| WageGap.LastSalaryIsLast | frontend/src/components/charts/BubblePlotBrechaSalarial.jsx:86-96 | the salary is that of the last matching record |
| WageGap.GroupIsLastSalary | frontend/src/components/charts/BubblePlotBrechaSalarial.jsx:86-96 | the nested grouping object holds, for every country, year and sex, the last matching salary |
| WageGap.CountryOrder | frontend/src/components/charts/BubblePlotBrechaSalarial.jsx:100 | the country keys are duplicate-free and are exactly the grouped countries |
| WageGap.CountryOrderIsFirstSeen | frontend/src/components/charts/BubblePlotBrechaSalarial.jsx:100 | countries are listed in order of first appearance |
| WageGap.YearOrder | frontend/src/components/charts/BubblePlotBrechaSalarial.jsx:101 | a country's year keys are duplicate-free and are exactly its years |
| WageGap.YearOrderAscending | frontend/src/components/charts/BubblePlotBrechaSalarial.jsx:101 | year keys are listed in ascending order, as integer-like object keys are |
| WageGap.Round1 | frontend/src/components/charts/BubblePlotBrechaSalarial.jsx:109 | rounding to one decimal moves the value by at most 0.05, keeps its sign and leaves a multiple of 0.1 |
| WageGap.Gap | frontend/src/components/charts/BubblePlotBrechaSalarial.jsx:109 | the gap is (male − female) / male × 100 to one decimal; not negative when the female salary is at most the male one, not positive when at least; a zero male salary gives no finite gap |
| WageGap.Bubbles | frontend/src/components/charts/BubblePlotBrechaSalarial.jsx:99-114 | a bubble exists for every country-year with both sexes, carries the last salary of each sex and the gap, and no country-year appears twice |
| WageGap.LoadBubbles | frontend/src/components/charts/BubblePlotBrechaSalarial.jsx:58-116 | no table without a non-blank line; otherwise every bubble holds the last male and female salary of the parsed rows for its country-year and their gap, every country-year of the parsed rows with both sexes gets one, no country-year twice, and every bubble is of a mapped country |
| WageGap.AvailableYears | frontend/src/components/charts/BubblePlotBrechaSalarial.jsx:128-131 | the years are strictly descending and are exactly the bubbles' years |
| WageGap.CurrentYearData | frontend/src/components/charts/BubblePlotBrechaSalarial.jsx:133-135 | an order-preserving subsequence holding exactly the bubbles of the selected year |
| WageGap.ChartDomain | frontend/src/components/charts/BubblePlotBrechaSalarial.jsx:138-150 | [0, 1000] for no data; otherwise the minimum is not negative, every salary is at most the maximum, every non-negative salary is at least the minimum, and with data the upper end is the largest salary plus a tenth of the salary spread, the lower end the smallest salary minus that same tenth, raised to 0 when it would not be positive |
| Timeline.Normalize | frontend/src/components/charts/TimelineComparison.jsx:25-33 | only `Brazil` and `Peru` are renamed, to `Brasil` and `Perú`; the Spanish names are the images of both spellings |
| Timeline.DatasetName | frontend/src/components/charts/TimelineComparison.jsx:36-42 | a name changes exactly when it is `Brasil` or `Perú` |
| Timeline.NameRoundTrip | frontend/src/components/charts/TimelineComparison.jsx:25-42 | normalising is idempotent, and mapping back gives the original name for every name other than `Brasil` and `Perú` |
| Timeline.Clean | frontend/src/components/charts/TimelineComparison.jsx:90-93 | a column exists exactly when the index is in range, and then holds no quote |
| Timeline.LabourOf | frontend/src/components/charts/TimelineComparison.jsx:88-106 | a kept labour record has a country, an age label containing `15+`, sex Male or Female, a year in 2010–2024, and year and rate as parsed |
| Timeline.LoadLabour | frontend/src/components/charts/TimelineComparison.jsx:80-113 | a failed fetch gives no records; otherwise the records are exactly those of the lines passing the filter, in file order; every record passes the filter |
| Timeline.SalaryOf | frontend/src/components/charts/TimelineComparison.jsx:125-143 | a kept salary record has a country, a currency containing `U.S. dollars`, sex Male or Female, a year in 2010–2024, and year and salary as parsed |
| Timeline.LoadSalary | frontend/src/components/charts/TimelineComparison.jsx:117-149 | a failed fetch gives no records; otherwise the records are exactly those of the lines passing the filter, in file order; every record passes the filter |
| Timeline.NonEmptyDistinct | frontend/src/components/charts/TimelineComparison.jsx:168-169 | the distinct non-empty names, in first-seen order |
| Timeline.CommonCountries | frontend/src/components/charts/TimelineComparison.jsx:168-170 | duplicate-free, exactly the non-empty names in both lists, in labour order |
| Timeline.YearBounds | frontend/src/components/charts/TimelineComparison.jsx:178-185 | no bounds for no years; otherwise both ends are years of the data and every year lies between them |
| Timeline.ClampRange | frontend/src/components/charts/TimelineComparison.jsx:188-191 | the clamped range covers exactly the years inside both the selection and the bounds |
| Timeline.ClampRangeIdempotent | frontend/src/components/charts/TimelineComparison.jsx:188-191 | clamping twice is clamping once |
| Timeline.ResetCountry | frontend/src/components/charts/TimelineComparison.jsx:195-197 | an unavailable country is replaced by the first common one; an available one, or an empty list, leaves it |
| Timeline.AllYears | frontend/src/components/charts/TimelineComparison.jsx:178-180 | the list holds every labour and every salary year |
| Timeline.AfterLoad | frontend/src/components/charts/TimelineComparison.jsx:154-207 | the offered countries are exactly `CommonCountries`: the labour countries, in labour order, that also appear in the salary data, de-duplicated; with data the bounds are the minimum and maximum of all years of both datasets (otherwise the defaults) and the range is clamped into them; the selected country is kept when it is still offered and otherwise becomes the first offered country |
| Timeline.AfterLoadIdempotent | frontend/src/components/charts/TimelineComparison.jsx:167-196 | re-running the effect on the range and country it left produces the same state |
| Timeline.PopulationFor | frontend/src/components/charts/TimelineComparison.jsx:269-270 | the population under the given name wins when present and non-zero; otherwise the dataset spelling is tried; 0 when neither has one |
| Timeline.LabourFoldSpec | frontend/src/components/charts/TimelineComparison.jsx:261-276 | a year is grouped exactly when some labour record has it; per sex the active population and rate are those of the last record of that year and sex |
| Timeline.SalaryFoldSpec | frontend/src/components/charts/TimelineComparison.jsx:285-290 | salaries never add a year; a grouped year gets the last salary of each sex and keeps everything else |
| Timeline.GroupedSpec | frontend/src/components/charts/TimelineComparison.jsx:255-290 | a year is grouped exactly when the country has a labour record in the range that year; its row is built from the last labour and salary records of that country, year and sex |
| Timeline.ProcessedData | frontend/src/components/charts/TimelineComparison.jsx:249-295 | empty without labour or salary data; years strictly ascending and in range; every row has both sexes' active population and comes from the selected country's records; every year in range with both sexes present has a row |
| Timeline.Trend | frontend/src/components/charts/TimelineComparison.jsx:461-464 | 0 when the latest or the first value is 0; otherwise trend × first = (latest − first) × 100, positive for a positive base exactly when the value rose |
| Timeline.TrendIsChange | frontend/src/components/charts/TimelineComparison.jsx:461-464 | where both are non-zero, the timeline's trend is the statistics hook's relative change |
| DotPlot.FirstToken | frontend/src/components/charts/DotPlotParticipacionLaboral.jsx:31 | no match exactly when no position starts a `NN-NN` or `NN+` token; otherwise the token at the leftmost such position |
| DotPlot.AgeGroup | frontend/src/components/charts/DotPlotParticipacionLaboral.jsx:31 | the age group is the first `NN-NN` or `NN+` token of the label, if any |
| DotPlot.TokenMatchesItself | frontend/src/components/charts/DotPlotParticipacionLaboral.jsx:31 | a token's own age group is itself |
| DotPlot.AgeGroupAfterPrefix | frontend/src/components/charts/DotPlotParticipacionLaboral.jsx:27-31 | the label `Age (10-year bands): 25-34` yields `25-34`: the digits of the prefix do not match |
| DotPlot.DotOf | frontend/src/components/charts/DotPlotParticipacionLaboral.jsx:26-35 | a row yields a dot exactly when its label starts with the age-band prefix and holds a token, and its sex is Male or Female; the dot carries the country, token, year and rate read from the row |
| DotPlot.LoadDots | frontend/src/components/charts/DotPlotParticipacionLaboral.jsx:23-36 | the dots are exactly those of the qualifying rows, in file order; every dot is Male or Female with a token |
| DotPlot.FilteredData | frontend/src/components/charts/DotPlotParticipacionLaboral.jsx:100-106 | an order-preserving subsequence holding exactly the dots of the selected country and year |
| DotPlot.AvailableYears | frontend/src/components/charts/DotPlotParticipacionLaboral.jsx:109 | the years are strictly ascending and are exactly the parsed years of the data |
| DotPlot.AvailableCountries | frontend/src/components/charts/DotPlotParticipacionLaboral.jsx:110 | duplicate-free, in first-seen order, exactly the countries of the data |
| DotPlot.AgeGroups | frontend/src/components/charts/DotPlotParticipacionLaboral.jsx:113-119 | the selected country's distinct age groups, ordered by their numeric lower bound |
| DotPlot.AgeStartExamples | frontend/src/components/charts/DotPlotParticipacionLaboral.jsx:116 | the lower bound of `25-34` is 25 and of `65+` is 65 |
| DotPlot.DotSize | frontend/src/components/charts/DotPlotParticipacionLaboral.jsx:123 | the size is the rate clamped into [16, 50]; an unparsable rate stays unparsable |
| DotPlot.DotSizeMonotone | frontend/src/components/charts/DotPlotParticipacionLaboral.jsx:123 | a larger rate never gives a smaller dot |
| Informality.YearData | frontend/src/components/charts/InformalityAnalysis.jsx:75 | exactly the records of the selected year |
| Informality.SexRates | frontend/src/components/charts/InformalityAnalysis.jsx:78-83 | a country's object has a sex exactly when a record of that country and sex exists |
| Informality.SexRatesLastWins | frontend/src/components/charts/InformalityAnalysis.jsx:82 | the rate stored for a sex is that of the last such record |
| Informality.ProcessedData | frontend/src/components/charts/InformalityAnalysis.jsx:74-86 | one object per country of the year, no country twice, each holding its sex rates |
| Informality.ProcessedOrderIsFirstSeen | frontend/src/components/charts/InformalityAnalysis.jsx:76-85 | countries are listed in order of first appearance |
| Informality.GenderGapData | frontend/src/components/charts/InformalityAnalysis.jsx:89-96 | same length and order as the processed data; missing rates read 0; gap = female − male |
| Informality.GapFromRecords | frontend/src/components/charts/InformalityAnalysis.jsx:74-96 | each gap is the last female rate minus the last male rate for that country and year |
| Informality.TrendValues | frontend/src/components/charts/InformalityAnalysis.jsx:105-112 | a country has a column exactly when a `Total` record exists for it and the year, holding the first such record's rate |
| Informality.TrendsData | frontend/src/components/charts/InformalityAnalysis.jsx:99-115 | exactly two rows, for `2023` and `2024`; each holds a value exactly for the listed countries with a `Total` row that year, and that value is the rate of the first such row |
| Informality.FirstAndLastDiffer | frontend/src/components/charts/InformalityAnalysis.jsx:82-110 | with two `Total` records for one country and year, the trends table shows the first and the pivot the last |
| JsObject.IntKeys | frontend/src/components/charts/BubblePlotBrechaSalarial.jsx:101 | the keys are duplicate-free and are exactly the inserted keys |
| JsObject.IntKeysAscending | frontend/src/components/charts/BubblePlotBrechaSalarial.jsx:101 | integer-like keys are listed in ascending order |
| JsObject.StringKeys | frontend/src/components/charts/InformalityAnalysis.jsx:85 | the keys are duplicate-free and are exactly the inserted keys |
| JsObject.StringKeysInsertionOrder | frontend/src/components/charts/InformalityAnalysis.jsx:85 | keys that are not integer-like are listed in order of first insertion |
| Selection.Toggle | frontend/src/App_backup.jsx:100-106 | the toggled country is in the result exactly when it was not in the list; no other membership changes |
| Selection.ToggleTwiceMembership | frontend/src/components/charts/TimelineComparison.jsx:577-581 | toggling twice restores membership |
| Selection.ToggleOnOff | frontend/src/App_backup.jsx:100-106 | toggling an absent country twice restores the list itself |
| Selection.ToggleOffOnMoves | frontend/src/App_backup.jsx:100-106 | toggling a present country twice moves it to the end, so the list is not restored |
| Selection.ToggleKeepsDistinct | frontend/src/App_backup.jsx:100-106 | a duplicate-free selection stays duplicate-free |
| Selection.GenerateMockData | frontend/src/mockData.js:83-90 | an empty selection returns the whole list; otherwise an order-preserving subsequence holding exactly the items whose country contains, ignoring case, some selected string |
| Selection.MockFilterMonotone | frontend/src/mockData.js:86-89 | adding a string to a non-empty selection never removes an item |
| Selection.MockFilterIgnoresCase | frontend/src/mockData.js:87 | `chile` selects `Chile` |
| Selection.DisplayName | frontend/src/components/filtros/FiltrosPaises.jsx:19-21 | a label without either suffix is unchanged; the display name is never longer |
| Selection.DisplayNameStripsBolivia | frontend/src/components/filtros/FiltrosPaises.jsx:19-21 | a one-word name followed by ` (Plurinational State of)` loses the suffix |
| Selection.DisplayNameStripsVenezuela | frontend/src/components/filtros/FiltrosPaises.jsx:19-21 | a one-word name followed by ` (Bolivarian Republic of)` loses the suffix |
| Selection.DisplayNameBolivia | src/components/filtros/FiltrosPaises.jsx:6-8 | the Bolivia label shows as `Bolivia` |
| Selection.DisplayNameVenezuela | src/components/filtros/FiltrosPaises.jsx:6-8 | the Venezuela label shows as `Venezuela` |
| Selection.DisplayNames | src/components/filtros/FiltrosPaises.jsx:5-9 | same length and order as the available countries, each by its display name |
| Selection.ClickFlips | frontend/src/components/filtros/FiltrosPaises.jsx:26-28 | clicking a button flips its selected state, which is read through the display name; other buttons with another display name keep theirs |
| Selection.SelectAll | frontend/src/components/filtros/FiltrosPaises.jsx:52-57 | the selection becomes the display names of the available countries, one for one and in the panel's order, so every available country shows as selected |
| Selection.ClearDeselectsAll | frontend/src/components/filtros/FiltrosPaises.jsx:42-45 | after clearing no country shows as selected and the actions are hidden |
| Selection.SelectAllShowsActions | frontend/src/components/filtros/FiltrosPaises.jsx:42-57 | selecting all of a non-empty list shows the actions |
| Selection.CountryCount | src/components/filtros/FiltrosPaises.jsx:26 | the count shown is the number of listed countries |

## Left out

- Rendering, chart configuration, colours, tooltips and CSS are left out. They have no data logic. The DotPlot tooltip lookups (`find` by age group and sex) are not modelled.
- `fetch`, `response.text()` and `Promise.all` are left out: I/O. A response body is `Option<string>` in the timeline loaders, where a failed fetch yields `[]`. Elsewhere the body is a parameter. Loading and error flags are left out: UI state.
- React's `useState`/`useEffect`/`useMemo` re-computation is left out. Each memo body is a pure function of its inputs.
- `Papa.parse` is a foreign library. Its output is taken as a sequence of string-keyed rows, and only the post-processing is modelled.
- `parseInt`, `parseFloat`, `Number`, `toFixed` and `toLocaleString` text are left out because they are JavaScript number formatting. The parsers are parameters; the wage gap's `toFixed(1)` is `WageGap.Round1` on reals (a bound, not the exact IEEE rounding); the other `toFixed` calls are left out: the statistics keep the number, not its text.
- WageGap.Gap: rounds to one decimal by a bound of 0.05. It does not reproduce the exact `toFixed(1)` digits, because those depend on the binary value of the double.
- Summary.SummaryStats: the trend is a `Ratio`. The `+` sign prefix and the `%`/unit suffix are left out, because the text is formatting.
- DotPlot.AvailableYears: lists only the years that parse. The source's `new Set` also keeps one `NaN` entry when some kept row's `time` does not parse, and its comparator `a - b` returns `NaN` for it, so where the engine's sort leaves that entry is not fixed; the model omits it. Years are `Option<int>` on the dots, so the rows themselves are kept.
- WageGap.SalaryRecords: a usable row whose `time` does not parse is dropped. In the source it would be grouped under the key `NaN` and could give a bubble whose year is NaN. Years are `int` here, and such a bubble could never match a selected year anyway.
- JavaScript's default `sort()` compares UTF-16 code units. `Sorting.StringLess` compares `char` code points, which agrees for the characters the data holds.
- `toLowerCase` (mock-data filter) is modelled for ASCII and Latin-1 capitals only. Full Unicode case mapping is outside what the country names need.
- JavaScript objects used as maps are modelled as Dafny maps, so a key named like an `Object.prototype` property (`constructor`, `__proto__`) has no special meaning here. In the informality pivot, a record whose sex is the text `country` would overwrite the country field in JavaScript. Here rates live in their own map, so that case is left out.
- The informal map's de-duplication key is the text `${country}-${year}`. It is modelled as the pair (country, year). Two different pairs whose texts coincide (a country name ending in `-2020`) are left out.
- The hard-coded population table and the informality and salary sample arrays are parameters, not transcribed data.
- `metricsConfig`, the metric colours and the statistics cards of the timeline are left out: presentation. The metric toggle is `Selection.Toggle`.
- Csv.SplitBoundary: the round trip is stated only for quoted fields that do not end in a comma. Such a field is mis-split by the source, as `Csv.BoundaryQuoteAfterComma` shows, and the model keeps that behaviour.
- `calculateTrend` receives `undefined` when a series is empty. `Timeline.Trend` takes the two values, with 0 standing for a missing one, as the source's `!latest || !first` test treats both alike.
- `|| 0` on a NaN amount (`Loaders.Amount`) is the same as on a missing one. The model reads both as 0.
- The informality trends table takes the first `Total` record of a country and year (`find`), while the pivot keeps the last (`Informality.FirstAndLastDiffer`). Both are modelled as written.
- The display-name lemmas are stated for the two suffix constants appended to a name. A label in which a suffix occurs elsewhere is only covered by the general `Selection.DisplayName` contract.
