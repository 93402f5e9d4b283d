/**
 * The row shapes the dashboard's pipeline passes around, and the fixed
 * country tables its components consult.
 */
module Records {
  import opened Wrappers

  /**
   * One observation of an indicator series after loading. An empty
   * `ageGroup` stands for a row without an age label (`undefined` or `""`,
   * both falsy).
   */
  datatype Obs = Obs(country: string, year: int, value: real, sex: string, ageGroup: string)

  /** The records' countries, in order. */
  function CountriesOf(rows: seq<Obs>): (cs: seq<string>)
    ensures |cs| == |rows| && forall k :: 0 <= k < |rows| ==> cs[k] == rows[k].country
  {
    seq(|rows|, k requires 0 <= k < |rows| => rows[k].country)
  }

  /** The records' years, in order. */
  function YearsOf(rows: seq<Obs>): (ys: seq<int>)
    ensures |ys| == |rows| && forall k :: 0 <= k < |rows| ==> ys[k] == rows[k].year
  {
    seq(|rows|, k requires 0 <= k < |rows| => rows[k].year)
  }

  /** The five indicator series the dashboard switches between. */
  datatype Datasets = Datasets(
    employment: seq<Obs>,
    unemployment: seq<Obs>,
    informal: seq<Obs>,
    laborForce: seq<Obs>,
    salary: seq<Obs>)

  /** The `switch (activeDataset)` of both data-processing hooks. */
  function SelectDataset(ds: Datasets, key: string): (r: seq<Obs>)
    ensures key !in DatasetKeys() ==> r == []
  {
    match key
    case "employment" => ds.employment
    case "unemployment" => ds.unemployment
    case "informal" => ds.informal
    case "laborForce" => ds.laborForce
    case "salary" => ds.salary
    case _ => []
  }

  function DatasetKeys(): set<string> {
    {"employment", "unemployment", "informal", "laborForce", "salary"}
  }

  /** Each known key selects its own series. */
  lemma SelectKnownDataset(ds: Datasets)
    ensures SelectDataset(ds, "employment") == ds.employment
    ensures SelectDataset(ds, "unemployment") == ds.unemployment
    ensures SelectDataset(ds, "informal") == ds.informal
    ensures SelectDataset(ds, "laborForce") == ds.laborForce
    ensures SelectDataset(ds, "salary") == ds.salary
  {
  }

  /**
   * A row as a CSV parser hands it over: column name to cell text. A column
   * the line did not reach has no entry (`undefined`).
   */
  type RawRow = map<string, string>

  /** `row[name]`. */
  function Cell(row: RawRow, name: string): Option<string> {
    if name in row then Some(row[name]) else None
  }

  /** A present, non-empty cell: what `if (row[name])` accepts. */
  predicate Truthy(cell: Option<string>) {
    cell.Some? && |cell.value| > 0
  }

  /** The ten countries of the salary-gap bubble plot. */
  function BubbleCountries(): seq<string> {
    ["Argentina", "Bolivia (Plurinational State of)", "Brazil", "Chile", "Colombia",
     "Ecuador", "Paraguay", "Peru", "Uruguay", "Venezuela (Bolivarian Republic of)"]
  }

  /** The twelve South American countries of the backup dashboard. */
  function SouthAmerica(): seq<string> {
    ["Argentina", "Bolivia (Plurinational State of)", "Brazil", "Chile", "Colombia",
     "Ecuador", "Guyana", "Paraguay", "Peru", "Suriname",
     "Uruguay", "Venezuela (Bolivarian Republic of)"]
  }

  /** The choropleth's country-to-ISO-3 table; `None` for an unmapped country. */
  function Iso3(country: string): Option<string> {
    match country
    case "Argentina" => Some("ARG")
    case "Bolivia (Plurinational State of)" => Some("BOL")
    case "Brazil" => Some("BRA")
    case "Chile" => Some("CHL")
    case "Colombia" => Some("COL")
    case "Ecuador" => Some("ECU")
    case "Guyana" => Some("GUY")
    case "Paraguay" => Some("PRY")
    case "Peru" => Some("PER")
    case "Suriname" => Some("SUR")
    case "Uruguay" => Some("URY")
    case "Venezuela (Bolivarian Republic of)" => Some("VEN")
    case _ => None
  }

  /** The ISO-3 table covers exactly the twelve South American countries. */
  lemma Iso3Domain(country: string)
    ensures Iso3(country).Some? <==> country in SouthAmerica()
    ensures Iso3(country).Some? ==> |Iso3(country).value| == 3
  {
  }

  /** No two countries share an ISO-3 code. */
  lemma Iso3Injective(a: string, b: string)
    requires Iso3(a).Some? && Iso3(a) == Iso3(b)
    ensures a == b
  {
  }
}
