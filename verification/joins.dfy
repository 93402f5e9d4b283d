/**
 * The specialised-chart hooks: the employment/unemployment scatter (an
 * inner join of each country's latest records), the radar rows (each
 * indicator's latest value per country) and the informal-employment map
 * rows (one record per country and year), in the frontend and `src/`
 * variants.
 */
module Joins {
  import opened Wrappers
  import Seqs
  import opened Strings
  import opened Sorting
  import opened Records

  function NegYear(r: Obs): int { -r.year }

  function Max(a: int, b: int): int { if a >= b then a else b }

  /**
   * Reference definition of "the latest record satisfying `p`": one with
   * the greatest year, the first in input order among records of that year.
   */
  function Latest(rows: seq<Obs>, p: Obs -> bool): (r: Option<Obs>)
    ensures r.None? <==> forall k :: 0 <= k < |rows| ==> !p(rows[k])
    ensures r.Some? ==> exists k :: 0 <= k < |rows| && rows[k] == r.value && p(rows[k])
                          && (forall j :: 0 <= j < |rows| && p(rows[j]) ==> rows[j].year <= rows[k].year)
                          && (forall j :: 0 <= j < k && p(rows[j]) ==> rows[j].year < rows[k].year)
  {
    MinBy(rows, p, NegYear)
  }

  /** `rows.filter(q).sort((a, b) => b.year - a.year)`. */
  function NewestFirst(rows: seq<Obs>, q: Obs -> bool): seq<Obs> {
    SortBy(Seqs.Filter(rows, q), NegYear)
  }

  /** `rows.filter(q).sort(...).find(p)` finds the latest record satisfying both. */
  lemma FindNewest(rows: seq<Obs>, q: Obs -> bool, p: Obs -> bool, pq: Obs -> bool)
    requires forall x :: pq(x) == (q(x) && p(x))
    ensures Seqs.Find(NewestFirst(rows, q), p) == Latest(rows, pq)
  {
    FindSortedIsMinBy(Seqs.Filter(rows, q), p, NegYear);
    MinByFilter(rows, q, p, pq, NegYear);
  }

  predicate Always(r: Obs) { true }

  /** `sorted.length > 0 ? sorted[0].value : 0`. */
  function FirstValueOrZero(sorted: seq<Obs>): real {
    if |sorted| > 0 then sorted[0].value else 0.0
  }

  function ValueOrZero(o: Option<Obs>): real {
    match o
    case Some(r) => r.value
    case None => 0.0
  }

  /** `getLatestValue`: the value of the latest record satisfying `q`, or 0. */
  function LatestValue(rows: seq<Obs>, q: Obs -> bool): (v: real)
    ensures v == ValueOrZero(Latest(rows, q))
  {
    var sorted := NewestFirst(rows, q);
    FindNewest(rows, q, Always, q);
    FirstValueOrZero(sorted)
  }

  // ---------------------------------------------------------------------
  // The join shared by both scatter variants
  // ---------------------------------------------------------------------

  datatype ScatterPoint = ScatterPoint(country: string, employment: real, unemployment: real, year: int)

  /** `pt` pairs the two records found for its country. */
  predicate JoinedFrom(pt: ScatterPoint, e: Option<Obs>, u: Option<Obs>) {
    && e.Some? && u.Some?
    && pt.employment == e.value.value
    && pt.unemployment == u.value.value
    && pt.year == Max(e.value.year, u.value.year)
  }

  predicate HasPointFor(pts: seq<ScatterPoint>, c: string) {
    exists i :: 0 <= i < |pts| && pts[i].country == c
  }

  /** The points' countries, in order. */
  function PointCountries(pts: seq<ScatterPoint>): (cs: seq<string>)
    ensures |cs| == |pts| && forall i :: 0 <= i < |pts| ==> cs[i] == pts[i].country
  {
    seq(|pts|, i requires 0 <= i < |pts| => pts[i].country)
  }

  predicate DistinctCountries(pts: seq<ScatterPoint>) {
    forall i, j :: 0 <= i < j < |pts| ==> pts[i].country != pts[j].country
  }

  lemma ConsPoint(pt: ScatterPoint, rest: seq<ScatterPoint>, cs: seq<string>)
    requires forall i :: 0 <= i < |rest| ==> rest[i].country in cs
    ensures forall c :: HasPointFor([pt] + rest, c) <==> c == pt.country || HasPointFor(rest, c)
    ensures pt.country !in cs && DistinctCountries(rest) ==> DistinctCountries([pt] + rest)
  {
    var pts := [pt] + rest;
    assert forall i :: 1 <= i < |pts| ==> pts[i] == rest[i - 1];
    forall c | HasPointFor(rest, c) ensures HasPointFor(pts, c) {
      var i :| 0 <= i < |rest| && rest[i].country == c;
      assert pts[i + 1].country == c;
    }
    assert pts[0] == pt;
  }

  /** What `Points` promises of `pts` for the countries `cs`. */
  ghost predicate PointsOk(cs: seq<string>, emp: string -> Option<Obs>, unemp: string -> Option<Obs>, pts: seq<ScatterPoint>) {
    PointsJoined(cs, emp, unemp, pts) && Seqs.IsSubseq(PointCountries(pts), cs)
  }

  /** The points are joined from the lookups, one per answered country. */
  ghost predicate PointsJoined(cs: seq<string>, emp: string -> Option<Obs>, unemp: string -> Option<Obs>, pts: seq<ScatterPoint>) {
    && |pts| <= |cs|
    && (forall i :: 0 <= i < |pts| ==> pts[i].country in cs)
    && (forall i :: 0 <= i < |pts| ==> JoinedFrom(pts[i], emp(pts[i].country), unemp(pts[i].country)))
    && (forall c :: c in cs && emp(c).Some? && unemp(c).Some? ==> HasPointFor(pts, c))
    && (Seqs.Distinct(cs) ==> DistinctCountries(pts))
  }

  /** A point for each country that both lookups answer, in the order of `cs`. */
  function Points(cs: seq<string>, emp: string -> Option<Obs>, unemp: string -> Option<Obs>): (pts: seq<ScatterPoint>)
    ensures |pts| <= |cs|
    ensures forall i :: 0 <= i < |pts| ==> pts[i].country in cs
    ensures forall i :: 0 <= i < |pts| ==> JoinedFrom(pts[i], emp(pts[i].country), unemp(pts[i].country))
    ensures forall c :: c in cs && emp(c).Some? && unemp(c).Some? ==> HasPointFor(pts, c)
    ensures Seqs.Distinct(cs) ==> DistinctCountries(pts)
    ensures Seqs.IsSubseq(PointCountries(pts), cs)
  {
    if |cs| == 0 then []
    else
      var rest := Points(cs[1..], emp, unemp);
      PointsStep(cs, emp, unemp, rest);
      PointFor(cs[0], emp, unemp, rest)
  }

  /** The point for `c`, when both lookups answer, in front of `rest`. */
  function PointFor(c: string, emp: string -> Option<Obs>, unemp: string -> Option<Obs>, rest: seq<ScatterPoint>): seq<ScatterPoint> {
    var e := emp(c);
    var u := unemp(c);
    if e.Some? && u.Some? then [ScatterPoint(c, e.value.value, u.value.value, Max(e.value.year, u.value.year))] + rest
    else rest
  }

  lemma PointsStep(cs: seq<string>, emp: string -> Option<Obs>, unemp: string -> Option<Obs>, rest: seq<ScatterPoint>)
    requires |cs| > 0 && PointsOk(cs[1..], emp, unemp, rest)
    ensures PointsOk(cs, emp, unemp, PointFor(cs[0], emp, unemp, rest))
  {
    var c := cs[0];
    if emp(c).Some? && unemp(c).Some? {
      PointsCons(cs, emp, unemp, rest);
    } else {
      PointsSkip(cs, emp, unemp, rest);
    }
  }

  /** A country one lookup misses adds no point. */
  lemma PointsSkip(cs: seq<string>, emp: string -> Option<Obs>, unemp: string -> Option<Obs>, rest: seq<ScatterPoint>)
    requires |cs| > 0 && PointsOk(cs[1..], emp, unemp, rest)
    requires emp(cs[0]).None? || unemp(cs[0]).None?
    ensures PointsOk(cs, emp, unemp, rest)
  {
    Seqs.HeadTail(cs);
    forall i | 0 <= i < |rest| ensures rest[i].country in cs {
      assert rest[i].country in cs[1..];
    }
    forall x | x in cs && emp(x).Some? && unemp(x).Some? ensures HasPointFor(rest, x) {
      assert x in cs[1..];
    }
    Seqs.SubseqPrepend(PointCountries(rest), cs[1..], cs[0]);
    assert [cs[0]] + cs[1..] == cs;
  }

  /** A country both lookups answer adds its point in front. */
  lemma PointsCons(cs: seq<string>, emp: string -> Option<Obs>, unemp: string -> Option<Obs>, rest: seq<ScatterPoint>)
    requires |cs| > 0 && PointsOk(cs[1..], emp, unemp, rest)
    requires emp(cs[0]).Some? && unemp(cs[0]).Some?
    ensures PointsOk(cs, emp, unemp, PointFor(cs[0], emp, unemp, rest))
  {
    var e := emp(cs[0]);
    var u := unemp(cs[0]);
    var pt := ScatterPoint(cs[0], e.value.value, u.value.value, Max(e.value.year, u.value.year));
    assert PointFor(cs[0], emp, unemp, rest) == [pt] + rest;
    PointsConsJoined(cs, emp, unemp, rest);
    ConsOrder(pt, rest, cs);
  }

  lemma PointsConsJoined(cs: seq<string>, emp: string -> Option<Obs>, unemp: string -> Option<Obs>, rest: seq<ScatterPoint>)
    requires |cs| > 0 && PointsJoined(cs[1..], emp, unemp, rest)
    requires emp(cs[0]).Some? && unemp(cs[0]).Some?
    ensures PointsJoined(cs, emp, unemp, PointFor(cs[0], emp, unemp, rest))
  {
    var c := cs[0];
    var e := emp(c);
    var u := unemp(c);
    var pt := ScatterPoint(c, e.value.value, u.value.value, Max(e.value.year, u.value.year));
    var pts := [pt] + rest;
    assert PointFor(c, emp, unemp, rest) == pts;
    Seqs.HeadTail(cs);
    ConsPoint(pt, rest, cs[1..]);
    assert pts[0] == pt;
    forall i | 1 <= i < |pts| ensures pts[i] == rest[i - 1] && pts[i].country in cs {
      assert rest[i - 1].country in cs[1..];
    }
    assert forall i :: 0 <= i < |pts| ==> JoinedFrom(pts[i], emp(pts[i].country), unemp(pts[i].country));
    forall x | x in cs && emp(x).Some? && unemp(x).Some? ensures HasPointFor(pts, x) {
      if x != c { assert x in cs[1..]; }
    }
  }

  /** A point for the first country, in front of points in the order of the rest, keeps the order of all. */
  lemma ConsOrder(pt: ScatterPoint, rest: seq<ScatterPoint>, cs: seq<string>)
    requires |cs| > 0 && pt.country == cs[0] && Seqs.IsSubseq(PointCountries(rest), cs[1..])
    ensures Seqs.IsSubseq(PointCountries([pt] + rest), cs)
  {
    Seqs.SubseqPrepend(PointCountries(rest), cs[1..], cs[0]);
    assert [cs[0]] + cs[1..] == cs;
    assert PointCountries([pt] + rest) == [cs[0]] + PointCountries(rest);
  }

  // ---------------------------------------------------------------------
  // Frontend variant: filtered by the user's sex, age and countries
  // ---------------------------------------------------------------------

  predicate SexOk(selectedSex: string, r: Obs) {
    selectedSex == "Total" || r.sex == selectedSex
  }

  /** The specialised charts' age test: the selected label must occur in the row's, unless salary or no label. */
  predicate AgeOk(dataType: string, selectedAge: string, r: Obs) {
    dataType == "salary" || r.ageGroup == "" || Contains(r.ageGroup, selectedAge)
  }

  predicate Mentions(c: string, r: Obs) { Contains(r.country, c) }

  /** The scatter's row filter. */
  predicate ScatterKeep(sex: string, age: string, countries: seq<string>, dataType: string, r: Obs) {
    SexOk(sex, r) && Seqs.Any(countries, (c: string) => Contains(r.country, c)) && AgeOk(dataType, age, r)
  }

  /** A kept row that mentions `c`. */
  predicate ScatterMatch(sex: string, age: string, countries: seq<string>, dataType: string, c: string, r: Obs) {
    ScatterKeep(sex, age, countries, dataType, r) && Mentions(c, r)
  }

  /** The latest kept row of a series that mentions `c`. */
  function FrontendLatest(rows: seq<Obs>, sex: string, age: string, countries: seq<string>, dataType: string, c: string): Option<Obs> {
    Latest(rows, (r: Obs) => ScatterMatch(sex, age, countries, dataType, c, r))
  }

  /** `scatterData` of the frontend hook. */
  function FrontendScatter(countries: seq<string>, sex: string, age: string, emp: seq<Obs>, unemp: seq<Obs>)
    : (pts: seq<ScatterPoint>)
    ensures |countries| == 0 ==> pts == []
    ensures |pts| <= |countries|
    ensures forall i :: 0 <= i < |pts| ==> pts[i].country in countries
    ensures forall i :: 0 <= i < |pts| ==>
              JoinedFrom(pts[i], FrontendLatest(emp, sex, age, countries, "employment", pts[i].country),
                                 FrontendLatest(unemp, sex, age, countries, "unemployment", pts[i].country))
    ensures forall c :: c in countries
              && FrontendLatest(emp, sex, age, countries, "employment", c).Some?
              && FrontendLatest(unemp, sex, age, countries, "unemployment", c).Some?
              ==> HasPointFor(pts, c)
    ensures Seqs.IsSubseq(PointCountries(pts), countries)
  {
    if |countries| == 0 then []
    else
      var le := NewestFirst(emp, (r: Obs) => ScatterKeep(sex, age, countries, "employment", r));
      var lu := NewestFirst(unemp, (r: Obs) => ScatterKeep(sex, age, countries, "unemployment", r));
      var findE := (c: string) => Seqs.Find(le, (r: Obs) => Mentions(c, r));
      var findU := (c: string) => Seqs.Find(lu, (r: Obs) => Mentions(c, r));
      FrontendLookups(countries, sex, age, emp, unemp);
      Points(countries, findE, findU)
  }

  /** Each lookup of the frontend scatter is the reference latest record. */
  lemma FrontendLookups(countries: seq<string>, sex: string, age: string, emp: seq<Obs>, unemp: seq<Obs>)
    ensures forall c: string ::
              Seqs.Find(NewestFirst(emp, (r: Obs) => ScatterKeep(sex, age, countries, "employment", r)),
                        (r: Obs) => Mentions(c, r))
              == FrontendLatest(emp, sex, age, countries, "employment", c)
    ensures forall c: string ::
              Seqs.Find(NewestFirst(unemp, (r: Obs) => ScatterKeep(sex, age, countries, "unemployment", r)),
                        (r: Obs) => Mentions(c, r))
              == FrontendLatest(unemp, sex, age, countries, "unemployment", c)
  {
    forall c: string
      ensures Seqs.Find(NewestFirst(emp, (r: Obs) => ScatterKeep(sex, age, countries, "employment", r)),
                        (r: Obs) => Mentions(c, r))
              == FrontendLatest(emp, sex, age, countries, "employment", c)
    {
      FindNewest(emp, (r: Obs) => ScatterKeep(sex, age, countries, "employment", r), (r: Obs) => Mentions(c, r),
                 (r: Obs) => ScatterMatch(sex, age, countries, "employment", c, r));
    }
    forall c: string
      ensures Seqs.Find(NewestFirst(unemp, (r: Obs) => ScatterKeep(sex, age, countries, "unemployment", r)),
                        (r: Obs) => Mentions(c, r))
              == FrontendLatest(unemp, sex, age, countries, "unemployment", c)
    {
      FindNewest(unemp, (r: Obs) => ScatterKeep(sex, age, countries, "unemployment", r), (r: Obs) => Mentions(c, r),
                 (r: Obs) => ScatterMatch(sex, age, countries, "unemployment", c, r));
    }
  }

  // ---------------------------------------------------------------------
  // Radar rows
  // ---------------------------------------------------------------------

  datatype RadarRow = RadarRow(
    country: string,
    employment: real,
    unemployment: real,
    informal: real,
    laborForce: real,
    salary: real)

  function Min(a: int, b: int): int { if a <= b then a else b }

  /** The frontend radar's row filter for one country. */
  predicate RadarMatch(sex: string, age: string, dataType: string, c: string, r: Obs) {
    SexOk(sex, r) && Mentions(c, r) && AgeOk(dataType, age, r)
  }

  function RadarValue(rows: seq<Obs>, sex: string, age: string, dataType: string, c: string): real {
    LatestValue(rows, (r: Obs) => RadarMatch(sex, age, dataType, c, r))
  }

  /** `radarData` of the frontend hook: the first three selected countries, salary scaled by 1/100. */
  function FrontendRadar(countries: seq<string>, sex: string, age: string, ds: Datasets): (rows: seq<RadarRow>)
    ensures |rows| == Min(3, |countries|)
    ensures forall i :: 0 <= i < |rows| ==> rows[i].country == countries[i]
    ensures forall i :: 0 <= i < |rows| ==>
              var c := countries[i];
              && rows[i].employment
                   == ValueOrZero(Latest(ds.employment, (r: Obs) => RadarMatch(sex, age, "employment", c, r)))
              && rows[i].unemployment
                   == ValueOrZero(Latest(ds.unemployment, (r: Obs) => RadarMatch(sex, age, "unemployment", c, r)))
              && rows[i].informal
                   == ValueOrZero(Latest(ds.informal, (r: Obs) => RadarMatch(sex, age, "informal", c, r)))
              && rows[i].laborForce
                   == ValueOrZero(Latest(ds.laborForce, (r: Obs) => RadarMatch(sex, age, "laborForce", c, r)))
              && rows[i].salary
                   == ValueOrZero(Latest(ds.salary, (r: Obs) => RadarMatch(sex, age, "salary", c, r))) / 100.0
  {
    var shown := countries[..Min(3, |countries|)];
    seq(|shown|, i requires 0 <= i < |shown| =>
      RadarRow(shown[i],
        RadarValue(ds.employment, sex, age, "employment", shown[i]),
        RadarValue(ds.unemployment, sex, age, "unemployment", shown[i]),
        RadarValue(ds.informal, sex, age, "informal", shown[i]),
        RadarValue(ds.laborForce, sex, age, "laborForce", shown[i]),
        RadarValue(ds.salary, sex, age, "salary", shown[i]) / 100.0))
  }

  // ---------------------------------------------------------------------
  // `src/` variant: only "Total" rows, countries matched exactly
  // ---------------------------------------------------------------------

  predicate IsTotal(r: Obs) { r.sex == "Total" }

  predicate TotalFor(c: string, r: Obs) { r.sex == "Total" && r.country == c }

  predicate Named(c: string, r: Obs) { r.country == c }

  /** Some "Total" record of `rows` is for country `c`. */
  predicate HasTotal(rows: seq<Obs>, c: string) {
    exists k :: 0 <= k < |rows| && TotalFor(c, rows[k])
  }

  /** `scatterData` of the hook under `src/`. */
  function SrcScatter(emp: seq<Obs>, unemp: seq<Obs>): (pts: seq<ScatterPoint>)
    ensures DistinctCountries(pts)
    ensures forall i :: 0 <= i < |pts| ==>
              JoinedFrom(pts[i], Latest(emp, TotalForP(pts[i].country)), Latest(unemp, TotalForP(pts[i].country)))
    ensures forall c :: HasPointFor(pts, c) <==> HasTotal(emp, c) && HasTotal(unemp, c)
  {
    var le := NewestFirst(emp, IsTotal);
    var lu := NewestFirst(unemp, IsTotal);
    var countries := Seqs.Dedup(CountriesOf(le + lu));
    SrcLookups(emp, le);
    SrcLookups(unemp, lu);
    PointsSameLookups(countries, FindIn(le), FindIn(lu), LatestIn(emp), LatestIn(unemp));
    SrcCountries(emp, unemp, countries);
    SrcPoints(emp, unemp, countries);
    Points(countries, FindIn(le), FindIn(lu))
  }

  /** `rows.find(r => r.country === c)` as a lookup by country. */
  function FindIn(rows: seq<Obs>): string -> Option<Obs> {
    (c: string) => Seqs.Find(rows, NamedP(c))
  }

  /** The reference lookup: the latest `Total` record of a country. */
  function LatestIn(rows: seq<Obs>): string -> Option<Obs> {
    (c: string) => Latest(rows, TotalForP(c))
  }

  /** Joining depends only on what the lookups return. */
  lemma {:induction false} PointsSameLookups(cs: seq<string>, e1: string -> Option<Obs>, u1: string -> Option<Obs>,
                                             e2: string -> Option<Obs>, u2: string -> Option<Obs>)
    requires forall c :: e1(c) == e2(c) && u1(c) == u2(c)
    ensures Points(cs, e1, u1) == Points(cs, e2, u2)
  {
    if |cs| > 0 {
      PointsSameLookups(cs[1..], e1, u1, e2, u2);
    }
  }

  /** Points joined from the reference lookups exist exactly for countries with a `Total` record in both. */
  lemma SrcPoints(emp: seq<Obs>, unemp: seq<Obs>, countries: seq<string>)
    requires forall c :: HasTotal(emp, c) ==> c in countries
    ensures forall c :: HasPointFor(Points(countries, LatestIn(emp), LatestIn(unemp)), c) <==> HasTotal(emp, c) && HasTotal(unemp, c)
  {
    var pts := Points(countries, LatestIn(emp), LatestIn(unemp));
    forall c | HasPointFor(pts, c) ensures HasTotal(emp, c) && HasTotal(unemp, c) {
      var i :| 0 <= i < |pts| && pts[i].country == c;
      assert JoinedFrom(pts[i], LatestIn(emp)(c), LatestIn(unemp)(c));
      LatestHasTotal(emp, c);
      LatestHasTotal(unemp, c);
    }
    forall c | HasTotal(emp, c) && HasTotal(unemp, c) ensures HasPointFor(pts, c) {
      LatestHasTotal(emp, c);
      LatestHasTotal(unemp, c);
    }
  }

  lemma LatestHasTotal(rows: seq<Obs>, c: string)
    ensures Latest(rows, TotalForP(c)).Some? <==> HasTotal(rows, c)
  {
    if HasTotal(rows, c) {
      var k :| 0 <= k < |rows| && TotalFor(c, rows[k]);
      assert TotalForP(c)(rows[k]);
    }
  }

  function NamedP(c: string): Obs -> bool { (r: Obs) => Named(c, r) }

  function TotalForP(c: string): Obs -> bool { (r: Obs) => TotalFor(c, r) }

  /** Each lookup of the `src/` scatter is the reference latest record. */
  lemma SrcLookups(rows: seq<Obs>, newest: seq<Obs>)
    requires newest == NewestFirst(rows, IsTotal)
    ensures forall c: string :: FindIn(newest)(c) == LatestIn(rows)(c)
  {
    forall c: string ensures FindIn(newest)(c) == LatestIn(rows)(c) {
      FindNewest(rows, IsTotal, NamedP(c), TotalForP(c));
    }
  }

  /** A record passing the filter survives filtering and sorting. */
  lemma InNewestFirst(rows: seq<Obs>, q: Obs -> bool, k: int)
    requires 0 <= k < |rows| && q(rows[k])
    ensures rows[k] in NewestFirst(rows, q)
  {
    var f := Seqs.Filter(rows, q);
    SortByElements(f, NegYear);
  }

  lemma CountryInConcat(a: seq<Obs>, b: seq<Obs>, x: Obs)
    requires x in a || x in b
    ensures x.country in CountriesOf(a + b)
  {
    assert x in a + b;
    var j :| 0 <= j < |a + b| && (a + b)[j] == x;
    assert CountriesOf(a + b)[j] == x.country;
  }

  /** A country with "Total" records in both series is among the joined countries. */
  lemma SrcCountries(emp: seq<Obs>, unemp: seq<Obs>, countries: seq<string>)
    requires forall k :: 0 <= k < |CountriesOf(NewestFirst(emp, IsTotal) + NewestFirst(unemp, IsTotal))| ==>
               CountriesOf(NewestFirst(emp, IsTotal) + NewestFirst(unemp, IsTotal))[k] in countries
    ensures forall c :: HasTotal(emp, c) ==> c in countries
  {
    forall c | HasTotal(emp, c) ensures c in countries {
      var k :| 0 <= k < |emp| && TotalFor(c, emp[k]);
      InNewestFirst(emp, IsTotal, k);
      CountryInConcat(NewestFirst(emp, IsTotal), NewestFirst(unemp, IsTotal), emp[k]);
    }
  }

  /** Some record of `rows` is for country `c`. */
  predicate HasCountry(rows: seq<Obs>, c: string) {
    exists k :: 0 <= k < |rows| && rows[k].country == c
  }

  lemma CountriesOfMembership(rows: seq<Obs>)
    ensures forall c :: c in CountriesOf(rows) <==> HasCountry(rows, c)
  {
    var cs := CountriesOf(rows);
    forall c | HasCountry(rows, c) ensures c in cs {
      var k :| 0 <= k < |rows| && rows[k].country == c;
      assert cs[k] == c;
    }
  }

  /** The five values of a `src/` radar row are each indicator's latest "Total" value for its country. */
  predicate SrcRadarValues(ds: Datasets, row: RadarRow) {
    var c := row.country;
    && row.employment == ValueOrZero(Latest(ds.employment, TotalForP(c)))
    && row.unemployment == ValueOrZero(Latest(ds.unemployment, TotalForP(c)))
    && row.informal == ValueOrZero(Latest(ds.informal, TotalForP(c)))
    && row.laborForce == ValueOrZero(Latest(ds.laborForce, TotalForP(c)))
    && row.salary == ValueOrZero(Latest(ds.salary, TotalForP(c))) / 100.0
  }

  function SrcRadarRow(ds: Datasets, c: string): (row: RadarRow)
    ensures row.country == c && SrcRadarValues(ds, row)
  {
    RadarRow(c,
      LatestValue(ds.employment, TotalForP(c)),
      LatestValue(ds.unemployment, TotalForP(c)),
      LatestValue(ds.informal, TotalForP(c)),
      LatestValue(ds.laborForce, TotalForP(c)),
      LatestValue(ds.salary, TotalForP(c)) / 100.0)
  }

  predicate HasRadarRow(rows: seq<RadarRow>, c: string) {
    exists i :: 0 <= i < |rows| && rows[i].country == c
  }

  /** `radarData` of the hook under `src/`: the first three distinct employment countries. */
  function SrcRadar(ds: Datasets): (rows: seq<RadarRow>)
    ensures |rows| <= 3
    ensures forall i, j :: 0 <= i < j < |rows| ==> rows[i].country != rows[j].country
    ensures forall i :: 0 <= i < |rows| ==> HasCountry(ds.employment, rows[i].country) && SrcRadarValues(ds, rows[i])
    ensures |rows| < 3 ==> forall c :: HasCountry(ds.employment, c) ==> HasRadarRow(rows, c)
    ensures |rows| == Min(3, |Seqs.Dedup(CountriesOf(ds.employment))|)
    ensures forall i :: 0 <= i < |rows| ==> rows[i].country == Seqs.Dedup(CountriesOf(ds.employment))[i]
  {
    var all := Seqs.Dedup(CountriesOf(ds.employment));
    var rows := seq(Min(3, |all|), i requires 0 <= i < Min(3, |all|) => SrcRadarRow(ds, all[i]));
    SrcRadarShape(ds, all, rows);
    rows
  }

  lemma SrcRadarShape(ds: Datasets, all: seq<string>, rows: seq<RadarRow>)
    requires all == Seqs.Dedup(CountriesOf(ds.employment))
    requires |rows| == Min(3, |all|) && forall i :: 0 <= i < |rows| ==> rows[i] == SrcRadarRow(ds, all[i])
    ensures forall i, j :: 0 <= i < j < |rows| ==> rows[i].country != rows[j].country
    ensures forall i :: 0 <= i < |rows| ==> HasCountry(ds.employment, rows[i].country) && SrcRadarValues(ds, rows[i])
    ensures |rows| < 3 ==> forall c :: HasCountry(ds.employment, c) ==> HasRadarRow(rows, c)
  {
    CountriesOfMembership(ds.employment);
    assert forall i :: 0 <= i < |rows| ==> rows[i].country == all[i];
    RadarCoverage(all, rows);
  }

  /** With fewer than three distinct countries, every one of them gets a row. */
  lemma RadarCoverage(all: seq<string>, rows: seq<RadarRow>)
    requires |rows| == Min(3, |all|) && forall i :: 0 <= i < |rows| ==> rows[i].country == all[i]
    ensures |rows| < 3 ==> forall c :: c in all ==> HasRadarRow(rows, c)
  {
    if |rows| < 3 {
      forall c | c in all ensures HasRadarRow(rows, c) {
        var i :| 0 <= i < |all| && all[i] == c;
        assert rows[i].country == c;
      }
    }
  }

  // ---------------------------------------------------------------------
  // Informal-employment map rows (`src/` hook)
  // ---------------------------------------------------------------------

  /** The grouping key `${country}-${year}`, kept as a pair. */
  datatype Cell = Cell(country: string, year: int)

  function CellKey(r: Obs): Cell { Cell(r.country, r.year) }

  /** A "Total" record for the given key. */
  predicate TotalAt(key: Cell, r: Obs) { r.sex == "Total" && CellKey(r) == key }

  /** Some "Total" record of `rows` has key `key`. */
  predicate HasTotalAt(rows: seq<Obs>, key: Cell) {
    exists k :: 0 <= k < |rows| && TotalAt(key, rows[k])
  }

  lemma HasTotalAtSnoc(rows: seq<Obs>)
    requires |rows| > 0
    ensures forall key :: HasTotalAt(rows, key) <==>
              HasTotalAt(rows[..|rows| - 1], key) || TotalAt(key, rows[|rows| - 1])
  {
    var n := |rows| - 1;
    assert forall k :: 0 <= k < n ==> rows[..n][k] == rows[k];
  }

  /** `rows.filter(r => r.sex === 'Total').map(key)`. */
  function TotalKeys(rows: seq<Obs>): (ks: seq<Cell>)
    ensures forall key :: key in ks <==> HasTotalAt(rows, key)
  {
    if |rows| == 0 then []
    else
      var n := |rows| - 1;
      var rest := TotalKeys(rows[..n]);
      HasTotalAtSnoc(rows);
      if IsTotal(rows[n]) then rest + [CellKey(rows[n])] else rest
  }

  /** `r` is a "Total" record of `rows` and no later "Total" record shares its key. */
  predicate LastTotalRecord(rows: seq<Obs>, r: Obs) {
    exists k :: 0 <= k < |rows| && rows[k] == r && IsTotal(r)
                && forall j :: k < j < |rows| ==> !TotalAt(CellKey(r), rows[j])
  }

  /** Some record of `out` has key `key`. */
  predicate HasKey(out: seq<Obs>, key: Cell) {
    exists i :: 0 <= i < |out| && CellKey(out[i]) == key
  }

  /** The last "Total" record of `rows` with key `key`. */
  function LastTotalAt(rows: seq<Obs>, key: Cell): (r: Obs)
    requires HasTotalAt(rows, key)
    ensures CellKey(r) == key && LastTotalRecord(rows, r)
  {
    var n := |rows| - 1;
    HasTotalAtSnoc(rows);
    if TotalAt(key, rows[n]) then
      assert LastTotalRecord(rows, rows[n]) by {
        assert 0 <= n < |rows| && rows[n] == rows[n];
      }
      rows[n]
    else
      var r := LastTotalAt(rows[..n], key);
      LastTotalRecordSnoc(rows, r);
      r
  }

  /** A last record of the front stays last when the final record has another key. */
  lemma LastTotalRecordSnoc(rows: seq<Obs>, r: Obs)
    requires |rows| > 0 && LastTotalRecord(rows[..|rows| - 1], r)
    requires !TotalAt(CellKey(r), rows[|rows| - 1])
    ensures LastTotalRecord(rows, r)
  {
    var n := |rows| - 1;
    var k :| 0 <= k < n && rows[..n][k] == r && IsTotal(r)
             && forall j :: k < j < n ==> !TotalAt(CellKey(r), rows[..n][j]);
    assert rows[k] == r;
    forall j | k < j < |rows| ensures !TotalAt(CellKey(r), rows[j]) {
      if j < n { assert rows[..n][j] == rows[j]; }
    }
  }

  /**
   * `informalEmploymentMapData`: the "Total" records, one per country and
   * year, the last one read for each, in the order the keys first appear.
   */
  function MapRows(informal: seq<Obs>): (out: seq<Obs>)
    ensures forall i :: 0 <= i < |out| ==> LastTotalRecord(informal, out[i])
    ensures forall i, j :: 0 <= i < j < |out| ==> CellKey(out[i]) != CellKey(out[j])
    ensures forall key :: HasKey(out, key) <==> HasTotalAt(informal, key)
    ensures |out| == |Seqs.Dedup(TotalKeys(informal))|
    ensures forall i :: 0 <= i < |out| ==> CellKey(out[i]) == Seqs.Dedup(TotalKeys(informal))[i]
  {
    var keys := Seqs.Dedup(TotalKeys(informal));
    var out := seq(|keys|, i requires 0 <= i < |keys| => LastTotalAt(informal, keys[i]));
    assert forall i :: 0 <= i < |out| ==> CellKey(out[i]) == keys[i];
    MapKeys(out, keys);
    out
  }

  lemma MapKeys(out: seq<Obs>, keys: seq<Cell>)
    requires |out| == |keys| && forall i :: 0 <= i < |out| ==> CellKey(out[i]) == keys[i]
    ensures forall key :: HasKey(out, key) <==> key in keys
  {
    forall key | key in keys ensures HasKey(out, key) {
      var i :| 0 <= i < |keys| && keys[i] == key;
      assert CellKey(out[i]) == key;
    }
  }
}
