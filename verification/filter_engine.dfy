/**
 * The row filter of the dashboard's data-processing hook: a conjunction of
 * a sex, an inclusive year-range, a country-substring and an age-bucket
 * test over the selected indicator series.
 */
module FilterEngine {
  import opened Records
  import Seqs
  import opened Strings

  /** The user's current choices. */
  datatype Selection = Selection(
    dataset: string,
    sex: string,
    yearFrom: int,
    yearTo: int,
    countries: seq<string>,
    ageGroup: string)

  predicate SexMatches(selectedSex: string, r: Obs) {
    selectedSex == "Total" || r.sex == selectedSex
  }

  predicate YearMatches(lo: int, hi: int, r: Obs) {
    lo <= r.year && r.year <= hi
  }

  /** Some selected name is a substring of the row's raw country label. */
  predicate CountryMatches(countries: seq<string>, r: Obs) {
    Seqs.Any(countries, (c: string) => Contains(r.country, c))
  }

  /** The four age buckets the filter knows. */
  function AgeTokens(): set<string> {
    {"15+", "15-64", "15-24", "25+"}
  }

  /** The age test: skipped for salaries and for rows without an age label. */
  predicate AgeMatches(dataset: string, selectedAge: string, r: Obs) {
    if dataset != "salary" && r.ageGroup != "" then
      if selectedAge == "15+" then Contains(r.ageGroup, "15+")
      else if selectedAge == "15-64" then Contains(r.ageGroup, "15-64")
      else if selectedAge == "15-24" then Contains(r.ageGroup, "15-24")
      else if selectedAge == "25+" then Contains(r.ageGroup, "25+")
      else true
    else true
  }

  /** The age test as one rule: a known bucket must occur in the row's label. */
  lemma AgeMatchesSpec(dataset: string, selectedAge: string, r: Obs)
    ensures AgeMatches(dataset, selectedAge, r)
        <==> (dataset == "salary" || r.ageGroup == "" || selectedAge !in AgeTokens()
              || Contains(r.ageGroup, selectedAge))
  {
  }

  predicate Passes(sel: Selection, r: Obs) {
    && SexMatches(sel.sex, r)
    && YearMatches(sel.yearFrom, sel.yearTo, r)
    && CountryMatches(sel.countries, r)
    && AgeMatches(sel.dataset, sel.ageGroup, r)
  }

  /** `getFilteredActiveData`. */
  function FilteredActiveData(sel: Selection, ds: Datasets): (r: seq<Obs>)
    ensures Seqs.IsSubseq(r, SelectDataset(ds, sel.dataset))
    ensures forall i :: 0 <= i < |r| ==> Passes(sel, r[i])
    ensures forall x :: x in SelectDataset(ds, sel.dataset) && Passes(sel, x) ==> x in r
    ensures |sel.countries| == 0 ==> r == []
    ensures sel.dataset !in DatasetKeys() ==> r == []
  {
    var data := SelectDataset(ds, sel.dataset);
    var keep := (x: Obs) => Passes(sel, x);
    Seqs.FilterIsSubseq(data, keep);
    if |sel.countries| == 0 then
      Seqs.FilterNone(data, keep);
      Seqs.Filter(data, keep)
    else
      Seqs.Filter(data, keep)
  }

  /** Widening the year range never drops a row. */
  lemma WiderRangeKeepsRows(sel: Selection, ds: Datasets, lo: int, hi: int)
    requires lo <= sel.yearFrom && sel.yearTo <= hi
    ensures Seqs.IsSubseq(FilteredActiveData(sel, ds),
                          FilteredActiveData(sel.(yearFrom := lo, yearTo := hi), ds))
  {
    var wide := sel.(yearFrom := lo, yearTo := hi);
    var data := SelectDataset(ds, sel.dataset);
    Seqs.FilterWeakerIsSuperseq(data, (x: Obs) => Passes(sel, x), (x: Obs) => Passes(wide, x));
  }
}
