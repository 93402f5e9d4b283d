/**
 * How the dashboard's selections change: the toggle shared by the country
 * buttons and the metric buttons, the mock data's case-insensitive
 * country filter, and the country filter panels' display names with their
 * "select all" and "clear" actions.
 */
module Selection {
  import Seqs
  import opened Strings

  // ------------------------------------------------------------------
  // Toggle
  // ------------------------------------------------------------------

  predicate Other<T(==)>(x: T, y: T) { y != x }

  /** `prev.includes(x) ? prev.filter(c => c !== x) : [...prev, x]`. */
  function Toggle<T(==,!new)>(xs: seq<T>, x: T): (r: seq<T>)
    ensures x in r <==> x !in xs
    ensures forall y :: y != x ==> (y in r <==> y in xs)
  {
    if x in xs then Seqs.Filter(xs, (y: T) => Other(x, y)) else xs + [x]
  }

  /** Toggling twice always restores membership. */
  lemma ToggleTwiceMembership<T(!new)>(xs: seq<T>, x: T)
    ensures forall y :: y in Toggle(Toggle(xs, x), x) <==> y in xs
  {
  }

  /** Switching an absent entry on and off gives back the very same list. */
  lemma ToggleOnOff<T(!new)>(xs: seq<T>, x: T)
    requires x !in xs
    ensures Toggle(Toggle(xs, x), x) == xs
  {
    var on := xs + [x];
    Seqs.FilterAppend(xs, [x], (y: T) => Other(x, y));
    Seqs.FilterAll(xs, (y: T) => Other(x, y));
  }

  /** Switching a present entry off and on moves it to the end. */
  lemma ToggleOffOnMoves()
    ensures Toggle(Toggle(["a", "b"], "a"), "a") == ["b", "a"]
  {
    var p := (y: string) => Other("a", y);
    Seqs.FilterCons("a", ["b"], p);
    Seqs.FilterCons("b", [], p);
  }

  /** A toggle never creates a duplicate. */
  lemma ToggleKeepsDistinct<T(!new)>(xs: seq<T>, x: T)
    requires Seqs.Distinct(xs)
    ensures Seqs.Distinct(Toggle(xs, x))
  {
    if x in xs {
      Seqs.FilterIsSubseq(xs, (y: T) => Other(x, y));
      Seqs.SubseqDistinct(Toggle(xs, x), xs);
    }
  }

  // ------------------------------------------------------------------
  // Mock data filter
  // ------------------------------------------------------------------

  /** `item.country.toLowerCase().includes(selected.toLowerCase())`. */
  predicate Mentions(country: string, selected: string) {
    Contains(Lower(country), Lower(selected))
  }

  predicate MentionedBy(selected: seq<string>, country: string) {
    exists i :: 0 <= i < |selected| && Mentions(country, selected[i])
  }

  /** The mock series keep the country they describe. */
  datatype MockSeries = MockSeries(country: string, employmentRate: real, year: int)

  predicate KeepSeries(selected: seq<string>, s: MockSeries) {
    |selected| == 0 || MentionedBy(selected, s.country)
  }

  /** `generateMockData`: every series when nothing is selected, else those some selection names. */
  function GenerateMockData(items: seq<MockSeries>, selected: seq<string>): (r: seq<MockSeries>)
    ensures |selected| == 0 ==> r == items
    ensures forall s :: s in r <==> s in items && (|selected| == 0 || MentionedBy(selected, s.country))
    ensures Seqs.IsSubseq(r, items)
  {
    var p := (s: MockSeries) => KeepSeries(selected, s);
    assert |selected| == 0 ==> Seqs.Filter(items, p) == items by {
      if |selected| == 0 {
        Seqs.FilterAll(items, p);
      }
    }
    Seqs.FilterIsSubseq(items, p);
    Seqs.Filter(items, p)
  }

  /** Selecting one more country never drops a series from a non-empty selection's result. */
  lemma MockFilterMonotone(items: seq<MockSeries>, selected: seq<string>, extra: string)
    requires |selected| > 0
    ensures Seqs.IsSubseq(GenerateMockData(items, selected), GenerateMockData(items, selected + [extra]))
  {
    var more := selected + [extra];
    forall s | s in items && KeepSeries(selected, s) ensures KeepSeries(more, s) {
      var i :| 0 <= i < |selected| && Mentions(s.country, selected[i]);
      assert more[i] == selected[i];
    }
    Seqs.FilterWeakerIsSuperseq(items, (s: MockSeries) => KeepSeries(selected, s), (s: MockSeries) => KeepSeries(more, s));
  }

  /** The match ignores case: `chile` selects `Chile`. */
  lemma MockFilterIgnoresCase()
    ensures Mentions("Chile", "chile")
  {
    assert Lower("Chile") == "chile";
    assert Lower("chile") == "chile";
    assert IsAt("chile", "chile", 0);
  }

  // ------------------------------------------------------------------
  // Country filter panels
  // ------------------------------------------------------------------

  const BOLIVIA_SUFFIX := " (Plurinational State of)"
  const VENEZUELA_SUFFIX := " (Bolivarian Republic of)"

  /** The two `replace` calls that shorten the official names. */
  function DisplayName(country: string): (r: string)
    ensures !Contains(country, BOLIVIA_SUFFIX) && !Contains(country, VENEZUELA_SUFFIX) ==> r == country
    ensures |r| <= |country|
  {
    ReplaceFirst(ReplaceFirst(country, BOLIVIA_SUFFIX, ""), VENEZUELA_SUFFIX, "")
  }

  /** A pattern holding a character the text lacks does not occur in it. */
  lemma AbsentCharNotContained(s: string, pat: string, k: int)
    requires 0 <= k < |pat| && pat[k] !in s
    ensures !Contains(s, pat)
  {
  }

  /** Removing a suffix that ends the name, and nowhere else starts, leaves the name before it. */
  lemma StripTrailingSuffix(base: string, suffix: string)
    requires |suffix| > 0 && suffix[0] !in base
    ensures ReplaceFirst(base + suffix, suffix, "") == base
  {
    var s := base + suffix;
    assert IsAt(s, suffix, |base|);
    forall j | 0 <= j < |base| ensures !IsAt(s, suffix, j) {
      assert s[j] == base[j];
    }
    assert s[..|base|] == base;
  }

  /** A name followed by the Bolivian suffix loses the suffix. */
  lemma DisplayNameStripsBolivia(base: string)
    requires ' ' !in base
    ensures DisplayName(base + BOLIVIA_SUFFIX) == base
  {
    StripTrailingSuffix(base, BOLIVIA_SUFFIX);
    AbsentCharNotContained(base, VENEZUELA_SUFFIX, 0);
  }

  /** A name followed by the Venezuelan suffix loses the suffix. */
  lemma DisplayNameStripsVenezuela(base: string)
    requires ' ' !in base && 'P' !in base
    ensures DisplayName(base + VENEZUELA_SUFFIX) == base
  {
    var name := base + VENEZUELA_SUFFIX;
    assert BOLIVIA_SUFFIX[2] == 'P';
    assert 'P' !in VENEZUELA_SUFFIX;
    assert 'P' !in name;
    AbsentCharNotContained(name, BOLIVIA_SUFFIX, 2);
    assert ReplaceFirst(name, BOLIVIA_SUFFIX, "") == name;
    StripTrailingSuffix(base, VENEZUELA_SUFFIX);
  }

  /** The Bolivian official name becomes `Bolivia`. */
  lemma DisplayNameBolivia()
    ensures DisplayName("Bolivia" + BOLIVIA_SUFFIX) == "Bolivia"
  {
    DisplayNameStripsBolivia("Bolivia");
  }

  /** The Venezuelan official name becomes `Venezuela`. */
  lemma DisplayNameVenezuela()
    ensures DisplayName("Venezuela" + VENEZUELA_SUFFIX) == "Venezuela"
  {
    DisplayNameStripsVenezuela("Venezuela");
  }

  /** `processedCountries` / `availableCountries.map(...)`: each name shortened, in place. */
  function DisplayNames(available: seq<string>): (r: seq<string>)
    ensures |r| == |available|
    ensures forall i :: 0 <= i < |r| ==> r[i] == DisplayName(available[i])
  {
    seq(|available|, i requires 0 <= i < |available| => DisplayName(available[i]))
  }

  /** A button is highlighted when its display name, not its label, is selected. */
  predicate IsSelected(selected: seq<string>, country: string) {
    DisplayName(country) in selected
  }

  /** Clicking a button flips its own highlight and no other button's with a different display name. */
  lemma ClickFlips(selected: seq<string>, country: string, other: string)
    ensures IsSelected(Toggle(selected, DisplayName(country)), country) <==> !IsSelected(selected, country)
    ensures DisplayName(other) != DisplayName(country) ==>
              (IsSelected(Toggle(selected, DisplayName(country)), other) <==> IsSelected(selected, other))
  {
  }

  /** "Select all": every available country's display name, in the panel's order. */
  function SelectAll(available: seq<string>): (r: seq<string>)
    ensures |r| == |available|
    ensures forall i :: 0 <= i < |r| ==> r[i] == DisplayName(available[i])
    ensures forall i :: 0 <= i < |available| ==> IsSelected(r, available[i])
  {
    DisplayNames(available)
  }

  function Clear(): seq<string> { [] }

  /** The "clear" and "select all" buttons show only while something is selected. */
  predicate ActionsShown(selected: seq<string>) { |selected| > 0 }

  /** After "clear" no button is highlighted and the two actions disappear. */
  lemma ClearDeselectsAll(available: seq<string>)
    ensures forall i :: 0 <= i < |available| ==> !IsSelected(Clear(), available[i])
    ensures !ActionsShown(Clear())
  {
  }

  /** After "select all" on a non-empty list every button is highlighted and the actions stay. */
  lemma SelectAllShowsActions(available: seq<string>)
    requires |available| > 0
    ensures ActionsShown(SelectAll(available))
  {
  }

  /** The information panel's count: one per listed country. */
  function CountryCount(available: seq<string>): (n: nat)
    ensures n == |DisplayNames(available)|
  {
    |available|
  }
}
