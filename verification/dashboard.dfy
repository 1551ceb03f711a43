/** The dashboard's list of singles, searched by `"first last"` or notes. */
module Dashboard {
  import opened Text
  import opened Records
  import opened Query

  /** What the dashboard's filters and sort read from a single. */
  function View(s: Single): Listing {
    Listing(FullName(s.profile), s.profile.notes, s.profile.gender, s.profile.age)
  }

  /** `filteredSingles`: a single is shown exactly when all four filters
      accept it, exactly as often as it occurs in `singles`, in the
      selected age order. */
  function FilteredSingles(singles: seq<Single>, c: Criteria): (r: seq<Single>)
    ensures forall s :: s in r <==> s in singles && Keep(c, View(s))
    ensures forall s :: multiset(r)[s] == if Keep(c, View(s)) then multiset(singles)[s] else 0
    ensures multiset(r) <= multiset(singles) && |r| <= |singles|
    ensures Sorted(c.sortOrder, r, View)
  {
    Run(singles, View, c)
  }

  /** What each shown single satisfies: the search term occurs in its
      lowercased full name or notes, it has the selected gender when one is
      selected, and its age lies within each bound that is set, bounds
      included (a bound of 0 is a set bound). */
  lemma ShownSingleMatchesFilters(singles: seq<Single>, c: Criteria, i: int)
    requires 0 <= i < |FilteredSingles(singles, c)|
    ensures var s := FilteredSingles(singles, c)[i];
      && (Includes(Lower(FullName(s.profile)), Lower(c.searchTerm))
          || Includes(Lower(s.profile.notes), Lower(c.searchTerm)))
      && (c.filterGender != "" ==> s.profile.gender == c.filterGender)
      && (c.minAge.Some? ==> s.profile.age >= c.minAge.value)
      && (c.maxAge.Some? ==> s.profile.age <= c.maxAge.value)
  {
    var r := FilteredSingles(singles, c);
    assert Keep(c, View(r[i]));
  }

  /** Ascending order shows ages that never decrease, descending order ages
      that never increase. */
  lemma ShownAgesFollowSortOrder(singles: seq<Single>, c: Criteria, i: int, j: int)
    requires 0 <= i < j < |FilteredSingles(singles, c)|
    ensures var r := FilteredSingles(singles, c);
      && (c.sortOrder == Ascending ==> r[i].profile.age <= r[j].profile.age)
      && (c.sortOrder == Descending ==> r[i].profile.age >= r[j].profile.age)
  {
    var r := FilteredSingles(singles, c);
    assert Compare(c.sortOrder, View(r[i]).age, View(r[j]).age) <= 0;
  }
}
