/** The first, single-page version of the app: singles with one `name`
    field, an inline add form and the same filtered list. */
module LegacyApp {
  import opened Wrappers
  import opened Text
  import opened Query

  datatype LegacySingle = LegacySingle(
    id: int,
    name: string,
    occupation: string,
    religiousStatus: string,
    previouslyMarried: bool,
    age: int,
    gender: string,
    notes: string)

  /** The add form's state; `age` is the `number | ''` input. */
  datatype Form = Form(
    name: string,
    occupation: string,
    religiousStatus: string,
    previouslyMarried: bool,
    age: Option<int>,
    gender: string,
    notes: string)

  const EmptyForm := Form("", "", "", false, None, "", "")

  /** The submit guard: name, occupation, religious status and gender are
      non-empty and the age is truthy (entered and not 0). Notes and the
      checkbox are optional. */
  predicate CanSubmit(f: Form) {
    f.name != "" && f.occupation != "" && f.religiousStatus != "" && Truthy(f.age) && f.gender != ""
  }

  /** The record built from the form, carrying the id it is given. */
  function NewSingle(f: Form, id: int): LegacySingle {
    LegacySingle(id, f.name, f.occupation, f.religiousStatus, f.previouslyMarried, ToNumber(f.age), f.gender, f.notes)
  }

  /** `handleSubmit`: the new collection and the form afterwards. The id,
      `Date.now()` in the app, is a parameter. */
  function HandleSubmit(singles: seq<LegacySingle>, f: Form, id: int): (r: (seq<LegacySingle>, Form))
    ensures CanSubmit(f) ==>
      && |r.0| == |singles| + 1
      && r.0[..|singles|] == singles
      && (var s := r.0[|singles|];
          s.id == id && s.name == f.name && s.occupation == f.occupation
          && s.religiousStatus == f.religiousStatus && s.previouslyMarried == f.previouslyMarried
          && s.age == f.age.value && s.age != 0 && s.gender == f.gender && s.notes == f.notes)
      && r.1 == EmptyForm
    ensures !CanSubmit(f) ==> r.0 == singles && r.1 == f
  {
    if CanSubmit(f) then
      var next := singles + [NewSingle(f, id)];
      assert next[..|singles|] == singles;
      (next, EmptyForm)
    else (singles, f)
  }

  /** What the filters and sort read from a single of this version. */
  function View(s: LegacySingle): Listing {
    Listing(s.name, s.notes, s.gender, s.age)
  }

  /** `filteredSingles` of this version: shown exactly when all four
      filters accept it, exactly as often as it occurs in `singles`, in the
      selected age order. */
  function FilteredSingles(singles: seq<LegacySingle>, c: Criteria): (r: seq<LegacySingle>)
    ensures forall s :: s in r <==> s in singles && Keep(c, View(s))
    ensures forall s :: multiset(r)[s] == if Keep(c, View(s)) then multiset(singles)[s] else 0
    ensures multiset(r) <= multiset(singles) && |r| <= |singles|
    ensures Sorted(c.sortOrder, r, View)
  {
    Run(singles, View, c)
  }

  /** Each shown single has the search term in its lowercased name or
      notes, the selected gender if any, and an age within the bounds that
      are set, inclusively. */
  lemma ShownSingleMatchesFilters(singles: seq<LegacySingle>, c: Criteria, i: int)
    requires 0 <= i < |FilteredSingles(singles, c)|
    ensures var s := FilteredSingles(singles, c)[i];
      && (Includes(Lower(s.name), Lower(c.searchTerm)) || Includes(Lower(s.notes), Lower(c.searchTerm)))
      && (c.filterGender != "" ==> s.gender == c.filterGender)
      && (c.minAge.Some? ==> s.age >= c.minAge.value)
      && (c.maxAge.Some? ==> s.age <= c.maxAge.value)
  {
    var r := FilteredSingles(singles, c);
    assert Keep(c, View(r[i]));
  }

  /** Ascending order shows ages that never decrease, descending order ages
      that never increase. */
  lemma ShownAgesFollowSortOrder(singles: seq<LegacySingle>, c: Criteria, i: int, j: int)
    requires 0 <= i < j < |FilteredSingles(singles, c)|
    ensures var r := FilteredSingles(singles, c);
      && (c.sortOrder == Ascending ==> r[i].age <= r[j].age)
      && (c.sortOrder == Descending ==> r[i].age >= r[j].age)
  {
    var r := FilteredSingles(singles, c);
    assert Compare(c.sortOrder, View(r[i]).age, View(r[j]).age) <= 0;
  }

  /** A successful add shows up in an unsorted list view exactly when the
      filters accept it, at the end, with the earlier results unchanged. */
  lemma AddedSingleAppearsLast(singles: seq<LegacySingle>, f: Form, id: int, c: Criteria)
    requires CanSubmit(f) && c.sortOrder == Unsorted
    ensures FilteredSingles(HandleSubmit(singles, f, id).0, c)
         == FilteredSingles(singles, c) + (if Keep(c, View(NewSingle(f, id))) then [NewSingle(f, id)] else [])
  {
    var s := NewSingle(f, id);
    FilteredAppendOne(singles, s, View, c);
    UnsortedRunIsSubsequence(singles + [s], View, c);
    UnsortedRunIsSubsequence(singles, View, c);
  }
}
