# The matchmaker's notebook, modelled in Dafny

The notebook keeps two collections: *singles* (candidate profiles) and
*matches* (pairings of two singles with a status and an archived flag). Its
logic sits in a handful of React components. This project models that logic
as pure functions over immutable records and proves what the screens promise:

- **The singles list view.** A search over the name or notes, an exact gender
  filter, inclusive minimum and maximum ages, and an optional stable sort by
  age. The dashboard and the early single-page app share it. They differ only
  in the name searched: `"first last"` or a single `name` field. The pipeline
  is written once (`Query`), over a `view` that reads those fields from a
  record.
- **The matches page.** Match creation, the "current" and "archived" views,
  and the status, archive and restore updates.
- **The add and edit pages.** Age derivation (`calculateAge`), the submit
  guards, the record each page builds, the form reset, and the edit page's
  lookup and initial form.

Modules, leaves first:

| module | file | models |
|---|---|---|
| `Wrappers` | wrappers.dfy | `number \| ''` fields as `Option<int>`, JavaScript truthiness, `Number('') == 0` |
| `Seqs` | seqs.dfy | subsequences (what `filter` returns) |
| `Text` | text.dfy | `toLowerCase` (ASCII) and `includes`, with a reference definition of "occurs in" |
| `Dates` | dates.dfy | `calculateAge` over (year, month, day) triples, with "today" as a parameter |
| `Records` | records.dfy | `Single`, `Match`, `Status` from src/types.ts, the full name, `singles.find` by id |
| `Query` | query.dfy | the filter stages, the stable sort, and the whole list pipeline |
| `Dashboard` | dashboard.dfy | the dashboard's `filteredSingles` |
| `LegacyApp` | legacy_app.dfy | src/App.tsx: its `Single` with a `name`, `handleSubmit`, `filteredSingles` |
| `Matches` | matches.dfy | src/components/pages/MatchesPage.tsx |
| `SingleForms` | single_forms.dfy | AddSinglePage.tsx and EditSinglePage.tsx |
| `Examples` | examples.dfy | concrete cases: an age on a given day, a minimum-age filter, a status filter |

Modelling choices:

- **Sorting.** ECMAScript requires `Array.prototype.sort` to be stable, so the
  sort is modelled as a stable insertion sort. `Query.StableSortIsUnique`
  proves that every sorted, tie-order-preserving rearrangement equals its
  output. So the model gives the same result as any stable algorithm the
  engine uses.
- **Form values.** A `number | ''` form value is an `Option<int>`, with `None`
  standing for `''`. It is truthy when present and non-zero.
- **Dates.** A date input is `Blank` or `Entered(date)`, and dates are already
  parsed into triples.
- **Ids.** Values that come from `Date.now()` or from the route are
  parameters.

Behaviours of the code worth knowing:

- `calculateAge` does not clamp: a birth date after today gives a negative
  age (`Dates.AgeNonNegativeIff`).
- The match search does not drop a match just because a participant id has
  no single: the missing name renders as `"undefined undefined"`, so a term
  such as "undefined" finds the match
  (`Matches.DanglingParticipantMatchesUndefined`). Any other term keeps it
  only when the other participant's name contains it.
- An incomplete add or edit form is not submitted, and nothing records which
  field was missing.
- The add page and the match form clear their fields only after the owner's
  handler returns. The model takes that outcome as a `handled` parameter.

## Model

| member | source | states |
|---|---|---|
| `Text.IncludesIffOccurs` | src/components/pages/Dashboard.tsx:18-21 | the recursive `includes` holds exactly when the term is some contiguous slice of the text |
| `Text.IncludesEmpty` | src/components/pages/Dashboard.tsx:18-21 | the empty term is found in every text, so an empty search keeps every single |
| `Text.SliceIsFound` | src/App.tsx:64-67 | any part of a text, typed in any letter case, is found by the lowercased search |
| `Text.LowerPointwise` | src/App.tsx:65 | lowercasing keeps the length and maps each character on its own |
| `Seqs.SubseqDrawsFrom` | src/App.tsx:63-75 | a filtered subsequence draws its elements from the input, never more often, and is no longer |
| `Seqs.SubseqTrans` | src/components/pages/Dashboard.tsx:17-24 | a filter of a filter is still a subsequence of the original |
| `Dates.CalculateAge` | src/components/pages/AddSinglePage.tsx:29-38 | the age lies between two consecutive birthdays: the age-th has happened by today and the next has not |
| `Dates.AgeCountsPassedBirthdays` | src/components/pages/AddSinglePage.tsx:29-38 | the n-th birthday is on or before today exactly when n is at most the computed age |
| `Dates.AgeIsUnique` | src/components/EditSinglePage.tsx:34-43 | any number bracketed by two consecutive birthdays around today is the computed age |
| `Dates.AgeNonNegativeIff` | src/components/pages/AddSinglePage.tsx:32-37 | the age is non-negative exactly when the birth date is not after today, with no clamping |
| `Records.FindById` | src/components/EditSinglePage.tsx:14 | `find` returns nothing exactly when no single has the id, and otherwise the first single that has it |
| `Query.Apply` | src/components/pages/Dashboard.tsx:18-24 | one filter stage returns a subsequence of its input, so the records keep their order |
| `Query.ApplyCounts` | src/components/pages/Dashboard.tsx:18-24 | one filter stage keeps each accepted record exactly as often as it occurs, and no other record |
| `Query.InactiveStageKeepsAll` | src/components/pages/Dashboard.tsx:18-24 | an empty search, an empty gender and an unset bound each remove nothing |
| `Query.InactiveCriteriaKeepAll` | src/App.tsx:64-70 | with every filter setting empty the chain of filters returns the collection unchanged |
| `Query.Filtered` | src/components/pages/Dashboard.tsx:17-24 | the chain of four filters returns a subsequence holding each record exactly when all four accept it |
| `Query.FilteredAppendOne` | src/App.tsx:63-70 | a record appended to the collection ends up last in the filtered result when accepted, and is absent otherwise |
| `Query.KeyAgreesWithComparator` | src/components/pages/Dashboard.tsx:25-28 | the comparator returns 0 exactly for records with the same sort key (the age, or anything when unsorted) |
| `Query.Insert` | src/components/pages/Dashboard.tsx:25-29 | inserting adds exactly the one record |
| `Query.InsertKeepsSorted` | src/components/pages/Dashboard.tsx:25-29 | inserting into a sorted sequence keeps it sorted |
| `Query.InsertKeepsTies` | src/components/pages/Dashboard.tsx:25-29 | an inserted record lands before every record it ties with |
| `Query.Sort` | src/components/pages/Dashboard.tsx:25-29 | the sort returns a permutation of its input in comparator order |
| `Query.SortIsStable` | src/components/pages/Dashboard.tsx:25-29 | records with equal sort key keep their relative input order |
| `Query.UnsortedKeepsOrder` | src/components/pages/Dashboard.tsx:28 | a comparator that always returns 0 leaves the sequence as it is |
| `Query.SortedIsUnchanged` | src/App.tsx:71-75 | sorting a sequence already in order returns it unchanged |
| `Query.SortIsIdempotent` | src/components/pages/Dashboard.tsx:25-29 | sorting twice with the same order gives the same result as sorting once |
| `Query.SortedTiesDetermine` | src/components/pages/Dashboard.tsx:25-29 | two sorted sequences whose groups of ties agree are equal |
| `Query.StableSortIsUnique` | src/components/pages/Dashboard.tsx:25-29 | every sorted, tie-order-preserving rearrangement of the input is the sort's output |
| `Query.Run` | src/components/pages/Dashboard.tsx:17-29 | the view holds a record exactly when all filters accept it, as often as it occurs, no longer than the input, in sort order |
| `Query.RunIsStable` | src/App.tsx:71-75 | records of equal age keep the relative order the filters left them in |
| `Query.UnsortedRunIsSubsequence` | src/components/pages/Dashboard.tsx:17-29 | without a sort order the view is the filtered subsequence, in input order |
| `Query.RunIsIdempotent` | src/components/pages/Dashboard.tsx:17-29 | applying the same settings to the view again changes nothing |
| `Dashboard.FilteredSingles` | src/components/pages/Dashboard.tsx:17-29 | a single is shown exactly when all four filters accept it, exactly as often as it occurs, no longer than the collection, in the selected age order |
| `Dashboard.ShownSingleMatchesFilters` | src/components/pages/Dashboard.tsx:18-24 | every shown single has the term in its lowercased "first last" or notes, has the selected gender, and lies within each set bound inclusively, 0 included |
| `Dashboard.ShownAgesFollowSortOrder` | src/components/pages/Dashboard.tsx:25-28 | ascending order shows non-decreasing ages and descending order non-increasing ages |
| `LegacyApp.HandleSubmit` | src/App.tsx:38-60 | a complete form appends exactly one record with the form's values and the given id, keeps earlier records and clears the form; an incomplete form changes nothing |
| `LegacyApp.FilteredSingles` | src/App.tsx:63-75 | a single is shown exactly when all four filters accept it, exactly as often as it occurs, no longer than the collection, in the selected age order |
| `LegacyApp.ShownSingleMatchesFilters` | src/App.tsx:64-70 | every shown single has the term in its lowercased name or notes, the selected gender, and an age within the set bounds |
| `LegacyApp.ShownAgesFollowSortOrder` | src/App.tsx:71-74 | ascending order shows non-decreasing ages and descending order non-increasing ages |
| `LegacyApp.AddedSingleAppearsLast` | src/App.tsx:51-70 | after an add, the unsorted view gains the new single at its end exactly when the filters accept it |
| `Matches.HandleAddMatch` | src/components/pages/MatchesPage.tsx:19-33 | a match is created exactly when both ids are truthy and differ, as an unarchived idea between them; the form is cleared only when the handler returned, and otherwise kept |
| `Matches.Apply` | src/components/pages/MatchesPage.tsx:35-46 | one filter over matches returns a subsequence of its input, so the matches keep their order |
| `Matches.ApplyCounts` | src/components/pages/MatchesPage.tsx:35-46 | one filter over matches keeps each accepted match exactly as often as it occurs, and no other match |
| `Matches.CurrentView` | src/components/pages/MatchesPage.tsx:35-46 | the current view is the subsequence of matches passing the status, non-archived and participant tests |
| `Matches.ArchivedView` | src/components/pages/MatchesPage.tsx:48 | the archived view is exactly the archived matches, in input order |
| `Matches.CurrentMatchFacts` | src/components/pages/MatchesPage.tsx:36-45 | every current match is unarchived, has the selected status, and with a search has a participant whose name contains the term |
| `Matches.UnfilteredCurrentIsNotArchived` | src/components/pages/MatchesPage.tsx:36-39 | with no status filter and no search, the only test left is "not archived" |
| `Matches.ViewsPartitionMatches` | src/components/pages/MatchesPage.tsx:35-48 | with no status filter and no search, the two views are disjoint and together hold every match |
| `Matches.WithStatus` | src/components/pages/MatchesPage.tsx:100 | a status change sets the status and changes no other field |
| `Matches.Archive` | src/components/pages/MatchesPage.tsx:109 | archiving sets the flag and changes no other field |
| `Matches.Restore` | src/components/pages/MatchesPage.tsx:125 | restoring clears the flag and changes no other field |
| `Matches.ArchiveRestoreMoveBetweenViews` | src/components/pages/MatchesPage.tsx:109-125 | archive and restore undo each other; an archived match leaves the current view for the archived one, and a restored match re-enters the current view when it passes the filters |
| `Matches.StatusChangeKeepsView` | src/components/pages/MatchesPage.tsx:100 | a status change never moves a match between the current and archived views |
| `Matches.DanglingParticipantMatchesUndefined` | src/components/pages/MatchesPage.tsx:43-44 | a match whose first participant is missing is found by the search "undefined" |
| `SingleForms.ProfileOf` | src/components/pages/AddSinglePage.tsx:43-61 | the record copies every form field and takes its age from the birth date when one is entered, else the typed number |
| `SingleForms.SubmitAdd` | src/components/pages/AddSinglePage.tsx:40-86 | a record is passed on exactly when the form is complete; it copies the fields and stores the derived age; the form is reset only when the handler resolved, and otherwise kept |
| `SingleForms.TypedAgeIsIgnored` | src/components/pages/AddSinglePage.tsx:42-59 | the typed age only unlocks the guard: any non-zero value yields the same record, and the same reset form |
| `SingleForms.FormOf` | src/components/EditSinglePage.tsx:16-32 | the edit form starts with every stored field, and the age shows empty exactly when it is 0 |
| `SingleForms.OpenEdit` | src/components/EditSinglePage.tsx:14-32 | a form opens exactly when the route has an id some single carries, filled from the first such single |
| `SingleForms.SubmitEdit` | src/components/EditSinglePage.tsx:45-71 | a replacement is passed on exactly when the form is complete; it keeps the route's id, copies the fields and stores the derived age |
| `SingleForms.EditKeepsId` | src/components/EditSinglePage.tsx:49 | the saved record has the id of the single that was found |
| `SingleForms.UnchangedEditRoundTrip` | src/components/EditSinglePage.tsx:16-65 | saving an unchanged form returns the stored single exactly when its stored age is the derived one |
| `SingleForms.ZeroAgeBlocksUnchangedEdit` | src/components/EditSinglePage.tsx:31-47 | a stored age of 0 opens as an empty age field, so the unchanged form cannot be saved |
| `SingleForms.AddedProfileReopens` | src/components/EditSinglePage.tsx:16-32 | a single added today reopens as the form it was added from, with the derived age in the age field |
| `Examples.AddedSingleAgeExample` | src/components/pages/AddSinglePage.tsx:29-59 | born 1 January 2000, added on 15 June 2024, the stored age is 24 whatever was typed |
| `Examples.BirthdayExample` | src/components/pages/AddSinglePage.tsx:32-37 | the age goes up on the birthday, not the day before, and a future birth date gives -1 |
| `Examples.MinAgeExample` | src/components/pages/Dashboard.tsx:23 | a minimum of 28 keeps a 30-year-old and drops a 25-year-old |
| `Examples.StatusFilterExample` | src/components/pages/MatchesPage.tsx:36 | filtering the current view by Married keeps only the married match |

## Left out

- Persistence is not modelled: loading and saving through `localStorage`, and the remote database client in src/supabaseClient.ts. Both are I/O outside the logic.
- The handlers behind `onAdd`, `onEdit`, `onDelete`, `onAddMatch`, `onUpdateMatch` and `onDeleteMatch` are not part of this model. They live in a component that is not shown. So are the insertion of records into the collections and the cascade that deletes a single's matches. The model covers what each page hands to its handler. Whether a handler returns or throws is not computed: it is the `handled` parameter of `SingleForms.SubmitAdd` and `Matches.HandleAddMatch`.
- Rendering, routing and navigation (`navigate`, `Link`, src/components/OptionsPage.tsx) and styling (tailwind.config.js) are left out. They carry no logic.
- `Date.now()` ids and the route's id are parameters. Parsing the route id with `Number` is not modelled: a non-numeric id is treated like a missing one, since neither finds a single.
- Parsing a date string with `new Date(...)` is left out, and so is time-zone handling. Dates are already-parsed (year, month, day) triples, and "today" is a parameter.
- `Text.LowerPointwise`: `toLowerCase` covers only ASCII letters. Full Unicode case mapping is not modelled.
- JavaScript numbers are modelled as unbounded integers. `NaN` and fractional ages, which a number input could produce, are not modelled.
- The matches status filter is an `Option<Status>`. The page's `<select>` offers only the six statuses or the empty string.
- Console logging is left out.
