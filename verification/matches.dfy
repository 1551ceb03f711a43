/** The matches page: creating a match from two selected singles, the
    "current" and "archived" views, and the status, archive and restore
    updates handed to the page's owner. */
module Matches {
  import opened Wrappers
  import opened Text
  import opened Seqs
  import opened Records

  /** The two `<select>` values of the creation form: '' until something is
      chosen, `Number(value)` afterwards (0 when the placeholder is chosen
      again). */
  datatype MatchForm = MatchForm(single1Id: Option<int>, single2Id: Option<int>)

  const EmptyMatchForm := MatchForm(None, None)

  /** Both selections are truthy and differ. */
  predicate CanCreate(f: MatchForm) {
    Truthy(f.single1Id) && Truthy(f.single2Id) && f.single1Id != f.single2Id
  }

  /** `handleAddMatch`: the match passed to `onAddMatch`, if any, and the
      form afterwards. The id, `Date.now()` in the app, is a parameter, and
      so is `handled`: whether `onAddMatch` returned normally, since the
      form is cleared only after it returns. A new match starts as an idea,
      not archived, between the two chosen singles, which are distinct and
      non-zero. When the guard fails nothing is created and the form is
      kept. */
  function HandleAddMatch(f: MatchForm, id: int, handled: bool): (r: (Option<Match>, MatchForm))
    ensures r.0.Some? <==> CanCreate(f)
    ensures r.0.Some? ==>
      && r.0.value.id == id
      && r.0.value.single1Id == f.single1Id.value && r.0.value.single2Id == f.single2Id.value
      && r.0.value.single1Id != r.0.value.single2Id
      && r.0.value.single1Id != 0 && r.0.value.single2Id != 0
      && r.0.value.status == Idea && !r.0.value.archived
    ensures r.1 == if r.0.Some? && handled then EmptyMatchForm else f
  {
    if CanCreate(f) then
      (Some(Match(id, ToNumber(f.single1Id), ToNumber(f.single2Id), Idea, false)), if handled then EmptyMatchForm else f)
    else (None, f)
  }

  /** `${single?.firstName} ${single?.lastName}` for the first single with
      the id; when there is none, JavaScript renders both parts as
      "undefined". */
  function ParticipantName(singles: seq<Single>, id: int): string {
    match FindById(singles, id)
    case Some(s) => FullName(s.profile)
    case None => "undefined undefined"
  }

  /** One `.filter` call over the matches. */
  datatype MatchStage =
    | StatusIs(filter: Option<Status>)
    | NotArchived
    | IsArchived
    | Participant(term: string, singles: seq<Single>)

  predicate Passes(st: MatchStage, m: Match) {
    match st
    case StatusIs(filter) => if filter.Some? then m.status == filter.value else true
    case NotArchived => !m.archived
    case IsArchived => m.archived
    case Participant(term, singles) =>
      if term == "" then true
      else
        Includes(Lower(ParticipantName(singles, m.single1Id)), Lower(term))
        || Includes(Lower(ParticipantName(singles, m.single2Id)), Lower(term))
  }

  function Apply(ms: seq<Match>, st: MatchStage): (r: seq<Match>)
    ensures SubseqOf(r, ms)
    decreases |ms|
  {
    if |ms| == 0 then []
    else
      var rest := Apply(ms[1..], st);
      if Passes(st, ms[0]) then [ms[0]] + rest else rest
  }

  /** A filter keeps every accepted match as often as it occurs, and no
      other match. */
  lemma {:induction false} ApplyCounts(ms: seq<Match>, st: MatchStage)
    ensures forall m :: multiset(Apply(ms, st))[m] == if Passes(st, m) then multiset(ms)[m] else 0
    decreases |ms|
  {
    if |ms| > 0 {
      ApplyCounts(ms[1..], st);
      assert ms == [ms[0]] + ms[1..];
    }
  }

  lemma ApplyOne(m: Match, st: MatchStage)
    ensures Apply([m], st) == if Passes(st, m) then [m] else []
  {
    assert [m][1..] == [];
  }

  /** The three tests of the current view. */
  predicate InCurrentView(statusFilter: Option<Status>, search: string, singles: seq<Single>, m: Match) {
    Passes(StatusIs(statusFilter), m) && Passes(NotArchived, m) && Passes(Participant(search, singles), m)
  }

  /** `filteredMatches`: status filter, then non-archived, then participant
      search. A match is in the view exactly when it passes all three, as
      often as in `matches`, in the order of `matches`. */
  function CurrentView(matches: seq<Match>, statusFilter: Option<Status>, search: string, singles: seq<Single>): (r: seq<Match>)
    ensures SubseqOf(r, matches)
    ensures forall m :: multiset(r)[m] == if InCurrentView(statusFilter, search, singles, m) then multiset(matches)[m] else 0
  {
    var a := Apply(matches, StatusIs(statusFilter));
    var b := Apply(a, NotArchived);
    var r := Apply(b, Participant(search, singles));
    ApplyCounts(matches, StatusIs(statusFilter));
    ApplyCounts(a, NotArchived);
    ApplyCounts(b, Participant(search, singles));
    SubseqTrans(b, a, matches);
    SubseqTrans(r, b, matches);
    r
  }

  /** `archivedMatches`: exactly the archived matches, in input order. */
  function ArchivedView(matches: seq<Match>): (r: seq<Match>)
    ensures SubseqOf(r, matches)
    ensures forall m :: multiset(r)[m] == if m.archived then multiset(matches)[m] else 0
  {
    ApplyCounts(matches, IsArchived);
    Apply(matches, IsArchived)
  }

  /** What every match of the current view satisfies: it is not archived,
      it has the selected status if one is selected, and with a non-empty
      search one of its participants' lowercased names contains the
      lowercased term. */
  lemma CurrentMatchFacts(matches: seq<Match>, statusFilter: Option<Status>, search: string, singles: seq<Single>, i: int)
    requires 0 <= i < |CurrentView(matches, statusFilter, search, singles)|
    ensures var m := CurrentView(matches, statusFilter, search, singles)[i];
      && !m.archived
      && (statusFilter.Some? ==> m.status == statusFilter.value)
      && (search != "" ==>
            Includes(Lower(ParticipantName(singles, m.single1Id)), Lower(search))
            || Includes(Lower(ParticipantName(singles, m.single2Id)), Lower(search)))
  {
    var r := CurrentView(matches, statusFilter, search, singles);
    assert r[i] in multiset(r);
  }

  lemma UnfilteredCurrentIsNotArchived(m: Match, singles: seq<Single>)
    ensures InCurrentView(None, "", singles, m) <==> !m.archived
  {
  }

  /** With no status filter and no search, the two views split the matches:
      no match is in both, and together they hold every match exactly as
      often as `matches` does. */
  lemma ViewsPartitionMatches(matches: seq<Match>, singles: seq<Single>)
    ensures var current := CurrentView(matches, None, "", singles);
      var archived := ArchivedView(matches);
      && multiset(current) + multiset(archived) == multiset(matches)
      && forall m :: !(m in current && m in archived)
  {
    var current := CurrentView(matches, None, "", singles);
    var archived := ArchivedView(matches);
    assert multiset(current) + multiset(archived) == multiset(matches) by {
      forall m ensures (multiset(current) + multiset(archived))[m] == multiset(matches)[m] {
        UnfilteredCurrentIsNotArchived(m, singles);
      }
    }
    forall m ensures !(m in current && m in archived) {
      if m in current {
        assert m in multiset(current);
        UnfilteredCurrentIsNotArchived(m, singles);
      }
    }
  }

  // ---------------------------------------------------------------------
  // Record updates passed to `onUpdateMatch`

  /** `{ ...match, status }`: the status is the chosen one, and putting the
      old status back gives the original match, so nothing else changed. */
  function WithStatus(m: Match, status: Status): (r: Match)
    ensures r.status == status
    ensures r.(status := m.status) == m
  {
    m.(status := status)
  }

  /** `{ ...match, archived: true }`: only the archived flag changes. */
  function Archive(m: Match): (r: Match)
    ensures r.archived
    ensures r.(archived := m.archived) == m
  {
    m.(archived := true)
  }

  /** `{ ...match, archived: false }`: only the archived flag changes. */
  function Restore(m: Match): (r: Match)
    ensures !r.archived
    ensures r.(archived := m.archived) == m
  {
    m.(archived := false)
  }

  /** Archive and restore undo each other, and they move a match between
      the two views: an archived match is never current and always in the
      archived view; a restored one is in the archived view never, and in
      the current view exactly when its status and participants pass. */
  lemma ArchiveRestoreMoveBetweenViews(m: Match, statusFilter: Option<Status>, search: string, singles: seq<Single>)
    ensures !m.archived ==> Restore(Archive(m)) == m
    ensures m.archived ==> Archive(Restore(m)) == m
    ensures CurrentView([Archive(m)], statusFilter, search, singles) == []
    ensures ArchivedView([Archive(m)]) == [Archive(m)]
    ensures ArchivedView([Restore(m)]) == []
    ensures CurrentView([Restore(m)], statusFilter, search, singles) == []
        <==> !(Passes(StatusIs(statusFilter), m) && Passes(Participant(search, singles), m))
  {
    SingletonViews(Archive(m), statusFilter, search, singles);
    SingletonViews(Restore(m), statusFilter, search, singles);
  }

  /** The views of a one-match collection. */
  lemma SingletonViews(m: Match, statusFilter: Option<Status>, search: string, singles: seq<Single>)
    ensures CurrentView([m], statusFilter, search, singles)
         == if InCurrentView(statusFilter, search, singles, m) then [m] else []
    ensures ArchivedView([m]) == if m.archived then [m] else []
  {
    ApplyOne(m, StatusIs(statusFilter));
    ApplyOne(m, NotArchived);
    ApplyOne(m, Participant(search, singles));
    ApplyOne(m, IsArchived);
    ApplyEmptyIsEmpty(NotArchived);
    ApplyEmptyIsEmpty(Participant(search, singles));
  }

  lemma ApplyEmptyIsEmpty(st: MatchStage)
    ensures Apply([], st) == []
  {
  }

  /** A status change never moves a match between the views. */
  lemma StatusChangeKeepsView(m: Match, status: Status)
    ensures Passes(NotArchived, WithStatus(m, status)) == Passes(NotArchived, m)
    ensures Passes(IsArchived, WithStatus(m, status)) == Passes(IsArchived, m)
  {
  }

  lemma UndefinedContainsUndefined()
    ensures Includes(Lower("undefined undefined"), Lower("undefined"))
  {
    var s := "undefined undefined";
    assert s[0..9] == "undefined";
    SliceIsFound(s, "undefined", 0, 9);
  }

  /** A match whose first participant cannot be found is still found by
      searching for "undefined": the search does not treat a dangling
      reference as a non-match. */
  lemma DanglingParticipantMatchesUndefined(m: Match, singles: seq<Single>)
    requires FindById(singles, m.single1Id).None?
    ensures Passes(Participant("undefined", singles), m)
  {
    var name := ParticipantName(singles, m.single1Id);
    assert name == "undefined undefined";
    UndefinedContainsUndefined();
    assert Includes(Lower(name), Lower("undefined"));
  }
}
