/** The add-single and edit-single pages: their form state, the submit
    guard, and the record each hands to its owner. */
module SingleForms {
  import opened Wrappers
  import opened Dates
  import opened Records

  /** The form state shared by both pages; `age` is the `number | ''` input. */
  datatype SingleForm = SingleForm(
    firstName: string,
    lastName: string,
    dateOfBirth: DateInput,
    email: string,
    phoneNumber: string,
    occupation: string,
    notes: string,
    aliyaPreference: string,
    location: string,
    religiousStatus: string,
    spousePreferences: string,
    height: string,
    previouslyMarried: bool,
    hasChildren: bool,
    currentRelationshipStatus: string,
    age: Option<int>,
    gender: string)

  /** Every field reset to '' or false. */
  const EmptySingleForm := SingleForm("", "", Blank, "", "", "", "", "", "", "", "", "", false, false, "", None, "")

  /** The submit guard of both pages: the required text fields and the date
      of birth are non-empty and the typed age is truthy. Notes, aliya
      preference, location, spouse preferences, height, relationship status
      and the two checkboxes are optional. */
  predicate Complete(f: SingleForm) {
    && f.firstName != "" && f.lastName != "" && f.dateOfBirth.Entered?
    && f.email != "" && f.phoneNumber != "" && f.occupation != ""
    && f.religiousStatus != "" && Truthy(f.age) && f.gender != ""
  }

  /** The record and the form agree on every field except the age. */
  predicate SameFields(p: Profile, f: SingleForm) {
    && p.firstName == f.firstName && p.lastName == f.lastName
    && p.dateOfBirth == f.dateOfBirth && p.email == f.email
    && p.phoneNumber == f.phoneNumber && p.occupation == f.occupation
    && p.notes == f.notes && p.aliyaPreference == f.aliyaPreference
    && p.location == f.location && p.religiousStatus == f.religiousStatus
    && p.spousePreferences == f.spousePreferences && p.height == f.height
    && p.previouslyMarried == f.previouslyMarried && p.hasChildren == f.hasChildren
    && p.currentRelationshipStatus == f.currentRelationshipStatus && p.gender == f.gender
  }

  /** The record built on submit: the form's fields verbatim, and as age
      `dateOfBirth ? calculateAge(dateOfBirth) : Number(age)`. */
  function ProfileOf(f: SingleForm, today: Date): (p: Profile)
    ensures SameFields(p, f)
    ensures f.dateOfBirth.Entered? ==> p.age == CalculateAge(f.dateOfBirth.date, today)
    ensures f.dateOfBirth.Blank? ==> p.age == ToNumber(f.age)
  {
    var age := if f.dateOfBirth.Entered? then CalculateAge(f.dateOfBirth.date, today) else ToNumber(f.age);
    Profile(f.firstName, f.lastName, f.dateOfBirth, f.email, f.phoneNumber, f.occupation, f.notes,
            f.aliyaPreference, f.location, f.religiousStatus, f.spousePreferences, f.height,
            f.previouslyMarried, f.hasChildren, f.currentRelationshipStatus, age, f.gender)
  }

  // ---------------------------------------------------------------------
  // Adding a single

  /** `handleSubmit` of the add page: the record passed to `onAdd` (no id:
      the owner assigns one) and the form afterwards. A complete form yields
      a record carrying every field verbatim, with the age derived from the
      date of birth (the typed age only unlocks the guard). Every field is
      reset only once `onAdd` has resolved, which `handled` says; when it
      throws or rejects, the form keeps its values. An incomplete form
      yields nothing and stays as it is. */
  function SubmitAdd(f: SingleForm, today: Date, handled: bool): (r: (Option<Profile>, SingleForm))
    ensures r.0.Some? <==> Complete(f)
    ensures r.0.Some? ==> SameFields(r.0.value, f) && r.0.value.age == CalculateAge(f.dateOfBirth.date, today)
    ensures r.1 == if r.0.Some? && handled then EmptySingleForm else f
  {
    if Complete(f) then (Some(ProfileOf(f, today)), if handled then EmptySingleForm else f) else (None, f)
  }

  /** Whatever non-zero age is typed, a complete form submits the same
      record. */
  lemma TypedAgeIsIgnored(f: SingleForm, typed: int, today: Date, handled: bool)
    requires Complete(f) && typed != 0
    ensures SubmitAdd(f.(age := Some(typed)), today, handled).0 == SubmitAdd(f, today, handled).0
    ensures handled ==> SubmitAdd(f.(age := Some(typed)), today, handled) == SubmitAdd(f, today, handled)
  {
  }

  // ---------------------------------------------------------------------
  // Editing a single

  /** The edit form's initial state, `single?.field || ''`: every field as
      stored, except that an age of 0, being falsy, shows as ''. */
  function FormOf(p: Profile): (f: SingleForm)
    ensures SameFields(p, f)
    ensures Truthy(f.age) <==> p.age != 0
    ensures f.age.None? <==> p.age == 0
    ensures f.age.Some? ==> f.age.value == p.age
  {
    SingleForm(p.firstName, p.lastName, p.dateOfBirth, p.email, p.phoneNumber, p.occupation, p.notes,
               p.aliyaPreference, p.location, p.religiousStatus, p.spousePreferences, p.height,
               p.previouslyMarried, p.hasChildren, p.currentRelationshipStatus,
               if p.age != 0 then Some(p.age) else None, p.gender)
  }

  /** An open edit page: the id from the route and the form state. */
  datatype EditSession = EditSession(id: int, form: SingleForm)

  /** Opening `/edit/:id`: the single edited is the first one whose id is
      the route's id; with no such single, or no id, the page shows "Single
      not found" and offers no form. */
  function OpenEdit(singles: seq<Single>, routeId: Option<int>): (r: Option<EditSession>)
    ensures r.None? <==> routeId.None? || forall i :: 0 <= i < |singles| ==> singles[i].id != routeId.value
    ensures r.Some? ==>
      && r.value.id == routeId.value
      && FindById(singles, routeId.value).Some?
      && r.value.form == FormOf(FindById(singles, routeId.value).value.profile)
  {
    if routeId.None? then None
    else
      match FindById(singles, routeId.value)
      case None => None
      case Some(s) => Some(EditSession(routeId.value, FormOf(s.profile)))
  }

  /** `handleSubmit` of the edit page: the full replacement record passed
      to `onEdit`, keeping the route's id, the form's fields verbatim and
      the age derived from the date of birth; nothing when the form is
      incomplete. */
  function SubmitEdit(session: EditSession, today: Date): (r: Option<Single>)
    ensures r.Some? <==> Complete(session.form)
    ensures r.Some? ==>
      && r.value.id == session.id
      && SameFields(r.value.profile, session.form)
      && r.value.profile.age == CalculateAge(session.form.dateOfBirth.date, today)
  {
    if Complete(session.form) then Some(Single(session.id, ProfileOf(session.form, today))) else None
  }

  /** Editing keeps the id of the single that was found. */
  lemma EditKeepsId(singles: seq<Single>, routeId: Option<int>, form: SingleForm, today: Date)
    requires OpenEdit(singles, routeId).Some?
    requires SubmitEdit(EditSession(OpenEdit(singles, routeId).value.id, form), today).Some?
    ensures SubmitEdit(EditSession(OpenEdit(singles, routeId).value.id, form), today).value.id
         == FindById(singles, routeId.value).value.id
  {
  }

  /** Saving an edit page without changing anything gives back the stored
      single exactly when its stored age is the derived one (and non-zero,
      otherwise the form cannot be saved as opened); a stale age is
      replaced by the derived value. */
  lemma UnchangedEditRoundTrip(singles: seq<Single>, routeId: Option<int>, today: Date)
    requires OpenEdit(singles, routeId).Some?
    requires Complete(OpenEdit(singles, routeId).value.form)
    ensures var s := FindById(singles, routeId.value).value;
      (SubmitEdit(OpenEdit(singles, routeId).value, today) == Some(s))
      == (s.profile.age == CalculateAge(s.profile.dateOfBirth.date, today))
  {
  }

  /** A stored age of 0 shows as an empty age field, so the page cannot be
      saved until an age is typed in again. */
  lemma ZeroAgeBlocksUnchangedEdit(singles: seq<Single>, routeId: Option<int>, today: Date)
    requires OpenEdit(singles, routeId).Some?
    requires FindById(singles, routeId.value).value.profile.age == 0
    ensures SubmitEdit(OpenEdit(singles, routeId).value, today).None?
  {
  }

  /** A single added today and opened for editing today shows the form it
      was added from, except that the age field holds the derived age. */
  lemma AddedProfileReopens(f: SingleForm, today: Date)
    requires Complete(f) && CalculateAge(f.dateOfBirth.date, today) != 0
    ensures FormOf(SubmitAdd(f, today, true).0.value) == f.(age := Some(CalculateAge(f.dateOfBirth.date, today)))
  {
  }
}
