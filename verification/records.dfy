/** The two record types of the notebook: a profile of a single and a match
    pairing two singles. */
module Records {
  import opened Wrappers
  import opened Dates

  /** The value of an `<input type="date">`: empty, or a calendar date. */
  datatype DateInput = Blank | Entered(date: Date)

  /** Every field of a single except its id (`Omit<Single, "id">`). */
  datatype Profile = Profile(
    firstName: string,
    lastName: string,
    dateOfBirth: DateInput,
    email: string,
    phoneNumber: string,
    occupation: string,
    notes: string,
    aliyaPreference: string,
    location: string,
    religiousStatus: string,
    spousePreferences: string,
    height: string,
    previouslyMarried: bool,
    hasChildren: bool,
    currentRelationshipStatus: string,
    age: int,
    gender: string)

  datatype Single = Single(id: int, profile: Profile)

  /** The name shown and searched: `${firstName} ${lastName}`. */
  function FullName(p: Profile): string {
    p.firstName + " " + p.lastName
  }

  /** The stages a match goes through; nothing forces them to be taken in
      order. */
  datatype Status = Idea | Suggested | Dating | Serious | Engaged | Married

  datatype Match = Match(id: int, single1Id: int, single2Id: int, status: Status, archived: bool)

  /** `singles.find(s => s.id === id)`: the first single carrying the id. */
  function FindById(singles: seq<Single>, id: int): (r: Option<Single>)
    ensures r.None? <==> forall i :: 0 <= i < |singles| ==> singles[i].id != id
    ensures r.Some? ==>
      exists i :: 0 <= i < |singles| && singles[i] == r.value && r.value.id == id
        && forall j :: 0 <= j < i ==> singles[j].id != id
    decreases |singles|
  {
    if |singles| == 0 then None
    else if singles[0].id == id then Some(singles[0])
    else
      var r := FindById(singles[1..], id);
      if r.Some? then
        var i :| 0 <= i < |singles| - 1 && singles[1..][i] == r.value && r.value.id == id
          && forall j :: 0 <= j < i ==> singles[1..][j].id != id;
        assert singles[i + 1] == r.value;
        r
      else r
  }
}
