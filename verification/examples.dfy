/** Worked examples: concrete inputs and what the model gives for them. */
module Examples {
  import opened Wrappers
  import opened Dates
  import opened Records
  import opened Query
  import opened Dashboard
  import opened Matches
  import opened SingleForms

  function SampleProfile(first: string, age: int, gender: string): Profile {
    Profile(first, "Cohen", Blank, "", "", "", "", "", "", "", "", "", false, false, "", age, gender)
  }

  /** Someone born on 1 January 2000 is 24 on 15 June 2024, and a complete
      add form with that birth date stores 24 whatever age was typed. */
  lemma AddedSingleAgeExample(typed: int)
    requires typed != 0
    ensures CalculateAge(Date(2000, 1, 1), Date(2024, 6, 15)) == 24
    ensures var f := SingleForm("Dana", "Cohen", Entered(Date(2000, 1, 1)), "dana@example.com", "555", "Teacher",
                                "", "", "", "Orthodox", "", "", false, false, "", Some(typed), "Female");
      SubmitAdd(f, Date(2024, 6, 15), true).0.value.age == 24
  {
  }

  /** The day before a birthday the age has not yet gone up; on the day it
      has. */
  lemma BirthdayExample()
    ensures CalculateAge(Date(2000, 6, 15), Date(2024, 6, 14)) == 23
    ensures CalculateAge(Date(2000, 6, 15), Date(2024, 6, 15)) == 24
    ensures CalculateAge(Date(2025, 1, 1), Date(2024, 6, 15)) == -1
  {
  }

  /** A minimum age of 28 keeps the 30-year-old and drops the 25-year-old. */
  lemma MinAgeExample()
    ensures var a := Single(1, SampleProfile("A", 30, "Male"));
      var b := Single(2, SampleProfile("B", 25, "Female"));
      FilteredSingles([a, b], Criteria("", "", Some(28), None, Unsorted)) == [a]
  {
    var a := Single(1, SampleProfile("A", 30, "Male"));
    var b := Single(2, SampleProfile("B", 25, "Female"));
    var c := Criteria("", "", Some(28), None, Unsorted);
    InactiveStageKeepsAll([a, b], View, Search(""));
    InactiveStageKeepsAll([a, b], View, Gender(""));
    InactiveStageKeepsAll([a], View, MaxAge(None));
    assert [a, b][1..] == [b];
    assert Query.Apply([a, b], View, MinAge(Some(28))) == [a];
    UnsortedRunIsSubsequence([a, b], View, c);
  }

  /** Filtering the current view by "Married" keeps only the married match. */
  lemma StatusFilterExample()
    ensures var idea := Match(1, 1, 2, Idea, false);
      var married := Match(2, 3, 4, Married, false);
      CurrentView([idea, married], Some(Married), "", []) == [married]
  {
    var idea := Match(1, 1, 2, Idea, false);
    var married := Match(2, 3, 4, Married, false);
    assert [idea, married][1..] == [married];
    assert [married][1..] == [];
    assert Matches.Apply([idea, married], StatusIs(Some(Married))) == [married];
    assert Matches.Apply([married], NotArchived) == [married];
    assert Matches.Apply([married], Participant("", [])) == [married];
  }
}
