/** Age derivation. A date is the triple that `getFullYear()`, `getMonth()`
    and `getDate()` read off a parsed `Date`; "today" is a parameter. */
module Dates {

  datatype Date = Date(year: int, month: int, day: int)

  /** The month-and-day of `a` comes strictly before that of `b` within a year. */
  predicate EarlierInYear(a: Date, b: Date) {
    var monthDiff := a.month - b.month;
    monthDiff < 0 || (monthDiff == 0 && a.day < b.day)
  }

  /** Strict calendar order: lexicographic on (year, month, day). */
  predicate Before(a: Date, b: Date) {
    a.year < b.year || (a.year == b.year && EarlierInYear(a, b))
  }

  predicate NotAfter(a: Date, b: Date) {
    !Before(b, a)
  }

  /** The day on which someone born on `dob` turns `n`: same month and day,
      `n` years on (for 29 February this may not be a real day, and the
      comparison treats it as falling after 28 February). */
  function Anniversary(dob: Date, n: int): Date {
    Date(dob.year + n, dob.month, dob.day)
  }

  /** `calculateAge`: the difference in years, less one when this year's
      birthday is still ahead. The result is pinned between two consecutive
      anniversaries: the `age`-th has happened by `today`, the next has not.
      Nothing is clamped, so a birth date after `today` gives a negative age. */
  function CalculateAge(dob: Date, today: Date): (age: int)
    ensures NotAfter(Anniversary(dob, age), today)
    ensures Before(today, Anniversary(dob, age + 1))
  {
    var age := today.year - dob.year;
    if EarlierInYear(today, dob) then age - 1 else age
  }

  lemma {:induction false} AnniversariesAreIncreasing(dob: Date, n: int, m: int)
    requires n < m
    ensures Before(Anniversary(dob, n), Anniversary(dob, m))
  {
  }

  /** The computed age counts the birthdays that have passed: the `n`-th
      anniversary is on or before `today` exactly when `n <= age`. */
  lemma {:induction false} AgeCountsPassedBirthdays(dob: Date, today: Date, n: int)
    ensures NotAfter(Anniversary(dob, n), today) <==> n <= CalculateAge(dob, today)
  {
    var age := CalculateAge(dob, today);
    if n <= age {
      if n < age {
        AnniversariesAreIncreasing(dob, n, age);
      }
    } else if n > age + 1 {
      AnniversariesAreIncreasing(dob, age + 1, n);
    }
  }

  /** Only one number sits between two consecutive anniversaries, so any
      `n` with the bracketing property is the computed age. */
  lemma {:induction false} AgeIsUnique(dob: Date, today: Date, n: int)
    requires NotAfter(Anniversary(dob, n), today)
    requires Before(today, Anniversary(dob, n + 1))
    ensures n == CalculateAge(dob, today)
  {
    AgeCountsPassedBirthdays(dob, today, n);
    AgeCountsPassedBirthdays(dob, today, n + 1);
  }

  /** The age is non-negative exactly when the birth date is not after
      `today`; a future birth date yields a negative age. */
  lemma {:induction false} AgeNonNegativeIff(dob: Date, today: Date)
    ensures CalculateAge(dob, today) >= 0 <==> NotAfter(dob, today)
  {
    assert Anniversary(dob, 0) == dob;
    AgeCountsPassedBirthdays(dob, today, 0);
  }
}
