/**
  The age filter of the discovery query against AgeAt, over the proleptic Gregorian calendar.
 */
module Age {
  import opened Wrappers

  datatype Date = Date(year: int, month: int, day: int)

  predicate IsLeap(year: int) {
    year % 4 == 0 && (year % 100 != 0 || year % 400 == 0)
  }

  function DaysIn(year: int, month: int): int {
    if month == 2 then (if IsLeap(year) then 29 else 28)
    else if month == 4 || month == 6 || month == 9 || month == 11 then 30
    else 31
  }

  predicate Valid(d: Date) {
    1 <= d.month <= 12 && 1 <= d.day <= DaysIn(d.year, d.month)
  }

  predicate LessEq(a: Date, b: Date) {
    || a.year < b.year
    || (a.year == b.year && (a.month < b.month || (a.month == b.month && a.day <= b.day)))
  }

  /** AgeAt: completed years, never negative. */
  function AgeAt(dob: Date, today: Date): int {
    var years := today.year - dob.year;
    var completed := if today.month < dob.month || (today.month == dob.month && today.day < dob.day)
                     then years - 1 else years;
    if completed < 0 then 0 else completed
  }

  /** Postgres' date - make_interval(years => n): the day is clamped to the month's last. */
  function MinusYears(d: Date, n: int): Date {
    var year := d.year - n;
    Date(year, d.month, if d.day > DaysIn(year, d.month) then DaysIn(year, d.month) else d.day)
  }

  /** The two age clauses; NULL switches one off. */
  predicate InWindow(dob: Date, today: Date, min: Option<nat>, max: Option<nat>) {
    && (min.Some? ==> LessEq(dob, MinusYears(today, min.value)))
    && (max.Some? ==> !LessEq(dob, MinusYears(today, max.value + 1)))
  }

  /**
    The calendar is the Gregorian one: a leap day every four years, but not in a century year
    that 400 does not divide, and months of 30 and 31 days otherwise.
   */
  lemma CalendarIsGregorian(year: int, m: nat)
    requires 1 <= m <= 12
    ensures Valid(Date(year, 2, 29)) <==> year % 400 == 0 || (year % 4 == 0 && year % 100 != 0)
    ensures !Valid(Date(year, 2, 30)) && Valid(Date(year, m, 28))
    ensures m != 2 ==> DaysIn(year, m) == [31, 28, 31, 30, 31, 30, 31, 31, 30, 31, 30, 31][m - 1]
  {
  }

  /** An age is the number of birthdays there have been: that many years on, and not yet one more. */
  lemma AgeCountsBirthdays(dob: Date, today: Date)
    requires LessEq(dob, today)
    ensures var age := AgeAt(dob, today);
      && age >= 0
      && LessEq(Date(dob.year + age, dob.month, dob.day), today)
      && !LessEq(Date(dob.year + age + 1, dob.month, dob.day), today)
  {
  }

  /** Somebody is at least n years old exactly when they were born n years ago or before. */
  lemma AtLeast(dob: Date, today: Date, n: nat)
    requires Valid(dob) && Valid(today)
    ensures Valid(MinusYears(today, n))
    ensures LessEq(dob, MinusYears(today, n)) <==> LessEq(dob, today) && n <= AgeAt(dob, today)
  {
    // The only day the clamp moves is 29 February, and nobody is born on one in a common year.
  }

  /**
    The window of the query is the age range the user asked for, 29 February and all; the
    lower bound also leaves out dates of birth still to come, whose AgeAt is 0.
   */
  lemma WindowIsAgeRange(dob: Date, today: Date, min: Option<nat>, max: Option<nat>)
    requires Valid(dob) && Valid(today)
    ensures InWindow(dob, today, min, max)
            <==> (min.Some? ==> LessEq(dob, today) && min.value <= AgeAt(dob, today))
                 && (max.Some? ==> AgeAt(dob, today) <= max.value)
  {
  }

  /** A dob in the future is where the two part: it counts as age 0, yet no window with a lower bound holds it. */
  lemma FutureBirthIsOutside()
    ensures exists dob: Date, today: Date :: Valid(dob) && Valid(today)
              && 0 <= AgeAt(dob, today) <= 99 && !InWindow(dob, today, Some(0), Some(99))
  {
    var today, dob := Date(2024, 2, 29), Date(2024, 3, 1);
    assert Valid(dob) && Valid(today);
    assert !InWindow(dob, today, Some(0), Some(99));
  }
}
