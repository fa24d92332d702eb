/**
 * Calendar days. The source parses `YYYY-MM-DD` strings with `new Date` and
 * reads back year, month and day; here a day is that triple directly, and
 * "today" is always an explicit argument.
 */
module Dates {

  /** A calendar day; `month` counts from 1 as in the ISO form the forms submit. */
  datatype Date = Date(year: int, month: int, day: int)

  /** Strictly earlier day (what `<` does on two `Date` objects at midnight). */
  predicate Before(a: Date, b: Date) {
    || a.year < b.year
    || (a.year == b.year && (a.month < b.month || (a.month == b.month && a.day < b.day)))
  }

  /** The anniversary is still ahead in the year of `on`: its month/day comes before the birth month/day. */
  predicate BirthdayAhead(birth: Date, on: Date) {
    on.month < birth.month || (on.month == birth.month && on.day < birth.day)
  }

  /** Completed years between `birth` and `on`. */
  function AgeAt(birth: Date, on: Date): int {
    var years := on.year - birth.year;
    if BirthdayAhead(birth, on) then years - 1 else years
  }

  /** The `n`-th anniversary of `birth`. */
  function Anniversary(birth: Date, n: int): (d: Date)
    ensures d.month == birth.month && d.day == birth.day
  {
    Date(birth.year + n, birth.month, birth.day)
  }

  /**
   * The age is at least `n` exactly from the `n`-th anniversary on: the
   * month/day-aware age agrees with "the anniversary is not after that day".
   */
  lemma AgeAtLeastIffAnniversaryPassed(birth: Date, on: Date, n: int)
    ensures AgeAt(birth, on) >= n <==> !Before(on, Anniversary(birth, n))
  {
  }

  /** Age never decreases as the reference day moves forward. */
  lemma AgeMonotone(birth: Date, d1: Date, d2: Date)
    requires !Before(d2, d1)
    ensures AgeAt(birth, d1) <= AgeAt(birth, d2)
  {
  }

  /** On the day itself one is zero years old, and one year later exactly one. */
  lemma AgeOnAnniversary(birth: Date, n: int)
    ensures AgeAt(birth, Anniversary(birth, n)) == n
  {
  }
}
