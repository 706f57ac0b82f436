/** Calendar dates as (year, month, day) triples and the two interval rules of the
    registry form: the whole-month difference `calculate_months` and the age in
    completed years. Only month validity (1..12) is modelled; day numbers are
    compared but never checked against month lengths. */
module Dates {

  datatype Date = Date(year: int, month: int, day: int)

  predicate ValidMonth(d: Date) {
    1 <= d.month <= 12
  }

  /** Lexicographic order on (year, month, day), the order of Python `date`s. */
  predicate Before(a: Date, b: Date) {
    || a.year < b.year
    || (a.year == b.year && a.month < b.month)
    || (a.year == b.year && a.month == b.month && a.day < b.day)
  }

  predicate NotAfter(a: Date, b: Date) {
    Before(a, b) || a == b
  }

  /** The position of a date's calendar month on a single running count of months. */
  function MonthIndex(d: Date): int {
    d.year * 12 + (d.month - 1)
  }

  /** `calculate_months(start, end)`: the year and month parts of the two dates only;
      the day of the month plays no part, and an `end` before `start` gives a
      negative count. */
  function CalculateMonths(start: Date, end: Date): (r: int)
    ensures r == MonthIndex(end) - MonthIndex(start)
  {
    (end.year - start.year) * 12 + (end.month - start.month)
  }

  /** The day of the month never matters. */
  lemma MonthsIgnoreDay(s: Date, e: Date, d1: int, d2: int)
    ensures CalculateMonths(s.(day := d1), e.(day := d2)) == CalculateMonths(s, e)
  {
  }

  /** Zero within one calendar month, exactly antisymmetric, and additive over a
      middle date: the month count is a difference of month positions. */
  lemma MonthsAlgebra(a: Date, b: Date, c: Date)
    ensures a.year == b.year && a.month == b.month ==> CalculateMonths(a, b) == 0
    ensures CalculateMonths(a, b) == -CalculateMonths(b, a)
    ensures CalculateMonths(a, b) + CalculateMonths(b, c) == CalculateMonths(a, c)
  {
  }

  /** Counting calendar months one at a time, rolling the year over after December
      (or back before January), gives the same number as `CalculateMonths`. */
  method CountMonthSteps(start: Date, end: Date) returns (n: int)
    requires ValidMonth(start) && ValidMonth(end)
    ensures n == CalculateMonths(start, end)
  {
    var y, m := start.year, start.month;
    n := 0;
    while y != end.year || m != end.month
      invariant 1 <= m <= 12
      invariant n == (y * 12 + m) - (start.year * 12 + start.month)
      decreases if y * 12 + m <= end.year * 12 + end.month
                then end.year * 12 + end.month - (y * 12 + m)
                else (y * 12 + m) - (end.year * 12 + end.month)
    {
      if y * 12 + m < end.year * 12 + end.month {
        if m == 12 {
          y, m := y + 1, 1;
        } else {
          m := m + 1;
        }
        n := n + 1;
      } else {
        if m == 1 {
          y, m := y - 1, 12;
        } else {
          m := m - 1;
        }
        n := n - 1;
      }
    }
  }

  /** The `n`-th birthday of someone born on `dob`. */
  function Anniversary(dob: Date, n: int): Date {
    Date(dob.year + n, dob.month, dob.day)
  }

  /** The age rule: the year difference, less one while this year's
      (month, day) is still before the birth (month, day). The result is the
      number of birthdays reached: the `r`-th anniversary is on or before
      `today` and the next one is after it. */
  function Age(dob: Date, today: Date): (r: int)
    ensures NotAfter(Anniversary(dob, r), today)
    ensures Before(today, Anniversary(dob, r + 1))
    ensures NotAfter(dob, today) ==> r >= 0
  {
    var notYet := today.month < dob.month || (today.month == dob.month && today.day < dob.day);
    today.year - dob.year - (if notYet then 1 else 0)
  }

  /** The age is the only count of completed years: any `n` whose anniversary has
      been reached while the next has not is the age. */
  lemma AgeUnique(dob: Date, today: Date, n: int)
    requires NotAfter(Anniversary(dob, n), today) && Before(today, Anniversary(dob, n + 1))
    ensures n == Age(dob, today)
  {
  }

  /** On the `n`-th birthday the age is `n`; any earlier day of that year still
      gives `n - 1`. */
  lemma AgeStepsOnBirthday(dob: Date, n: int, earlier: Date)
    requires earlier.year == dob.year + n && Before(earlier, Anniversary(dob, n))
    ensures Age(dob, Anniversary(dob, n)) == n
    ensures Age(dob, earlier) == n - 1
  {
  }

  /** A later day never gives a smaller age. */
  lemma AgeMonotone(dob: Date, t1: Date, t2: Date)
    requires NotAfter(t1, t2)
    ensures Age(dob, t1) <= Age(dob, t2)
  {
  }

  /** Worked values: 2020-01-15 to 2021-03-01 is 14 months, and one day across a
      month end counts as a whole month while 30 days inside one month count as none. */
  lemma MonthExamples()
    ensures CalculateMonths(Date(2020, 1, 15), Date(2021, 3, 1)) == 14
    ensures CalculateMonths(Date(2024, 1, 31), Date(2024, 2, 1)) == 1
    ensures CalculateMonths(Date(2024, 1, 1), Date(2024, 1, 31)) == 0
  {
    assert CalculateMonths(Date(2020, 1, 15), Date(2021, 3, 1)) == 14;
    assert CalculateMonths(Date(2024, 1, 31), Date(2024, 2, 1)) == 1;
  }

  /** Worked values: a birth on 2000-06-15 gives 23 on 2024-06-14 and 24 on 2024-06-15. */
  lemma AgeExamples()
    ensures Age(Date(2000, 6, 15), Date(2024, 6, 14)) == 23
    ensures Age(Date(2000, 6, 15), Date(2024, 6, 15)) == 24
  {
  }
}
