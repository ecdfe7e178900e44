/**
 * Proleptic Gregorian calendar dates, as Python's `datetime.date` sees them.
 * A date is written as a (year, month, day) triple; its ordinal counts days
 * from 0001-01-01 (ordinal 1). `date + timedelta(days=n)` is computed on the
 * ordinal, so the model represents a date by its ordinal (`Day`) and converts
 * with `Ordinal` / `FromOrdinal`, which are proved inverse to each other.
 */
module Calendar {

  datatype Date = Date(year: int, month: int, day: int)

  predicate IsLeapYear(y: int) {
    y % 4 == 0 && (y % 100 != 0 || y % 400 == 0)
  }

  function DaysInMonth(y: int, m: int): (n: int)
    requires 1 <= m <= 12
    ensures 28 <= n <= 31
    ensures n == 29 <==> m == 2 && IsLeapYear(y)
  {
    if m == 2 then (if IsLeapYear(y) then 29 else 28)
    else if m == 4 || m == 6 || m == 9 || m == 11 then 30
    else 31
  }

  /** A (year, month, day) triple that names a real date (years from 1 on; no upper year bound). */
  predicate ValidDate(d: Date) {
    1 <= d.year && 1 <= d.month <= 12 && 1 <= d.day <= DaysInMonth(d.year, d.month)
  }

  /** A date, as its ordinal: 0001-01-01 is 1. */
  type Day = o: int | 1 <= o witness 1

  function DaysInYear(y: int): int {
    if IsLeapYear(y) then 366 else 365
  }

  /** Days in the years 1 .. y-1. */
  function DaysBeforeYear(y: int): (n: int)
    requires 1 <= y
    ensures 0 <= n
  {
    if y == 1 then 0 else DaysBeforeYear(y - 1) + DaysInYear(y - 1)
  }

  /** The closed form Python's `datetime` module uses for the same count. */
  lemma {:induction false} DaysBeforeYearClosedForm(y: int)
    requires 1 <= y
    ensures DaysBeforeYear(y) == 365 * (y - 1) + (y - 1) / 4 - (y - 1) / 100 + (y - 1) / 400
  {
    if y > 1 {
      var p := y - 1;
      DaysBeforeYearClosedForm(p);
      LeapCount(p);
      assert DaysBeforeYear(y) == DaysBeforeYear(p) + DaysInYear(p);
    }
  }

  lemma YearStep(y: int)
    requires 1 <= y
    ensures DaysBeforeYear(y + 1) == DaysBeforeYear(y) + DaysInYear(y)
  {
  }

  /** Year p is a leap year exactly when the count of leap years up to p steps up at p. */
  lemma LeapCount(p: int)
    ensures DaysInYear(p) - 365 == (p / 4 - (p - 1) / 4) - (p / 100 - (p - 1) / 100) + (p / 400 - (p - 1) / 400)
  {
    QuotientStep4(p);
    QuotientStep100(p);
    QuotientStep400(p);
  }

  lemma QuotientStep4(p: int)
    ensures p / 4 - (p - 1) / 4 == if p % 4 == 0 then 1 else 0
  {
  }

  lemma QuotientStep100(p: int)
    ensures p / 100 - (p - 1) / 100 == if p % 100 == 0 then 1 else 0
  {
  }

  lemma QuotientStep400(p: int)
    ensures p / 400 - (p - 1) / 400 == if p % 400 == 0 then 1 else 0
  {
  }

  /** Days in the months 1 .. m-1 of year y. */
  function DaysBeforeMonth(y: int, m: int): (n: int)
    requires 1 <= m <= 13
    ensures 28 * (m - 1) <= n <= 31 * (m - 1)
  {
    if m == 1 then 0 else DaysBeforeMonth(y, m - 1) + DaysInMonth(y, m - 1)
  }

  lemma MonthStep(y: int, m: int)
    requires 1 <= m <= 12
    ensures DaysBeforeMonth(y, m + 1) == DaysBeforeMonth(y, m) + DaysInMonth(y, m)
  {
  }

  /** The whole year's months add up to the year's length. */
  lemma {:induction false} MonthsMakeYear(y: int)
    ensures DaysBeforeMonth(y, 13) == DaysInYear(y)
  {
    MonthStep(y, 1); MonthStep(y, 2); MonthStep(y, 3); MonthStep(y, 4);
    MonthStep(y, 5); MonthStep(y, 6); MonthStep(y, 7); MonthStep(y, 8);
    MonthStep(y, 9); MonthStep(y, 10); MonthStep(y, 11); MonthStep(y, 12);
  }

  /** `date.toordinal()`. */
  function Ordinal(d: Date): (o: Day)
    requires ValidDate(d)
  {
    DaysBeforeYear(d.year) + DaysBeforeMonth(d.year, d.month) + d.day
  }

  /** The ordinal of a date lies within its year, and past the months before its own. */
  lemma OrdinalWithinYear(d: Date)
    requires ValidDate(d)
    ensures DaysBeforeYear(d.year) < Ordinal(d) <= DaysBeforeYear(d.year + 1)
  {
    MonthsGrow(d.year, d.month, 13);
    MonthsMakeYear(d.year);
    YearStep(d.year);
  }

  lemma {:induction false} DaysBeforeYearGrows(y1: int, y2: int)
    requires 1 <= y1 <= y2
    ensures DaysBeforeYear(y2) >= DaysBeforeYear(y1) + 365 * (y2 - y1)
    decreases y2 - y1
  {
    if y1 < y2 {
      DaysBeforeYearGrows(y1, y2 - 1);
      YearStep(y2 - 1);
    }
  }

  lemma {:induction false} MonthsGrow(y: int, m1: int, m2: int)
    requires 1 <= m1 < m2 <= 13
    ensures DaysBeforeMonth(y, m1) + DaysInMonth(y, m1) <= DaysBeforeMonth(y, m2)
    decreases m2
  {
    if m2 > m1 + 1 {
      MonthsGrow(y, m1, m2 - 1);
    }
  }

  /** Distinct dates have distinct ordinals: the ordinal identifies the date. */
  lemma OrdinalInjective(a: Date, b: Date)
    requires ValidDate(a) && ValidDate(b)
    requires Ordinal(a) == Ordinal(b)
    ensures a == b
  {
    OrdinalWithinYear(a);
    OrdinalWithinYear(b);
    if a.year < b.year {
      DaysBeforeYearGrows(a.year + 1, b.year);
    } else if b.year < a.year {
      DaysBeforeYearGrows(b.year + 1, a.year);
    }
    assert a.year == b.year;
    if a.month < b.month {
      MonthsGrow(a.year, a.month, b.month);
    } else if b.month < a.month {
      MonthsGrow(a.year, b.month, a.month);
    }
  }

  /**
   * `date.fromordinal(o)`: the date whose ordinal is o. The year is the one
   * whose days contain o, the month the one whose days contain the rest.
   */
  function FromOrdinal(o: Day): (r: Date)
    ensures ValidDate(r) && Ordinal(r) == o
  {
    var y := YearOfOrdinal(o, 1);
    var k := o - DaysBeforeYear(y);
    MonthsMakeYear(y);
    var m := MonthOfDayInYear(y, k, 1);
    MonthStep(y, m);
    Date(y, m, k - DaysBeforeMonth(y, m))
  }

  /** The year, from y on, whose days contain ordinal o. */
  function YearOfOrdinal(o: int, y: int): (r: int)
    requires 1 <= y && DaysBeforeYear(y) < o
    ensures y <= r && DaysBeforeYear(r) < o <= DaysBeforeYear(r + 1)
    decreases o - DaysBeforeYear(y)
  {
    YearStep(y);
    if o <= DaysBeforeYear(y + 1) then y else YearOfOrdinal(o, y + 1)
  }

  /** The month, from m on, whose days contain day k of year y. */
  function MonthOfDayInYear(y: int, k: int, m: int): (r: int)
    requires 1 <= m <= 12 && DaysBeforeMonth(y, m) < k <= DaysBeforeMonth(y, 13)
    ensures m <= r <= 12 && DaysBeforeMonth(y, r) < k <= DaysBeforeMonth(y, r + 1)
    decreases 12 - m
  {
    if m == 12 || k <= DaysBeforeMonth(y, m + 1) then m else MonthOfDayInYear(y, k, m + 1)
  }

  /** Converting a date to its ordinal and back gives the date. */
  lemma FromOrdinalOrdinal(d: Date)
    requires ValidDate(d)
    ensures FromOrdinal(Ordinal(d)) == d
  {
    OrdinalInjective(FromOrdinal(Ordinal(d)), d);
  }

  /** `date.weekday()`: Monday is 0 and Sunday is 6. */
  function Weekday(d: Day): (w: int)
    ensures 0 <= w <= 6
  {
    (d + 6) % 7
  }

  /** `d + timedelta(days=n)`: the date n days after d. */
  function AddDays(d: Day, n: nat): Day {
    d + n
  }

  /** The day after a date, stepped on the (year, month, day) triple. */
  function NextDate(d: Date): (r: Date)
    requires ValidDate(d)
    ensures ValidDate(r)
  {
    if d.day < DaysInMonth(d.year, d.month) then
      Date(d.year, d.month, d.day + 1)
    else if d.month < 12 then
      Date(d.year, d.month + 1, 1)
    else
      Date(d.year + 1, 1, 1)
  }

  /** Stepping the triple to the next day moves the ordinal on by one. */
  lemma NextDateOrdinal(d: Date)
    requires ValidDate(d)
    ensures Ordinal(NextDate(d)) == Ordinal(d) + 1
  {
    if d.day == DaysInMonth(d.year, d.month) {
      if d.month < 12 {
        MonthStep(d.year, d.month);
      } else {
        MonthStep(d.year, 12);
        MonthsMakeYear(d.year);
        YearStep(d.year);
      }
    }
  }

  /** Adding one day to a date's ordinal gives the next (year, month, day) triple. */
  lemma NextDateIsAddOne(d: Date)
    requires ValidDate(d)
    ensures FromOrdinal(AddDays(Ordinal(d), 1)) == NextDate(d)
  {
    NextDateOrdinal(d);
    FromOrdinalOrdinal(NextDate(d));
  }

  /** Python's `a <= b` on dates: (year, month, day) compared lexicographically. */
  predicate NotAfter(a: Date, b: Date) {
    a.year < b.year
    || (a.year == b.year && (a.month < b.month || (a.month == b.month && a.day <= b.day)))
  }

  /** Comparing dates is comparing their ordinals. */
  lemma NotAfterIsOrdinalOrder(a: Date, b: Date)
    requires ValidDate(a) && ValidDate(b)
    ensures NotAfter(a, b) <==> Ordinal(a) <= Ordinal(b)
  {
    OrdinalWithinYear(a);
    OrdinalWithinYear(b);
    if a.year < b.year {
      DaysBeforeYearGrows(a.year + 1, b.year);
    } else if b.year < a.year {
      DaysBeforeYearGrows(b.year + 1, a.year);
    } else if a.month < b.month {
      MonthsGrow(a.year, a.month, b.month);
    } else if b.month < a.month {
      MonthsGrow(a.year, b.month, a.month);
    }
  }
}
