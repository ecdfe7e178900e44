/**
 * The reporting calendar of `generate_report.py`: the stale-clock year
 * correction, the four weekly windows starting today, the day-by-day
 * enumeration of a window and the season label. Dates are ordinals (`Day`).
 */
module ReportDates {
  import opened Calendar
  import opened Text

  /**
   * The year correction applied to "today": a date in 2024 is moved to the
   * same month and day of 2025; the one date that has no such day (29 February)
   * moves 365 days on instead. Other years are left alone. `replace` works on
   * the (year, month, day) triple, so the model does too.
   */
  function TimeTravel(today: Date): (r: Date)
    requires ValidDate(today)
    ensures ValidDate(r)
  {
    if today.year != 2024 then today
    else if ValidDate(Date(2025, today.month, today.day)) then Date(2025, today.month, today.day)
    else FromOrdinal(AddDays(Ordinal(today), 365))
  }

  /** A date outside 2024 is kept. */
  lemma TimeTravelKeepsOtherYears(today: Date)
    requires ValidDate(today) && today.year != 2024
    ensures TimeTravel(today) == today
  {
  }

  /** A 2024 date other than 29 February gets the year 2025 and keeps its month and day. */
  lemma TimeTravelReplacesYear(today: Date)
    requires ValidDate(today) && today.year == 2024 && !(today.month == 2 && today.day == 29)
    ensures TimeTravel(today) == Date(2025, today.month, today.day)
  {
    ReplaceYearFailsOnlyOnLeapDay(today);
  }

  /** 29 February 2024 becomes 28 February 2025, 365 days later. */
  lemma TimeTravelLeapDay(today: Date)
    requires ValidDate(today) && today.year == 2024 && today.month == 2 && today.day == 29
    ensures TimeTravel(today) == Date(2025, 2, 28)
    ensures Ordinal(TimeTravel(today)) == AddDays(Ordinal(today), 365)
  {
    ReplaceYearFailsOnlyOnLeapDay(today);
    LeapDayPlusYear(today);
  }

  /** Replacing the year 2024 by 2025 fails only for 29 February. */
  lemma ReplaceYearFailsOnlyOnLeapDay(d: Date)
    requires ValidDate(d) && d.year == 2024
    ensures !ValidDate(Date(2025, d.month, d.day)) <==> d.month == 2 && d.day == 29
  {
  }

  /** From 29 February, 365 days on is 28 February of the next year. */
  lemma LeapDayPlusYear(d: Date)
    requires ValidDate(d) && d.month == 2 && d.day == 29
    ensures FromOrdinal(AddDays(Ordinal(d), 365)) == Date(d.year + 1, 2, 28)
  {
    LeapDayOrdinal(d);
    FromOrdinalOrdinal(Date(d.year + 1, 2, 28));
  }

  lemma LeapDayOrdinal(d: Date)
    requires ValidDate(d) && d.month == 2 && d.day == 29
    ensures ValidDate(Date(d.year + 1, 2, 28)) && Ordinal(Date(d.year + 1, 2, 28)) == Ordinal(d) + 365
  {
    YearStep(d.year);
    MonthStep(d.year, 1);
    MonthStep(d.year + 1, 1);
  }

  /** Days from `today` to the coming Sunday: `(6 - today.weekday()) % 7`. */
  function DaysUntilSunday(today: Day): (n: nat)
    ensures n <= 6
  {
    (6 - Weekday(today)) % 7
  }

  /** The last day of week 1: the coming Sunday, today included. */
  function WeekOneEnd(today: Day): (r: Day)
    ensures today <= r <= today + 6
  {
    AddDays(today, DaysUntilSunday(today))
  }

  /** The end of week 1 is a Sunday. */
  lemma WeekOneEndIsSunday(today: Day)
    ensures Weekday(WeekOneEnd(today)) == 6
  {
    var w := Weekday(today);
    assert today + 6 == 7 * ((today + 6) / 7) + w;
    assert WeekOneEnd(today) + 6 == 7 * ((today + 6) / 7) + 6;
  }

  /** Among today and the six days after it, exactly one is a Sunday: the end of week 1 is determined. */
  lemma WeekOneEndUnique(today: Day, d: Day)
    requires today <= d <= today + 6
    requires Weekday(d) == 6
    ensures d == WeekOneEnd(today)
  {
    var e := WeekOneEnd(today);
    WeekOneEndIsSunday(today);
    var qd, qe := (d + 6) / 7, (e + 6) / 7;
    assert d == 7 * qd && e == 7 * qe;
    var k := qd - qe;
    assert d - e == 7 * k;
  }

  /** The last day of the report: three whole weeks after the end of week 1. */
  function FinalEnd(today: Day): (r: Day)
    ensures today + 21 <= r <= today + 27
  {
    AddDays(WeekOneEnd(today), 21)
  }

  /** Whole weeks later, the weekday is the same. */
  lemma WeekdayAfterWeeks(d: Day, k: nat)
    ensures Weekday(AddDays(d, 7 * k)) == Weekday(d)
  {
    assert d + 7 * k + 6 == 7 * ((d + 6) / 7 + k) + Weekday(d);
  }

  /** The report ends on a Sunday. */
  lemma FinalEndIsSunday(today: Day)
    ensures Weekday(FinalEnd(today)) == 6
  {
    WeekOneEndIsSunday(today);
    WeekdayAfterWeeks(WeekOneEnd(today), 3);
  }

  /** A reporting week: first and last day, both included. */
  datatype Window = Window(start: Day, end: Day)

  /** Windows follow each other with no gap and no overlap. */
  predicate Contiguous(weeks: seq<Window>) {
    forall i :: 0 <= i < |weeks| - 1 ==> weeks[i + 1].start == AddDays(weeks[i].end, 1)
  }

  predicate NonEmptyWindows(weeks: seq<Window>) {
    forall i :: 0 <= i < |weeks| ==> weeks[i].start <= weeks[i].end
  }

  /**
   * The week loop: week 1 runs from today to the coming Sunday, and each of
   * the three next weeks starts the day after the previous one ends and spans
   * seven days. Every week ends on a Sunday, and the fourth on the report's
   * final day.
   */
  method ReportWeeks(today: Day) returns (weeks: seq<Window>)
    ensures |weeks| == 4
    ensures weeks[0] == Window(today, WeekOneEnd(today))
    ensures Contiguous(weeks) && NonEmptyWindows(weeks)
    ensures forall i :: 1 <= i < 4 ==> weeks[i].end == AddDays(weeks[i].start, 6)
    ensures forall i :: 0 <= i < 4 ==> Weekday(weeks[i].end) == 6
    ensures weeks[3].end == FinalEnd(today)
  {
    var w1End := WeekOneEnd(today);
    var currentStart := today;
    var currentEnd := w1End;
    weeks := [];
    for i := 0 to 4
      invariant |weeks| == i
      invariant i == 0 ==> currentStart == today
      invariant i > 0 ==> weeks[0] == Window(today, w1End)
      invariant i > 0 ==> currentStart == AddDays(weeks[i - 1].end, 1)
      invariant currentEnd as int == w1End as int + 7 * i
      invariant 1 <= i ==> currentEnd == AddDays(currentStart, 6)
      invariant forall j :: 0 <= j < i ==> weeks[j].end as int == w1End as int + 7 * j
      invariant Contiguous(weeks) && NonEmptyWindows(weeks)
      invariant forall j :: 1 <= j < i ==> weeks[j].end == AddDays(weeks[j].start, 6)
    {
      weeks := weeks + [Window(currentStart, currentEnd)];
      currentStart := AddDays(currentEnd, 1);
      currentEnd := AddDays(currentStart, 6);
    }
    WeekOneEndIsSunday(today);
    forall i | 0 <= i < 4
      ensures Weekday(weeks[i].end) == 6
    {
      WeekdayAfterWeeks(w1End, i);
    }
  }

  /** The days a window covers, as a set of ordinals. */
  function Covers(w: Window, d: Day): bool {
    w.start <= d <= w.end
  }

  /**
   * Contiguous non-empty windows partition the days from the first start to
   * the last end: each such day lies in exactly one window.
   */
  lemma {:induction false} WindowsPartitionDays(weeks: seq<Window>, d: Day)
    requires |weeks| >= 1 && Contiguous(weeks) && NonEmptyWindows(weeks)
    requires weeks[0].start <= d <= weeks[|weeks| - 1].end
    ensures exists i :: 0 <= i < |weeks| && Covers(weeks[i], d)
    ensures forall i, j :: 0 <= i < j < |weeks| && Covers(weeks[i], d) ==> !Covers(weeks[j], d)
  {
    var n := |weeks|;
    if d <= weeks[0].end {
      assert Covers(weeks[0], d);
    } else {
      WindowsPartitionDays(weeks[1..], d);
      var k :| 0 <= k < n - 1 && Covers(weeks[1..][k], d);
      assert Covers(weeks[k + 1], d);
    }
    EndsBeforeLaterStarts(weeks);
  }

  /** In contiguous non-empty windows, each window ends before any later one starts. */
  lemma {:induction false} EndsBeforeLaterStarts(weeks: seq<Window>)
    requires Contiguous(weeks) && NonEmptyWindows(weeks)
    ensures forall i, j :: 0 <= i < j < |weeks| ==> weeks[i].end < weeks[j].start
  {
    if |weeks| > 1 {
      EndsBeforeLaterStarts(weeks[1..]);
      forall i, j | 0 <= i < j < |weeks|
        ensures weeks[i].end < weeks[j].start
      {
        if i > 0 {
          assert weeks[i] == weeks[1..][i - 1] && weeks[j] == weeks[1..][j - 1];
        } else if j > 1 {
          assert weeks[1] == weeks[1..][0] && weeks[j] == weeks[1..][j - 1];
        }
      }
    }
  }

  /**
   * `process_week_grid`'s header loop: every date from start to end inclusive,
   * one day apart; nothing when start is after end. The loop test `curr <= end`
   * compares dates, which is comparing ordinals (`NotAfterIsOrdinalOrder`).
   */
  method EnumerateDays(start: Day, end: Day) returns (days: seq<Day>)
    ensures |days| == if start <= end then end - start + 1 else 0
    ensures forall i :: 0 <= i < |days| ==> days[i] == AddDays(start, i)
  {
    days := [];
    var curr := start;
    while curr <= end
      invariant curr == AddDays(start, |days|)
      invariant start <= end + 1 ==> curr <= end + 1
      invariant start > end ==> days == []
      invariant forall i :: 0 <= i < |days| ==> days[i] == AddDays(start, i)
      decreases end - curr
    {
      days := days + [curr];
      curr := AddDays(curr, 1);
    }
  }

  /** The dates of a window, in order, each exactly once. */
  lemma EnumeratedDaysAreTheWindow(start: Day, end: Day, days: seq<Day>)
    requires |days| == if start <= end then end - start + 1 else 0
    requires forall i :: 0 <= i < |days| ==> days[i] == AddDays(start, i)
    ensures forall d: Day :: d in days <==> start <= d <= end
    ensures forall i, j :: 0 <= i < j < |days| ==> days[i] < days[j]
  {
    forall d: Day | start <= d <= end
      ensures d in days
    {
      assert days[d - start] == d;
    }
  }

  // ----- season label -----

  /** The first calendar year of the season a (year, month) falls in: seasons start in October. */
  function SeasonStartYear(year: int, month: int): int {
    if month >= 10 then year else year - 1
  }

  /** `"{Y}-{str(Y+1)[-2:]}"` from October on, `"{Y-1}-{str(Y)[-2:]}"` before. */
  function SeasonLabel(year: int, month: int): string
    requires year >= 1
  {
    StartLabel(SeasonStartYear(year, month))
  }

  /** The label of the season whose first year is s. */
  function StartLabel(s: nat): string {
    DecimalString(s) + "-" + LastTwo(DecimalString(s + 1))
  }

  /**
   * For years from 10 on: from October the label is Y and (Y + 1) % 100 in two
   * digits, before October it is Y - 1 and Y % 100 in two digits.
   */
  lemma SeasonLabelFormat(year: int, month: int)
    requires year >= 10
    ensures month >= 10 ==> SeasonLabel(year, month) == DecimalString(year) + "-" + Pad2((year + 1) % 100)
    ensures month < 10 ==> SeasonLabel(year, month) == DecimalString(year - 1) + "-" + Pad2(year % 100)
  {
    StartLabelFormat(SeasonStartYear(year, month));
  }

  lemma StartLabelFormat(s: nat)
    requires s >= 9
    ensures StartLabel(s) == DecimalString(s) + "-" + Pad2((s + 1) % 100)
  {
    LastTwoDigits(s + 1);
  }

  /** November 2025 is in season "2025-26". */
  lemma SeasonLabelAutumnExample()
    ensures SeasonLabel(2025, 11) == "2025-26"
  {
    assert DecimalString(2025) == "2025";
    assert DecimalString(2026) == "2026";
  }

  /** March 2025 is in season "2024-25". */
  lemma SeasonLabelSpringExample()
    ensures SeasonLabel(2025, 3) == "2024-25"
  {
    assert DecimalString(2024) == "2024";
    assert DecimalString(2025) == "2025";
  }
}
