/**
 * `formatRelativeTime`: the label the conversation list shows for a date, as
 * a total function of the number of calendar days between the date and now.
 * The local midnights of both days (`new Date(y, m, d).getTime()`) are
 * inputs; reading the clock and the local time zone is left to the caller.
 */
module DateUtils {
  import opened Wrappers
  import opened Text

  const MsPerDay := 1000 * 60 * 60 * 24

  /** The labels, with the number they print */
  datatype Label = Today | Yesterday | DaysAgo(n: nat) | WeeksAgo(n: nat) | MonthsAgo(n: nat) | YearsAgo(n: nat)

  /** The cascade of comparisons on the day difference `d`; each label covers the range of
      differences stated here */
  function Classify(d: int): (l: Label)
    ensures l.Today? <==> d <= 0
    ensures l.Yesterday? <==> d == 1
    ensures l.DaysAgo? ==> 2 <= l.n <= 6 && l.n == d
    ensures l.WeeksAgo? ==> 1 <= l.n <= 4 && 7 * l.n <= d < 7 * l.n + 7 && d < 30
    ensures l.MonthsAgo? ==> 1 <= l.n <= 12 && 30 * l.n <= d < 30 * l.n + 30 && d < 365
    ensures l.YearsAgo? ==> 1 <= l.n && 365 * l.n <= d < 365 * l.n + 365
  {
    if d < 0 then Today
    else if d == 0 then Today
    else if d == 1 then Yesterday
    else if d < 7 then DaysAgo(d)
    else if d < 30 then WeeksAgo(d / 7)
    else if d < 365 then MonthsAgo(d / 30)
    else YearsAgo(d / 365)
  }

  function Render(l: Label): string {
    match l
    case Today => "Today"
    case Yesterday => "Yesterday"
    case DaysAgo(n) => NatToString(n) + "d" + " ago"
    case WeeksAgo(n) => NatToString(n) + "w" + " ago"
    case MonthsAgo(n) => NatToString(n) + "mo ago"
    case YearsAgo(n) => NatToString(n) + "y" + " ago"
  }

  /** `formatRelativeTime` for a difference of `d` calendar days */
  function FormatRelativeTime(d: int): string {
    Render(Classify(d))
  }

  /** Reads a label back: a number of digits followed by a unit, or one of the two words */
  function ParseLabel(s: string): Option<Label> {
    if s == "Today" then Some(Today)
    else if s == "Yesterday" then Some(Yesterday)
    else if |s| >= 6 && s[|s| - 6..] == "mo ago" && s[..|s| - 6] != [] && IsDigits(s[..|s| - 6]) then
      Some(MonthsAgo(DigitsValue(s[..|s| - 6])))
    else if |s| >= 5 && s[|s| - 4..] == " ago" && s[..|s| - 5] != [] && IsDigits(s[..|s| - 5]) then
      var n := DigitsValue(s[..|s| - 5]);
      var unit := s[|s| - 5];
      if unit == 'd' then Some(DaysAgo(n))
      else if unit == 'w' then Some(WeeksAgo(n))
      else if unit == 'y' then Some(YearsAgo(n))
      else None
    else None
  }

  /** A number never reads as one of the two words */
  lemma NumberIsNoWord(d: string, suffix: string)
    requires d != [] && IsDigits(d)
    ensures d + suffix != "Today" && d + suffix != "Yesterday"
  {
    assert (d + suffix)[0] == d[0];
  }

  /** `<n>mo ago` reads back as `n` months */
  lemma ParseMonths(n: nat)
    ensures ParseLabel(NatToString(n) + "mo ago") == Some(MonthsAgo(n))
  {
    var d := NatToString(n);
    var s := d + "mo ago";
    NatToStringRoundTrip(n);
    NumberIsNoWord(d, "mo ago");
    assert s[|s| - 6..] == "mo ago" && s[..|s| - 6] == d;
  }

  /** `<n>d ago`, `<n>w ago` and `<n>y ago` read back as `n` of that unit */
  lemma ParseShortUnit(n: nat, unit: char)
    requires unit == 'd' || unit == 'w' || unit == 'y'
    ensures ParseLabel(NatToString(n) + [unit] + " ago")
         == Some(if unit == 'd' then DaysAgo(n) else if unit == 'w' then WeeksAgo(n) else YearsAgo(n))
  {
    var d := NatToString(n);
    var s := d + [unit] + " ago";
    NatToStringRoundTrip(n);
    NumberIsNoWord(d, [unit] + " ago");
    assert s == d + ([unit] + " ago");
    assert s[|s| - 5] == unit;
    assert s[|s| - 6..] != "mo ago" by {
      assert |s| >= 6 ==> s[|s| - 6..][1] == unit;
    }
    assert s[|s| - 4..] == " ago" && s[..|s| - 5] == d;
  }

  /** Every label reads back as itself, so different labels never print alike */
  lemma RenderRoundTrip(l: Label)
    ensures ParseLabel(Render(l)) == Some(l)
  {
    match l
    case Today =>
    case Yesterday =>
    case DaysAgo(n) => ParseShortUnit(n, 'd');
    case WeeksAgo(n) => ParseShortUnit(n, 'w');
    case MonthsAgo(n) => ParseMonths(n);
    case YearsAgo(n) => ParseShortUnit(n, 'y');
  }

  /** The fewest days a label can stand for */
  function Age(l: Label): nat {
    match l
    case Today => 0
    case Yesterday => 1
    case DaysAgo(n) => n
    case WeeksAgo(n) => 7 * n
    case MonthsAgo(n) => 30 * n
    case YearsAgo(n) => 365 * n
  }

  /** An older date never gets a label that stands for a more recent one */
  lemma ClassifyMonotone(d1: int, d2: int)
    requires d1 <= d2
    ensures Age(Classify(d1)) <= Age(Classify(d2))
  {
    var l1, l2 := Classify(d1), Classify(d2);
    assert Age(l1) <= (if d1 < 0 then 0 else d1);
    if l1.WeeksAgo? && l2.WeeksAgo? {
      assert l1.n <= l2.n;
    } else if l1.MonthsAgo? && l2.MonthsAgo? {
      assert l1.n <= l2.n;
    } else if l1.YearsAgo? && l2.YearsAgo? {
      assert l1.n <= l2.n;
    }
  }

  // ---------------------------------------------------------------------
  // The day difference from two local midnights
  // ---------------------------------------------------------------------

  /** `Math.floor((today - compareDate) / 86400000)` on the two local midnights, as written */
  function DiffInDaysAsWritten(todayMidnight: int, dateMidnight: int): int {
    (todayMidnight - dateMidnight) / MsPerDay
  }

  /** The label as the source computes it from the two local midnights */
  function FormatRelativeTimeAsWritten(todayMidnight: int, dateMidnight: int): string {
    FormatRelativeTime(DiffInDaysAsWritten(todayMidnight, dateMidnight))
  }

  /** Between the local midnights of two consecutive days across the spring-forward change of
      a daylight-saving time zone lie only 23 hours: the day before is labelled "Today" */
  lemma SpringForwardShowsToday(dateMidnight: int)
    ensures FormatRelativeTimeAsWritten(dateMidnight + 23 * 60 * 60 * 1000, dateMidnight) == "Today"
    ensures FormatRelativeTime(1) == "Yesterday"
  {
    assert DiffInDaysAsWritten(dateMidnight + 23 * 60 * 60 * 1000, dateMidnight) == 0;
  }

  /** The number of calendar days between two local midnights: the gap rounded to whole days,
      which absorbs a daylight-saving shift of less than half a day */
  function DiffInDays(todayMidnight: int, dateMidnight: int): int {
    (todayMidnight - dateMidnight + MsPerDay / 2) / MsPerDay
  }

  /** The rounded difference gives back the number of calendar days `c` whatever
      daylight-saving shift of under half a day lies between the two midnights */
  lemma DiffInDaysIsCalendarDays(dateMidnight: int, c: int, shift: int)
    requires -MsPerDay / 2 <= shift < MsPerDay / 2
    ensures DiffInDays(dateMidnight + c * MsPerDay + shift, dateMidnight) == c
  {
    var x := c * MsPerDay + shift + MsPerDay / 2;
    assert 0 <= x - c * MsPerDay < MsPerDay;
  }

  /** `formatRelativeTime` from the two local midnights, with the calendar-day difference */
  function FormatRelativeTimeAt(todayMidnight: int, dateMidnight: int): string {
    FormatRelativeTime(DiffInDays(todayMidnight, dateMidnight))
  }

  /** Across the spring-forward change the day before is "Yesterday" */
  lemma SpringForwardShowsYesterday(dateMidnight: int)
    ensures FormatRelativeTimeAt(dateMidnight + 23 * 60 * 60 * 1000, dateMidnight) == "Yesterday"
  {
    DiffInDaysIsCalendarDays(dateMidnight, 1, -60 * 60 * 1000);
  }

  /** With whole days between the two midnights, no daylight-saving change in between, the
      source and this model agree */
  lemma AgreesWithoutDaylightSaving(dateMidnight: int, c: int)
    ensures FormatRelativeTimeAsWritten(dateMidnight + c * MsPerDay, dateMidnight)
         == FormatRelativeTimeAt(dateMidnight + c * MsPerDay, dateMidnight)
         == FormatRelativeTime(c)
  {
    DiffInDaysIsCalendarDays(dateMidnight, c, 0);
    assert DiffInDaysAsWritten(dateMidnight + c * MsPerDay, dateMidnight) == c;
  }
}
