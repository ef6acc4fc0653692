/** Civil dates on the proleptic Gregorian calendar, day and month bounds in
    a time zone, and the en-US date and time texts the components show.
    A time zone is a fixed offset `tz`, in milliseconds east of UTC (no
    daylight saving). */
module Calendar {
  import opened Common
  import opened Text

  const MsPerMinute := 60000
  const MsPerHour := 3600000
  const MsPerDay := 86400000

  /** The local calendar day of the instant `t`, counted from 1970-01-01. */
  function LocalDay(t: Time, tz: int): int {
    (t + tz) / MsPerDay
  }

  /** date-fns `startOfDay`: local midnight at or before `t`. */
  function StartOfDay(t: Time, tz: int): (s: Time)
    ensures s <= t < s + MsPerDay
    ensures LocalDay(s, tz) == LocalDay(t, tz)
  {
    (t + tz) / MsPerDay * MsPerDay - tz
  }

  /** date-fns `endOfDay`: the last millisecond of the local day of `t`. */
  function EndOfDay(t: Time, tz: int): Time {
    StartOfDay(t, tz) + MsPerDay - 1
  }

  /** The window [startOfDay(t), endOfDay(t)] holds exactly the instants of
      the same local day as `t`. */
  lemma DayWindow(t: Time, u: Time, tz: int)
    ensures StartOfDay(t, tz) <= u <= EndOfDay(t, tz) <==> LocalDay(u, tz) == LocalDay(t, tz)
  {
    var s := StartOfDay(t, tz);
    assert s + tz == LocalDay(t, tz) * MsPerDay;
  }

  predicate IsLeapYear(y: int) {
    y % 4 == 0 && (y % 100 != 0 || y % 400 == 0)
  }

  /** The number of days of month `m` (1 to 12) of year `y`. */
  function DaysInMonth(y: int, m: int): (n: int)
    requires 1 <= m <= 12
    ensures 28 <= n <= 31
    ensures n == 29 <==> m == 2 && IsLeapYear(y)
  {
    if m == 2 then (if IsLeapYear(y) then 29 else 28)
    else if m == 4 || m == 6 || m == 9 || m == 11 then 30
    else 31
  }

  /** Days from 1970-01-01 to the civil date y-m-d; `d` may run past the end
      of the month, as the JavaScript Date constructor allows. */
  function DaysFromCivil(y: int, m: int, d: int): int
    requires 1 <= m <= 12
  {
    var y' := if m <= 2 then y - 1 else y;
    var era := y' / 400;
    var yoe := y' - era * 400;
    var mp := if m > 2 then m - 3 else m + 9;
    var doy := (153 * mp + 2) / 5 + d - 1;
    var doe := yoe * 365 + yoe / 4 - yoe / 100 + doy;
    era * 146097 + doe - 719468
  }

  /** Days before the first of March of year y + 1, counted like DaysFromCivil. */
  function MarchYearStart(y: int): int {
    var era := y / 400;
    var yoe := y - era * 400;
    era * 146097 + yoe * 365 + yoe / 4 - yoe / 100
  }

  lemma DivStep4(a: int)
    ensures (a + 1) / 4 - a / 4 == if (a + 1) % 4 == 0 then 1 else 0
  {
  }

  lemma DivStep100(a: int)
    ensures (a + 1) / 100 - a / 100 == if (a + 1) % 100 == 0 then 1 else 0
  {
  }

  lemma Mod4(k: int, b: int)
    ensures (4 * k + b) % 4 == b % 4
  {
    var q, r := b / 4, b % 4;
    assert b == 4 * q + r && 0 <= r < 4;
    assert 4 * k + b == 4 * (k + q) + r;
  }

  lemma Mod100(k: int, b: int)
    ensures (100 * k + b) % 100 == b % 100
  {
    var q, r := b / 100, b % 100;
    assert b == 100 * q + r && 0 <= r < 100;
    assert 100 * k + b == 100 * (k + q) + r;
  }

  lemma Div400(era: int, b: int)
    requires 0 <= b < 400
    ensures (era * 400 + b) / 400 == era && (era * 400 + b) % 400 == b
  {
  }

  /** MarchYearStart of a year given as its 400-year era and its year of era. */
  lemma {:induction false} MarchYearStartSplit(era: int, b: int)
    requires 0 <= b < 400
    ensures MarchYearStart(era * 400 + b) == era * 146097 + b * 365 + b / 4 - b / 100
  {
    Div400(era, b);
  }

  /** Leap years repeat every 400 years. */
  lemma {:induction false} LeapOfSplit(era: int, b: int)
    requires 0 <= b < 400
    ensures IsLeapYear(era * 400 + b) == (b % 4 == 0 && (b % 100 != 0 || b == 0))
  {
    Mod4(era * 100, b);
    Mod100(era * 4, b);
    Div400(era, b);
    assert era * 400 + b == 4 * (era * 100) + b == 100 * (era * 4) + b;
  }

  /** A hundredth year is also a fourth one. */
  lemma HundredIsFour(b: int)
    requires b % 100 == 0
    ensures b % 4 == 0
  {
    var q := b / 100;
    assert b == 4 * (25 * q);
    Mod4(25 * q, 0);
  }

  /** MarchYearLength for a year that is not the last of its era. */
  lemma {:induction false} MarchYearLengthInEra(era: int, b: int)
    requires 0 <= b < 399
    ensures MarchYearStart(era * 400 + (b + 1)) - MarchYearStart(era * 400 + b) ==
            if IsLeapYear(era * 400 + (b + 1)) then 366 else 365
  {
    MarchYearStartSplit(era, b);
    MarchYearStartSplit(era, b + 1);
    LeapOfSplit(era, b + 1);
    DivStep4(b);
    DivStep100(b);
    if (b + 1) % 100 == 0 {
      HundredIsFour(b + 1);
    }
  }

  /** MarchYearLength for the last year of an era. */
  lemma {:induction false} MarchYearLengthEraEnd(era: int)
    ensures MarchYearStart((era + 1) * 400 + 0) - MarchYearStart(era * 400 + 399) ==
            if IsLeapYear((era + 1) * 400 + 0) then 366 else 365
  {
    MarchYearStartSplit(era, 399);
    MarchYearStartSplit(era + 1, 0);
    LeapOfSplit(era + 1, 0);
  }

  /** A year counted from March has 366 days when the February it ends with
      is a leap February, and 365 otherwise. */
  lemma {:induction false} MarchYearLength(y: int)
    ensures MarchYearStart(y + 1) - MarchYearStart(y) == if IsLeapYear(y + 1) then 366 else 365
  {
    var era := y / 400;
    var yoe := y - era * 400;
    assert y == era * 400 + yoe && 0 <= yoe < 400;
    if yoe == 399 {
      assert y + 1 == (era + 1) * 400 + 0;
      MarchYearLengthEraEnd(era);
    } else {
      assert y + 1 == era * 400 + (yoe + 1);
      MarchYearLengthInEra(era, yoe);
    }
  }

  /** The first of the next month comes DaysInMonth days after the first of
      this one: the month table agrees with the day count. */
  lemma {:induction false} MonthLength(y: int, m: int)
    requires 1 <= m <= 12
    ensures (if m == 12 then DaysFromCivil(y + 1, 1, 1) else DaysFromCivil(y, m + 1, 1))
            - DaysFromCivil(y, m, 1) == DaysInMonth(y, m)
  {
    DaysFromMarch(y, m, 1);
    if m == 12 {
      DaysFromMarch(y + 1, 1, 1);
    } else {
      DaysFromMarch(y, m + 1, 1);
      if m == 2 {
        MarchYearLength(y - 1);
      }
    }
  }

  /** DaysFromCivil counts whole March-based years, then the months since March. */
  lemma DaysFromMarch(y: int, m: int, d: int)
    requires 1 <= m <= 12
    ensures DaysFromCivil(y, m, d)
            == MarchYearStart(if m <= 2 then y - 1 else y)
               + (153 * (if m > 2 then m - 3 else m + 9) + 2) / 5 + d - 1 - 719468
  {
  }

  /** `new Date(year, monthIndex)` lets the month index run outside 0..11;
      this is the year and month (1 to 12) it lands on. */
  function NormalizeMonth(year: int, monthIndex: int): (r: (int, int))
    ensures 1 <= r.1 <= 12
  {
    (year + monthIndex / 12, monthIndex % 12 + 1)
  }

  /** date-fns `startOfMonth(new Date(year, month - 1))`. */
  function StartOfMonth(year: int, month: int, tz: int): Time {
    var (y, m) := NormalizeMonth(year, month - 1);
    DaysFromCivil(y, m, 1) * MsPerDay - tz
  }

  /** date-fns `endOfMonth(new Date(year, month - 1))`. */
  function EndOfMonth(year: int, month: int, tz: int): Time {
    var (y, m) := NormalizeMonth(year, month - 1);
    (DaysFromCivil(y, m, 1) + DaysInMonth(y, m)) * MsPerDay - 1 - tz
  }

  /** `getDay()` of a day count: 0 is Sunday, 6 is Saturday. */
  function Weekday(day: int): (w: int)
    ensures 0 <= w < 7
  {
    (day + 4) % 7
  }

  /** The civil date (year, month, day) of a day count. */
  function CivilFromDays(z: int): (int, int, int) {
    var z' := z + 719468;
    var era := z' / 146097;
    var doe := z' - era * 146097;
    var yoe := (doe - doe / 1460 + doe / 36524 - doe / 146096) / 365;
    var y := yoe + era * 400;
    var doy := doe - (365 * yoe + yoe / 4 - yoe / 100);
    var mp := (5 * doy + 2) / 153;
    var d := doy - (153 * mp + 2) / 5 + 1;
    var m := if mp < 10 then mp + 3 else mp - 9;
    (if m <= 2 then y + 1 else y, m, d)
  }

  function MonthAbbrev(m: int): string {
    match m
    case 1 => "Jan" case 2 => "Feb" case 3 => "Mar" case 4 => "Apr"
    case 5 => "May" case 6 => "Jun" case 7 => "Jul" case 8 => "Aug"
    case 9 => "Sep" case 10 => "Oct" case 11 => "Nov" case 12 => "Dec"
    case _ => ""
  }

  /** `toLocaleTimeString('en-US', { hour: '2-digit', minute: '2-digit' })`:
      "hh:mm AM" on the 12-hour clock. */
  function TimeText(t: Time, tz: int): (s: string)
    ensures |s| == 8 && ',' !in s && '\n' !in s && '"' !in s
  {
    var ms := (t + tz) % MsPerDay;
    var h := ms / MsPerHour;
    var mi := ms % MsPerHour / MsPerMinute;
    var h12 := if h % 12 == 0 then 12 else h % 12;
    TwoDigits(h12) + ":" + TwoDigits(mi) + " " + (if h < 12 then "AM" else "PM")
  }

  /** `formatTime` of the clock panel and of the logs: "--:--" for a
      missing time. */
  function FormatTime(t: Option<Time>, tz: int): (s: string)
    ensures t.None? <==> s == "--:--"
    ensures |s| >= 5 && ',' !in s && '\n' !in s && '"' !in s
  {
    if t.None? then "--:--" else TimeText(t.value, tz)
  }

  /** Reads an "hh:mm AM" text back as the hour of the day (0 to 23) and
      the minute. */
  function ReadClock(s: string): Option<(int, int)> {
    if |s| != 8 || s[2] != ':' || s[5] != ' ' || (s[6..] != "AM" && s[6..] != "PM") then None
    else if !IsDigit(s[0]) || !IsDigit(s[1]) || !IsDigit(s[3]) || !IsDigit(s[4]) then None
    else
      var h12 := ParseDigits(s[..2]);
      var mi := ParseDigits(s[3..5]);
      if h12 < 1 || 12 < h12 || 59 < mi then None
      else Some((h12 % 12 + (if s[6..] == "PM" then 12 else 0), mi))
  }

  lemma ClockFieldsReadBack(h: int, mi: int)
    requires 0 <= h < 24 && 0 <= mi < 60
    ensures var h12 := if h % 12 == 0 then 12 else h % 12;
            ReadClock(TwoDigits(h12) + ":" + TwoDigits(mi) + " " + (if h < 12 then "AM" else "PM")) == Some((h, mi))
  {
    var h12 := if h % 12 == 0 then 12 else h % 12;
    var s := TwoDigits(h12) + ":" + TwoDigits(mi) + " " + (if h < 12 then "AM" else "PM");
    assert s[..2] == TwoDigits(h12);
    assert s[3..5] == TwoDigits(mi);
    assert s[6..] == (if h < 12 then "AM" else "PM");
    TwoDigitsRoundTrip(h12);
    TwoDigitsRoundTrip(mi);
  }

  /** The text shows the local time of day, cut to the minute: it reads back
      as the hour and minute whose minute holds the instant. */
  lemma {:induction false} TimeTextReadsBack(t: Time, tz: int)
    ensures var r := ReadClock(TimeText(t, tz));
            r.Some? && 0 <= r.value.0 < 24 && 0 <= r.value.1 < 60 &&
            r.value.0 * MsPerHour + r.value.1 * MsPerMinute <= (t + tz) % MsPerDay <
              r.value.0 * MsPerHour + (r.value.1 + 1) * MsPerMinute
  {
    var ms := (t + tz) % MsPerDay;
    var h := ms / MsPerHour;
    var mi := ms % MsPerHour / MsPerMinute;
    assert ms == h * MsPerHour + ms % MsPerHour;
    assert ms % MsPerHour == mi * MsPerMinute + ms % MsPerHour % MsPerMinute;
    ClockFieldsReadBack(h, mi);
  }

  /** A shown time reads back as its clock time; the placeholder of a
      missing time reads as no time. */
  lemma FormatTimeReadsBack(t: Option<Time>, tz: int)
    ensures t.None? ==> ReadClock(FormatTime(t, tz)).None?
    ensures t.Some? ==>
              var r := ReadClock(FormatTime(t, tz));
              r.Some? && 0 <= r.value.0 < 24 && 0 <= r.value.1 < 60 &&
              r.value.0 * MsPerHour + r.value.1 * MsPerMinute <= (t.value + tz) % MsPerDay <
                r.value.0 * MsPerHour + (r.value.1 + 1) * MsPerMinute
  {
    if t.Some? {
      TimeTextReadsBack(t.value, tz);
    }
  }

  /** `toLocaleDateString('en-US', { month: 'short', day: 'numeric',
      year: 'numeric' })`: "Jan 5, 2025". */
  function ShortDateText(t: Time, tz: int): string {
    var (y, m, d) := CivilFromDays(LocalDay(t, tz));
    MonthAbbrev(m) + " " + IntText(d) + ", " + IntText(y)
  }
}
