/** The printable Daily Time Record (Civil Service Form No. 48): one row
    per day of the chosen month, showing the day's morning and afternoon
    times and its undertime, the month's total hours and the student's
    name. */
module DtrGrid {
  import opened Common
  import opened Text
  import opened Calendar
  import opened AttendanceModel
  import opened StudentModel
  import opened CourseModel
  import opened DtrProcessApi

  // ---------------------------------------------------------------------
  // Which record a row shows

  /** The UTC calendar day of an instant, as `toISOString().split('T')[0]`
      names it. */
  function UtcDay(t: Time): int {
    t / MsPerDay
  }

  /** The key the grid builds for row `day`: the UTC day of local midnight
      of that date. */
  function AsWrittenRowKey(year: int, month: int, day: int, tz: int): int
    requires 1 <= month <= 12
  {
    UtcDay(DaysFromCivil(year, month, day) * MsPerDay - tz)
  }

  function OnUtcDay(key: int): Attendance -> bool {
    (a: Attendance) => UtcDay(a.date) == key
  }

  /** `getAttendanceForDay` as written: the first record whose UTC day
      equals the row's key. */
  function AsWrittenRecordForDay(records: seq<Attendance>, year: int, month: int, day: int, tz: int)
    : Option<Attendance>
    requires 1 <= month <= 12
  {
    FirstOf(records, OnUtcDay(AsWrittenRowKey(year, month, day, tz)))
  }

  function OnLocalDay(day: int, tz: int): Attendance -> bool {
    (a: Attendance) => LocalDay(a.date, tz) == day
  }

  /** The record row `day` is meant to show: the first one stamped on that
      local calendar day. */
  function RecordForDay(records: seq<Attendance>, year: int, month: int, day: int, tz: int): Option<Attendance>
    requires 1 <= month <= 12
  {
    FirstOf(records, OnLocalDay(DaysFromCivil(year, month, day), tz))
  }

  /** The day after a date is one day count later. */
  lemma NextDay(year: int, month: int, day: int)
    requires 1 <= month <= 12
    ensures DaysFromCivil(year, month, day + 1) == DaysFromCivil(year, month, day) + 1
  {
    DaysFromMarch(year, month, day);
    DaysFromMarch(year, month, day + 1);
  }

  /** East of UTC the written lookup misses the record of its own day and
      shows it on the next row: a record stamped `tz` after local midnight
      (08:00 at UTC+8) belongs to day `day`, yet row `day` finds nothing and
      row `day + 1` shows it. */
  lemma {:induction false} AsWrittenShiftsRows(a: Attendance, year: int, month: int, day: int, tz: int)
    requires 1 <= month <= 12 && 0 < tz < MsPerDay
    requires a.date == DaysFromCivil(year, month, day) * MsPerDay
    ensures LocalDay(a.date, tz) == DaysFromCivil(year, month, day)
    ensures RecordForDay([a], year, month, day, tz) == Some(a)
    ensures AsWrittenRecordForDay([a], year, month, day, tz) == None
    ensures AsWrittenRecordForDay([a], year, month, day + 1, tz) == Some(a)
  {
    var d := DaysFromCivil(year, month, day);
    NextDay(year, month, day);
    assert AsWrittenRowKey(year, month, day, tz) == d - 1;
    assert AsWrittenRowKey(year, month, day + 1, tz) == d;
    assert !OnUtcDay(d - 1)(a);
    assert OnUtcDay(d)(a);
    assert OnLocalDay(d, tz)(a);
  }

  /** At UTC the written lookup and the intended one agree. */
  lemma {:induction false} AsWrittenAgreesAtUtc(records: seq<Attendance>, year: int, month: int, day: int)
    requires 1 <= month <= 12
    ensures AsWrittenRecordForDay(records, year, month, day, 0) == RecordForDay(records, year, month, day, 0)
  {
    var d := DaysFromCivil(year, month, day);
    assert AsWrittenRowKey(year, month, day, 0) == d;
    FindCongruent(records, OnUtcDay(d), OnLocalDay(d, 0));
  }

  // ---------------------------------------------------------------------
  // Rows

  /** `Math.floor(m / 60)` and the JavaScript `m % 60`, which keeps the
      sign of `m`. */
  function JsRem(a: int, b: int): int
    requires b > 0
  {
    if a >= 0 then a % b else -((-a) % b)
  }

  /** The two undertime cells: blank when the minutes are 0. */
  datatype Undertime = Blank | Shown(hours: int, minutes: int)

  function UndertimeCells(m: int): Undertime {
    if m == 0 then Blank else Shown(m / 60, JsRem(m, 60))
  }

  /** The cells are blank exactly for 0 minutes; for a positive count they
      are whole hours and the remaining minutes; for a negative count that
      is not a whole number of hours they no longer add up. */
  lemma {:induction false} UndertimeSplit(m: int)
    ensures UndertimeCells(m).Blank? <==> m == 0
    ensures m > 0 ==> var u := UndertimeCells(m);
                      u.hours * 60 + u.minutes == m && 0 <= u.minutes < 60
    ensures m < 0 && m % 60 != 0 ==> var u := UndertimeCells(m);
                                     u.hours * 60 + u.minutes != m
  {
    if m < 0 && m % 60 != 0 {
      var u := UndertimeCells(m);
      assert u.hours * 60 == m - m % 60;
      assert u.minutes == -((-m) % 60);
      assert (-m) % 60 == 60 - m % 60;
    }
  }

  /** One row of the form: the day, the four daytime times ("" when
      missing) and the undertime. */
  datatype Row = Row(day: int, amArrival: string, amDeparture: string, pmArrival: string, pmDeparture: string,
                     undertime: Undertime)

  /** `formatTime` of the grid: "" for a missing time. */
  function GridTime(t: Option<Time>, tz: int): (s: string)
    ensures s == "" <==> t.None?
  {
    if t.None? then "" else TimeText(t.value, tz)
  }

  function RowFor(r: Option<Attendance>, day: int, tz: int): Row {
    if r.None? then Row(day, "", "", "", "", Blank)
    else
      var a := r.value;
      Row(day, GridTime(a.morningIn, tz), GridTime(a.morningOut, tz), GridTime(a.afternoonIn, tz),
          GridTime(a.afternoonOut, tz), UndertimeCells(a.undertimeMinutes))
  }

  /** A row shows the daytime pairs only: the evening times never appear. */
  lemma RowIgnoresEvening(a: Attendance, day: int, tz: int, eveningIn: Option<Time>, eveningOut: Option<Time>)
    ensures RowFor(Some(a), day, tz) == RowFor(Some(a.(eveningIn := eveningIn, eveningOut := eveningOut)), day, tz)
  {
  }

  /** `new Date(year, month, 0).getDate()`: the length of the chosen month. */
  function DaysInSelectedMonth(year: int, month: int): int
    requires 1 <= month <= 12
  {
    DaysInMonth(year, month)
  }

  /** The table body: rows 1 to the length of the month. */
  function Rows(records: seq<Attendance>, year: int, month: int, tz: int): seq<Row>
    requires 1 <= month <= 12
  {
    seq(DaysInSelectedMonth(year, month),
        i requires 0 <= i < DaysInSelectedMonth(year, month) =>
          RowFor(RecordForDay(records, year, month, i + 1, tz), i + 1, tz))
  }

  /** The table has one row per day of the month, numbered from 1; a day
      without a record has an empty row; the first record stamped on a day
      fills that day's row. */
  lemma {:induction false} RowsSpec(records: seq<Attendance>, year: int, month: int, tz: int, k: nat)
    requires 1 <= month <= 12
    ensures var rows := Rows(records, year, month, tz);
            |rows| == DaysInMonth(year, month) && 28 <= |rows| <= 31 &&
            (forall i :: 0 <= i < |rows| ==> rows[i].day == i + 1) &&
            (forall i :: 0 <= i < |rows| && RecordForDay(records, year, month, i + 1, tz).None? ==>
               rows[i] == Row(i + 1, "", "", "", "", Blank))
    ensures k < |records| && (forall j :: 0 <= j < k ==> LocalDay(records[j].date, tz) != LocalDay(records[k].date, tz)) ==>
            forall i :: 0 <= i < DaysInMonth(year, month) && LocalDay(records[k].date, tz) == DaysFromCivil(year, month, i + 1) ==>
              Rows(records, year, month, tz)[i] == RowFor(Some(records[k]), i + 1, tz)
  {
    if k < |records| && (forall j :: 0 <= j < k ==> LocalDay(records[j].date, tz) != LocalDay(records[k].date, tz)) {
      forall i | 0 <= i < DaysInMonth(year, month) && LocalDay(records[k].date, tz) == DaysFromCivil(year, month, i + 1)
        ensures Rows(records, year, month, tz)[i] == RowFor(Some(records[k]), i + 1, tz)
      {
        var p := OnLocalDay(DaysFromCivil(year, month, i + 1), tz);
        var f := FindIndex(records, p);
        assert p(records[k]);
        assert f == k;
      }
    }
  }

  // ---------------------------------------------------------------------
  // The total, the name and the month

  /** The Total cell: the hours of every fetched record, whether or not a
      row shows it. */
  function TotalCell(records: seq<Attendance>): string {
    HundredthsText(SumHours(records)) + " hrs"
  }

  /** With no negative hours, every record's hours are part of the total. */
  lemma {:induction false} TotalCoversEachRecord(records: seq<Attendance>, k: nat)
    requires forall j :: 0 <= j < |records| ==> records[j].totalHours >= 0
    requires k < |records|
    ensures 0 <= records[k].totalHours <= SumHours(records)
  {
    assert records == [records[0]] + records[1..];
    SumNonNegative(records[1..]);
    if k > 0 {
      TotalCoversEachRecord(records[1..], k - 1);
    }
  }

  lemma {:induction false} SumNonNegative(records: seq<Attendance>)
    requires forall j :: 0 <= j < |records| ==> records[j].totalHours >= 0
    ensures SumHours(records) >= 0
  {
    if records != [] {
      SumNonNegative(records[1..]);
    }
  }

  /** `fullName`: first name, the middle name and a space when there is one,
      and last name. */
  function FullName(firstName: string, middleName: Option<string>, lastName: string): string {
    firstName + " " + (if Truthy(middleName) then middleName.value + " " else "") + lastName
  }

  /** The full name is its words joined by spaces: splitting it at spaces
      gives back first, middle (when present) and last name. */
  lemma {:induction false} FullNameWords(firstName: string, middleName: Option<string>, lastName: string)
    requires ' ' !in firstName && ' ' !in lastName && (middleName.Some? ==> ' ' !in middleName.value)
    ensures Split(FullName(firstName, middleName, lastName), ' ')
            == [firstName] + (if Truthy(middleName) then [middleName.value] else []) + [lastName]
  {
    var words := [firstName] + (if Truthy(middleName) then [middleName.value] else []) + [lastName];
    if Truthy(middleName) {
      assert words[1..] == [middleName.value, lastName];
      assert [middleName.value, lastName][1..] == [lastName];
      assert Join([middleName.value, lastName], ' ') == middleName.value + " " + lastName;
      assert Join(words, ' ') == firstName + " " + (middleName.value + " " + lastName);
    } else {
      assert Join(words, ' ') == firstName + " " + lastName;
    }
    assert FullName(firstName, middleName, lastName) == Join(words, ' ');
    SplitJoin(words, ' ');
  }

  /** For a student without a middle name the form's name is the one the
      DTR processing route extracts. */
  lemma {:induction false} FullNameMatchesExtraction(students: map<Id, Student>, courses: map<Id, Course>, id: Id)
    requires id in students && !Truthy(students[id].middleName)
    ensures var s := students[id];
            FullName(s.firstName, s.middleName, s.lastName) == StudentInfoOf(students, courses, Some(id)).value.name
  {
  }

  /** The month heading, upper case: "JANUARY 2025". */
  function MonthYearLabel(year: int, month: int): string
    requires 1 <= month <= 12
  {
    MonthNames[month - 1] + " " + IntText(year)
  }

  /** The heading names the month and year that the DTR processing route
      extracts for the same month. */
  lemma MonthLabelMatchesExtraction(year: int, month: int, info: Option<StudentInfo>)
    requires 1 <= month <= 12
    ensures var e := Extraction(year, month - 1, info);
            MonthYearLabel(year, month) == e.month.value + " " + e.year.value
  {
  }
}
