/** The student's attendance log: the CSV export of the month's records,
    the status badges and the summary counts under the table. */
module AttendanceLogs {
  import opened Common
  import opened Text
  import opened Calendar
  import opened AttendanceModel

  // ---------------------------------------------------------------------
  // Badges and summary

  /** `getStatusBadge`: the label of a status; anything else is "Unknown". */
  function StatusBadge(status: string): (badge: string)
    ensures badge == "Unknown" <==> status !in {"present", "late", "absent", "half_day"}
  {
    match status
    case "present" => "Present"
    case "late" => "Late"
    case "absent" => "Absent"
    case "half_day" => "Half Day"
    case _ => "Unknown"
  }

  /** The four statuses a record can hold have four different badges. */
  lemma BadgesDistinct(s: Status, t: Status)
    ensures StatusBadge(StatusName(s)) != "Unknown"
    ensures StatusBadge(StatusName(s)) == StatusBadge(StatusName(t)) ==> s == t
  {
  }

  function HasStatus(s: Status): Attendance -> bool {
    (a: Attendance) => a.status == s
  }

  /** `attendance.filter(a => a.status === s).length`. */
  function CountStatus(records: seq<Attendance>, s: Status): nat {
    |Filter(records, HasStatus(s))|
  }

  lemma {:induction false} CountStatusStep(records: seq<Attendance>, s: Status)
    requires records != []
    ensures CountStatus(records, s) == (if records[0].status == s then 1 else 0) + CountStatus(records[1..], s)
  {
  }

  /** The four status counts add up to the number of records, so the
      Present and Late figures together never exceed the Total Records
      figure. */
  lemma {:induction false} CountsPartition(records: seq<Attendance>)
    ensures CountStatus(records, Present) + CountStatus(records, Late) + CountStatus(records, Absent) +
            CountStatus(records, HalfDay) == |records|
  {
    if records != [] {
      CountStatusStep(records, Present);
      CountStatusStep(records, Late);
      CountStatusStep(records, Absent);
      CountStatusStep(records, HalfDay);
      CountsPartition(records[1..]);
    }
  }

  /** The record counted as present is the one whose status is present:
      adding a record raises exactly its own status's count by one. */
  lemma {:induction false} CountAppend(records: seq<Attendance>, a: Attendance, s: Status)
    ensures CountStatus(records + [a], s) == CountStatus(records, s) + (if a.status == s then 1 else 0)
  {
    if records == [] {
      assert [] + [a] == [a];
      CountStatusStep([a], s);
    } else {
      assert (records + [a])[1..] == records[1..] + [a];
      CountStatusStep(records + [a], s);
      CountStatusStep(records, s);
      CountAppend(records[1..], a, s);
    }
  }

  /** The figures under the table. */
  datatype Summary = Summary(totalRecords: nat, presentDays: nat, lateDays: nat, totalHours: string)

  function SummaryOf(records: seq<Attendance>): Summary {
    Summary(|records|, CountStatus(records, Present), CountStatus(records, Late), HundredthsText(SumHours(records)))
  }

  // ---------------------------------------------------------------------
  // The CSV export as written

  const Headers: seq<string> := ["Date", "Morning In", "Morning Out", "Afternoon In", "Afternoon Out",
                                 "Evening In", "Evening Out", "Total Hours", "Status"]

  /** The nine values of a record's line, in header order. */
  function RowFields(r: Attendance, tz: int): (fields: seq<string>)
    ensures |fields| == |Headers|
  {
    [ShortDateText(r.date, tz), FormatTime(r.morningIn, tz), FormatTime(r.morningOut, tz),
     FormatTime(r.afternoonIn, tz), FormatTime(r.afternoonOut, tz), FormatTime(r.eveningIn, tz),
     FormatTime(r.eveningOut, tz), HundredthsText(r.totalHours), StatusName(r.status)]
  }

  /** `exportToCSV` as written: each line joins its values with commas, and
      the lines are joined with newlines. */
  function AsWrittenLine(r: Attendance, tz: int): string {
    Join(RowFields(r, tz), ',')
  }

  function AsWrittenLines(records: seq<Attendance>, tz: int): (lines: seq<string>)
    ensures |lines| == |records|
    ensures forall k :: 0 <= k < |records| ==> lines[k] == AsWrittenLine(records[k], tz)
  {
    if records == [] then [] else [AsWrittenLine(records[0], tz)] + AsWrittenLines(records[1..], tz)
  }

  function AsWrittenCsv(records: seq<Attendance>, tz: int): string {
    Join([Join(Headers, ',')] + AsWrittenLines(records, tz), '\n')
  }

  /** The date text up to its comma ("Jan 5") and after it (" 2025"). */
  function DateHead(t: Time, tz: int): string {
    var (y, m, d) := CivilFromDays(LocalDay(t, tz));
    MonthAbbrev(m) + " " + IntText(d)
  }

  function DateTail(t: Time, tz: int): string {
    var (y, m, d) := CivilFromDays(LocalDay(t, tz));
    " " + IntText(y)
  }

  lemma IntTextPlain(i: int)
    ensures ',' !in IntText(i) && '\n' !in IntText(i) && '"' !in IntText(i)
  {
    if i < 0 {
      assert IntText(i) == "-" + NatText(-i);
    }
  }

  lemma MonthAbbrevPlain(m: int)
    ensures ',' !in MonthAbbrev(m) && '\n' !in MonthAbbrev(m) && '"' !in MonthAbbrev(m)
  {
  }

  /** "Mon d, yyyy" around its one comma. */
  lemma {:induction false} DateParts(y: int, m: int, d: int)
    ensures MonthAbbrev(m) + " " + IntText(d) + ", " + IntText(y) ==
            (MonthAbbrev(m) + " " + IntText(d)) + [','] + (" " + IntText(y))
    ensures ',' !in MonthAbbrev(m) + " " + IntText(d) && ',' !in " " + IntText(y)
    ensures '\n' !in MonthAbbrev(m) + " " + IntText(d) && '\n' !in " " + IntText(y)
    ensures '"' !in MonthAbbrev(m) + " " + IntText(d) && '"' !in " " + IntText(y)
  {
    MonthAbbrevPlain(m);
    IntTextPlain(y);
    IntTextPlain(d);
  }

  /** The en-US date holds exactly one comma, between day and year. */
  lemma {:induction false} DateHasOneComma(t: Time, tz: int)
    ensures ShortDateText(t, tz) == DateHead(t, tz) + [','] + DateTail(t, tz)
    ensures ',' !in DateHead(t, tz) && ',' !in DateTail(t, tz)
    ensures '\n' !in DateHead(t, tz) && '\n' !in DateTail(t, tz)
    ensures '"' !in DateHead(t, tz) && '"' !in DateTail(t, tz)
  {
    var (y, m, d) := CivilFromDays(LocalDay(t, tz));
    DateParts(y, m, d);
  }

  /** No value but the date holds a comma, and none holds a newline or a
      quote. */
  lemma {:induction false} FieldsPlain(r: Attendance, tz: int)
    ensures var f := RowFields(r, tz);
            (forall i :: 1 <= i < |f| ==> ',' !in f[i]) &&
            (forall i :: 0 <= i < |f| ==> '\n' !in f[i] && '"' !in f[i])
  {
    var f := RowFields(r, tz);
    DateHasOneComma(r.date, tz);
    forall i | 0 <= i < |f|
      ensures (i > 0 ==> ',' !in f[i]) && '\n' !in f[i] && '"' !in f[i]
    {
      if i == 0 {
        assert f[0] == DateHead(r.date, tz) + [','] + DateTail(r.date, tz);
      } else if i == 1 {
        assert f[1] == FormatTime(r.morningIn, tz);
      } else if i == 2 {
        assert f[2] == FormatTime(r.morningOut, tz);
      } else if i == 3 {
        assert f[3] == FormatTime(r.afternoonIn, tz);
      } else if i == 4 {
        assert f[4] == FormatTime(r.afternoonOut, tz);
      } else if i == 5 {
        assert f[5] == FormatTime(r.eveningIn, tz);
      } else if i == 6 {
        assert f[6] == FormatTime(r.eveningOut, tz);
      } else if i == 7 {
        assert f[7] == HundredthsText(r.totalHours);
      } else {
        assert f[8] == StatusName(r.status);
      }
    }
  }

  /** Splitting at `sep` a joined line whose first value holds `sep` once
      yields one value more than was joined. */
  lemma {:induction false} SplitExtraField(head: string, tail: string, rest: seq<string>, sep: char)
    requires sep !in head && sep !in tail && |rest| >= 1
    requires forall i :: 0 <= i < |rest| ==> sep !in rest[i]
    ensures Split(Join([head + [sep] + tail] + rest, sep), sep) == [head, tail] + rest
  {
    var r := Join(rest, sep);
    JoinCons(head + [sep] + tail, rest, sep);
    assert head + [sep] + tail + [sep] + r == head + [sep] + (tail + [sep] + r);
    SplitAfterWord(head, sep, tail + [sep] + r);
    SplitAfterWord(tail, sep, r);
    SplitJoin(rest, sep);
  }

  lemma JoinCons(x: string, rest: seq<string>, sep: char)
    requires |rest| >= 1
    ensures Join([x] + rest, sep) == x + [sep] + Join(rest, sep)
  {
    assert ([x] + rest)[1..] == rest;
  }

  /** The header splits into its nine column names. */
  lemma HeaderHasNineFields()
    ensures Split(Join(Headers, ','), ',') == Headers && |Headers| == 9
  {
    SplitJoin(Headers, ',');
  }

  /** Every data line, split at commas, has ten values: the comma inside
      the date adds a column, so from "Morning In" on every value sits one
      column right of its header. */
  lemma {:induction false} AsWrittenLineHasTenFields(r: Attendance, tz: int)
    ensures Split(AsWrittenLine(r, tz), ',') == [DateHead(r.date, tz), DateTail(r.date, tz)] + RowFields(r, tz)[1..]
    ensures |Split(AsWrittenLine(r, tz), ',')| == |Headers| + 1
  {
    var f := RowFields(r, tz);
    DateHasOneComma(r.date, tz);
    FieldsPlain(r, tz);
    assert f == [DateHead(r.date, tz) + [','] + DateTail(r.date, tz)] + f[1..];
    SplitExtraField(DateHead(r.date, tz), DateTail(r.date, tz), f[1..], ',');
  }

  // ---------------------------------------------------------------------
  // The CSV export with quoted values

  /** A value between double quotes, as CSV writes a value that holds a
      comma. */
  function Quote(v: string): string {
    "\"" + v + "\""
  }

  function QuoteAll(vs: seq<string>): (qs: seq<string>)
    ensures |qs| == |vs| && forall i :: 0 <= i < |vs| ==> qs[i] == Quote(vs[i])
  {
    if vs == [] then [] else [Quote(vs[0])] + QuoteAll(vs[1..])
  }

  function Line(r: Attendance, tz: int): string {
    Join(QuoteAll(RowFields(r, tz)), ',')
  }

  function Lines(records: seq<Attendance>, tz: int): (lines: seq<string>)
    ensures |lines| == |records|
    ensures forall k :: 0 <= k < |records| ==> lines[k] == Line(records[k], tz)
  {
    if records == [] then [] else [Line(records[0], tz)] + Lines(records[1..], tz)
  }

  /** The export with every value quoted: one header line, then one line
      per record. */
  function Csv(records: seq<Attendance>, tz: int): string {
    Join([Join(QuoteAll(Headers), ',')] + Lines(records, tz), '\n')
  }

  function IsQuote(c: char): bool {
    c == '"'
  }

  /** Reads a line of quoted values separated by commas, as a CSV reader
      does for values without quotes inside them. */
  function ReadQuoted(s: string): Option<seq<string>>
    decreases |s|
  {
    if |s| < 2 || s[0] != '"' then None
    else
      var j := FindIndex(s[1..], IsQuote) + 1;
      if j >= |s| then None
      else if j + 1 == |s| then Some([s[1..j]])
      else if s[j + 1] != ',' then None
      else
        var more := ReadQuoted(s[j + 2..]);
        if more.None? then None else Some([s[1..j]] + more.value)
  }

  /** Reading a line of quoted values gives the values back. */
  lemma {:induction false} ReadQuotedJoin(vs: seq<string>)
    requires |vs| >= 1 && forall i :: 0 <= i < |vs| ==> '"' !in vs[i]
    ensures ReadQuoted(Join(QuoteAll(vs), ',')) == Some(vs)
  {
    var qs := QuoteAll(vs);
    var v := vs[0];
    var tail := if |vs| == 1 then "" else [','] + Join(QuoteAll(vs[1..]), ',');
    if |vs| > 1 {
      assert qs[1..] == QuoteAll(vs[1..]);
    }
    var s := Join(qs, ',');
    assert s == "\"" + v + "\"" + tail;
    assert s[1..] == v + ("\"" + tail);
    var j := FindIndex(s[1..], IsQuote);
    assert s[1..][|v|] == '"';
    assert forall i :: 0 <= i < |v| ==> s[1..][i] == v[i];
    assert j == |v|;
    assert s[1..j + 1] == v;
    if |vs| > 1 {
      var rest := Join(QuoteAll(vs[1..]), ',');
      assert s[j + 2] == ',';
      assert s[j + 3..] == rest;
      ReadQuotedJoin(vs[1..]);
      assert ReadQuoted(s[j + 3..]) == Some(vs[1..]);
      assert ReadQuoted(s) == Some([v] + vs[1..]);
      assert [v] + vs[1..] == vs;
    } else {
      assert |s| == |v| + 2;
      assert vs == [v];
    }
  }

  lemma {:induction false} LinesHaveNoNewline(records: seq<Attendance>, tz: int, k: nat)
    requires k < |records|
    ensures '\n' !in Line(records[k], tz)
  {
    FieldsPlain(records[k], tz);
    var qs := QuoteAll(RowFields(records[k], tz));
    JoinChars(qs, ',', '\n');
  }

  /** The quoted header line holds no newline and reads back as the nine
      column names. */
  lemma HeaderLineReadsBack()
    ensures '\n' !in Join(QuoteAll(Headers), ',')
    ensures ReadQuoted(Join(QuoteAll(Headers), ',')) == Some(Headers)
  {
    QuotedLine(Headers);
  }

  /** A line of quoted values without newlines or quotes holds no newline
      and reads back as those values. */
  lemma QuotedLine(vs: seq<string>)
    requires |vs| >= 1 && forall i :: 0 <= i < |vs| ==> '\n' !in vs[i] && '"' !in vs[i]
    ensures '\n' !in Join(QuoteAll(vs), ',')
    ensures ReadQuoted(Join(QuoteAll(vs), ',')) == Some(vs)
  {
    JoinChars(QuoteAll(vs), ',', '\n');
    ReadQuotedJoin(vs);
  }

  lemma {:induction false} LinesSplit(header: string, records: seq<Attendance>, tz: int)
    requires '\n' !in header
    ensures Split(Join([header] + Lines(records, tz), '\n'), '\n') == [header] + Lines(records, tz)
  {
    var lines := Lines(records, tz);
    forall k | 0 <= k < |lines|
      ensures '\n' !in lines[k]
    {
      LinesHaveNoNewline(records, tz, k);
    }
    SplitJoinAfter(header, lines, '\n');
  }

  /** The export splits at newlines into the header line and one line per
      record, in order. */
  lemma {:induction false} CsvLines(records: seq<Attendance>, tz: int)
    ensures Split(Csv(records, tz), '\n') == [Join(QuoteAll(Headers), ',')] + Lines(records, tz)
  {
    HeaderLineReadsBack();
    LinesSplit(Join(QuoteAll(Headers), ','), records, tz);
  }

  /** A record's line reads back as its nine values. */
  lemma {:induction false} LineReadsBack(r: Attendance, tz: int)
    ensures ReadQuoted(Line(r, tz)) == Some(RowFields(r, tz))
  {
    FieldsPlain(r, tz);
    ReadQuotedJoin(RowFields(r, tz));
  }

  /** The export is one header line and one line per record, in order; each
      line reads back as exactly nine values, the first the record's whole
      date. */
  lemma {:induction false} CsvReadsBack(records: seq<Attendance>, tz: int)
    ensures var lines := Split(Csv(records, tz), '\n');
            |lines| == |records| + 1 &&
            ReadQuoted(lines[0]) == Some(Headers) &&
            forall k :: 0 <= k < |records| ==>
              ReadQuoted(lines[k + 1]) == Some(RowFields(records[k], tz)) &&
              |RowFields(records[k], tz)| == 9 &&
              RowFields(records[k], tz)[0] == ShortDateText(records[k].date, tz)
  {
    CsvLines(records, tz);
    HeaderLineReadsBack();
    forall k | 0 <= k < |records|
      ensures ReadQuoted(Lines(records, tz)[k]) == Some(RowFields(records[k], tz))
    {
      LineReadsBack(records[k], tz);
    }
  }
}
