/** The DTR processing route: simulated reading of a Civil Service Form
    No. 48 into 31 day rows for the current month, stored on the template,
    and the reading back of the stored data. */
module DtrProcessApi {
  import opened Common
  import opened Text
  import opened Calendar
  import opened StudentModel
  import opened CourseModel
  import opened DtrTemplateModel
  import opened Store

  const MonthNames: seq<string> := ["JANUARY", "FEBRUARY", "MARCH", "APRIL", "MAY", "JUNE",
                                    "JULY", "AUGUST", "SEPTEMBER", "OCTOBER", "NOVEMBER", "DECEMBER"]

  const FallbackName := "EXTRACTED NAME"

  /** The form has one row per possible day of a month. */
  const FormRows := 31

  /** What the handler reports about the student: `department` reads a path
      the student schema does not have, so it is always absent. */
  datatype StudentInfo = StudentInfo(name: string, studentId: string, course: Option<string>,
                                     department: Option<string>)

  // ---------------------------------------------------------------------
  // The simulated extraction

  predicate IsWeekend(year: int, month: int, day: int)
    requires 1 <= month <= 12
  {
    var w := Weekday(DaysFromCivil(year, month, day));
    w == 0 || w == 6
  }

  /** Row `day` of the form: empty on a weekend, otherwise the sample times
      8:03, 12:03, 1:00 and 5:00, never an undertime. */
  function SampleDay(year: int, month: int, day: int): DayEntry
    requires 1 <= month <= 12
  {
    if IsWeekend(year, month, day) then DayEntry(day, None, None, None, None, None)
    else DayEntry(day, Some("8:03"), Some("12:03"), Some("1:00"), Some("5:00"), None)
  }

  /** Rows 1 to `count`. */
  function SampleDays(year: int, month: int, count: nat): seq<DayEntry>
    requires 1 <= month <= 12
  {
    if count == 0 then [] else SampleDays(year, month, count - 1) + [SampleDay(year, month, count)]
  }

  /** The extraction for the month `monthIndex` (0 to 11) of `year`: the
      student's name or the placeholder, the month in capitals, the year in
      digits and the 31 rows. */
  function Extraction(year: int, monthIndex: int, info: Option<StudentInfo>): ExtractedData
    requires 0 <= monthIndex < 12
  {
    ExtractedData(
      Some(if info.Some? && info.value.name != "" then info.value.name else FallbackName),
      Some(MonthNames[monthIndex]),
      Some(IntText(year)),
      SampleDays(year, monthIndex + 1, FormRows))
  }

  lemma {:induction false} SampleDaysSpec(year: int, month: int, count: nat)
    requires 1 <= month <= 12
    ensures |SampleDays(year, month, count)| == count
    ensures forall k :: 0 <= k < count ==> SampleDays(year, month, count)[k] == SampleDay(year, month, k + 1)
  {
    if count > 0 {
      SampleDaysSpec(year, month, count - 1);
    }
  }

  /** The extraction has exactly 31 rows numbered 1 to 31; a row is empty
      exactly on a weekend and otherwise holds the four sample times; no
      row has an undertime. */
  lemma {:induction false} ExtractionSpec(year: int, monthIndex: int, info: Option<StudentInfo>)
    requires 0 <= monthIndex < 12
    ensures var e := Extraction(year, monthIndex, info);
            |e.days| == FormRows &&
            forall k :: 0 <= k < FormRows ==>
              e.days[k].day == k + 1 && e.days[k].undertime.None? &&
              (IsWeekend(year, monthIndex + 1, k + 1) <==> e.days[k].amArrival.None?) &&
              (!IsWeekend(year, monthIndex + 1, k + 1) ==>
                 e.days[k].amArrival == Some("8:03") && e.days[k].amDeparture == Some("12:03") &&
                 e.days[k].pmArrival == Some("1:00") && e.days[k].pmDeparture == Some("5:00"))
  {
    SampleDaysSpec(year, monthIndex + 1, FormRows);
  }

  /** Rows past the end of a short month are filled as the first days of the
      next month: row 31 of a 30-day month has work times exactly when the
      first of the next month is a weekday. */
  lemma {:induction false} OverflowRowsFollowNextMonth(year: int, month: int, day: int)
    requires 1 <= month <= 12 && DaysInMonth(year, month) < day
    ensures var (y2, m2) := if month == 12 then (year + 1, 1) else (year, month + 1);
            IsWeekend(year, month, day) == IsWeekend(y2, m2, day - DaysInMonth(year, month))
  {
    MonthLength(year, month);
    DaysFromMarch(year, month, day);
    DaysFromMarch(year, month, 1);
    if month == 12 {
      DaysFromMarch(year + 1, 1, day - DaysInMonth(year, month));
      DaysFromMarch(year + 1, 1, 1);
    } else {
      DaysFromMarch(year, month + 1, day - DaysInMonth(year, month));
      DaysFromMarch(year, month + 1, 1);
    }
  }

  /** `performOCRExtraction` at the local date `year`, `monthIndex` of the
      clock: the loop over days 1 to 31. */
  method PerformOcrExtraction(year: int, monthIndex: int, info: Option<StudentInfo>) returns (data: ExtractedData)
    requires 0 <= monthIndex < 12
    ensures data == Extraction(year, monthIndex, info)
  {
    var days: seq<DayEntry> := [];
    for i := 1 to FormRows + 1
      invariant days == SampleDays(year, monthIndex + 1, i - 1)
    {
      var dayData := DayEntry(i, None, None, None, None, None);
      var dayOfWeek := Weekday(DaysFromCivil(year, monthIndex + 1, i));
      var isWeekend := dayOfWeek == 0 || dayOfWeek == 6;
      if !isWeekend {
        dayData := dayData.(amArrival := Some("8:03"), amDeparture := Some("12:03"),
                            pmArrival := Some("1:00"), pmDeparture := Some("5:00"));
      }
      days := days + [dayData];
    }
    var name := if info.Some? && info.value.name != "" then info.value.name else FallbackName;
    data := ExtractedData(Some(name), Some(MonthNames[monthIndex]), Some(IntText(year)), days);
  }

  // ---------------------------------------------------------------------
  // POST

  /** The student part of the reply, for a non-empty id naming a student. */
  function StudentInfoOf(students: map<Id, Student>, courses: map<Id, Course>, studentId: Option<Id>)
    : Option<StudentInfo>
  {
    if studentId.None? || studentId.value !in students then None
    else
      var s := students[studentId.value];
      Some(StudentInfo(s.firstName + " " + s.lastName, s.studentId,
                       if s.courseId in courses then Some(courses[s.courseId].courseName) else None, None))
  }

  datatype ProcessReply = ProcessReply(extractedData: ExtractedData, studentInfo: Option<StudentInfo>)

  /** The POST handler, corrected: the template id is required and must
      name a template; the extraction replaces the stored one and `save`
      validates the whole template. The student's department is not joined
      (see `ProcessAsWritten` for the handler as written). */
  function Process(templates: map<Id, DtrTemplate>, students: map<Id, Student>, courses: map<Id, Course>,
                   templateId: Option<Id>, studentId: Option<Id>, year: int, monthIndex: int)
    : Outcome<DtrTemplate, ProcessReply>
    requires 0 <= monthIndex < 12
  {
    if templateId.None? then Outcome(Fail(400, "Template ID is required"), templates, 0)
    else if templateId.value !in templates then Outcome(Fail(404, "Template not found"), templates, 0)
    else
      var info := StudentInfoOf(students, courses, studentId);
      var data := Extraction(year, monthIndex, info);
      var t := templates[templateId.value].(extractedData := Some(data));
      if !ValidTemplate(t) then Outcome(Fail(500, "Failed to process DTR template"), templates, 0)
      else Outcome(Ok(ProcessReply(data, info)), templates[templateId.value := t], 0)
  }

  /** The POST handler as written: it populates `departmentId`, which the
      student schema does not have, and with strict population (the default
      since Mongoose 6) that query throws whenever it finds the student, so
      the catch answers 500 and nothing is saved. An absent or unknown
      student finds no document and goes on as `Process` does. */
  function ProcessAsWritten(templates: map<Id, DtrTemplate>, students: map<Id, Student>, courses: map<Id, Course>,
                            templateId: Option<Id>, studentId: Option<Id>, year: int, monthIndex: int)
    : Outcome<DtrTemplate, ProcessReply>
    requires 0 <= monthIndex < 12
  {
    if templateId.None? then Outcome(Fail(400, "Template ID is required"), templates, 0)
    else if templateId.value !in templates then Outcome(Fail(404, "Template not found"), templates, 0)
    else if studentId.Some? && studentId.value in students then
      Outcome(Fail(500, "Failed to process DTR template"), templates, 0)
    else Process(templates, students, courses, templateId, studentId, year, monthIndex)
  }

  /** As written, naming a stored student makes the processing of a valid
      template fail with 500 and save nothing, where the corrected handler
      succeeds and fills in that student's name. */
  lemma {:induction false} AsWrittenNamedStudentFails(templates: map<Id, DtrTemplate>, students: map<Id, Student>,
                                                      courses: map<Id, Course>, templateId: Id, studentId: Id,
                                                      year: int, monthIndex: int)
    requires 0 <= monthIndex < 12
    requires templateId in templates && ValidTemplate(templates[templateId]) && studentId in students
    ensures var o := ProcessAsWritten(templates, students, courses, Some(templateId), Some(studentId), year, monthIndex);
            o.response == Fail(500, "Failed to process DTR template") && o.docs == templates
    ensures var o := Process(templates, students, courses, Some(templateId), Some(studentId), year, monthIndex);
            o.response.Ok? &&
            o.response.value.extractedData.name == Some(students[studentId].firstName + " " + students[studentId].lastName)
  {
    ProcessSpec(templates, students, courses, Some(templateId), Some(studentId), year, monthIndex);
  }

  /** Processing succeeds exactly for a stored, valid template; it replaces
      that template's extracted data and nothing else; the name is the
      student's full name when a known student is named, the placeholder
      otherwise. */
  lemma {:induction false} ProcessSpec(templates: map<Id, DtrTemplate>, students: map<Id, Student>,
                                       courses: map<Id, Course>, templateId: Option<Id>, studentId: Option<Id>,
                                       year: int, monthIndex: int)
    requires 0 <= monthIndex < 12
    ensures var o := Process(templates, students, courses, templateId, studentId, year, monthIndex);
            (o.response.Ok? <==> templateId.Some? && templateId.value in templates &&
                                 ValidTemplate(templates[templateId.value])) &&
            (o.response.Fail? ==> o.docs == templates) &&
            (o.response.Ok? ==>
               var d := o.response.value.extractedData;
               o.docs == templates[templateId.value := templates[templateId.value].(extractedData := Some(d))] &&
               d.month == Some(MonthNames[monthIndex]) && |d.days| == FormRows &&
               (studentId.Some? && studentId.value in students ==>
                  d.name == Some(students[studentId.value].firstName + " " + students[studentId.value].lastName) &&
                  o.response.value.studentInfo.Some? && o.response.value.studentInfo.value.department.None?) &&
               (studentId.None? || studentId.value !in students ==> d.name == Some(FallbackName)))
  {
    ExtractionSpec(year, monthIndex, StudentInfoOf(students, courses, studentId));
  }

  method ProcessTemplate(db: Db, templateId: Option<Id>, studentId: Option<Id>, year: int, monthIndex: int)
    returns (r: Response<ProcessReply>)
    requires db.Valid() && 0 <= monthIndex < 12
    modifies db`templates
    ensures db.Valid()
    ensures var o := Process(old(db.templates), db.students, db.courses, templateId, studentId, year, monthIndex);
            r == o.response && db.templates == o.docs
  {
    if templateId.None? {
      return Fail(400, "Template ID is required");
    }
    if templateId.value !in db.templates {
      return Fail(404, "Template not found");
    }
    var info := StudentInfoOf(db.students, db.courses, studentId);
    var data := PerformOcrExtraction(year, monthIndex, info);
    var template := db.templates[templateId.value].(extractedData := Some(data));
    if !ValidTemplate(template) {
      return Fail(500, "Failed to process DTR template");
    }
    db.templates := db.templates[templateId.value := template];
    r := Ok(ProcessReply(data, info));
  }

  // ---------------------------------------------------------------------
  // GET

  function ExtractedOf(templates: map<Id, DtrTemplate>, templateId: Option<Id>): Response<Option<ExtractedData>> {
    if templateId.None? then Fail(400, "Template ID is required")
    else if templateId.value !in templates then Fail(404, "Template not found")
    else Ok(templates[templateId.value].extractedData)
  }

  /** Reading back after a successful processing gives the data just
      extracted. */
  lemma {:induction false} ProcessThenRead(templates: map<Id, DtrTemplate>, students: map<Id, Student>,
                                           courses: map<Id, Course>, id: Id, studentId: Option<Id>,
                                           year: int, monthIndex: int)
    requires 0 <= monthIndex < 12
    requires Process(templates, students, courses, Some(id), studentId, year, monthIndex).response.Ok?
    ensures var o := Process(templates, students, courses, Some(id), studentId, year, monthIndex);
            ExtractedOf(o.docs, Some(id)) == Ok(Some(o.response.value.extractedData))
  {
  }
}
