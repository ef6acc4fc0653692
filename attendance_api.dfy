/** The attendance ledger: clock events (POST), corrections (PUT), the day
    and month queries (GET) and the hours computation behind them. */
module AttendanceApi {
  import opened Common
  import opened Calendar
  import opened AttendanceModel
  import opened Store

  // ---------------------------------------------------------------------
  // calculateTotalHours

  /** Milliseconds from `start` to `end` when both are set, else nothing.
      An end before its start counts negatively: nothing clamps it. */
  function PairMs(start: Option<Time>, end: Option<Time>): int {
    if start.Some? && end.Some? then end.value - start.value else 0
  }

  /** Milliseconds worked over the three pairs. */
  function TotalMs(a: Attendance): int {
    PairMs(a.morningIn, a.morningOut) + PairMs(a.afternoonIn, a.afternoonOut) +
    PairMs(a.eveningIn, a.eveningOut)
  }

  /** `parseFloat((ms / 3600000).toFixed(2))` in hundredths of an hour: the
      nearest hundredth, a tie going away from zero (36000 ms is one
      hundredth of an hour). */
  function RoundHundredths(ms: int): (h: int)
    ensures ms >= 0 ==> -18000 < h * 36000 - ms <= 18000
    ensures ms < 0 ==> -18000 <= h * 36000 - ms < 18000
  {
    if ms >= 0 then (ms + 18000) / 36000 else -((-ms + 18000) / 36000)
  }

  /** Rounding keeps the order of durations. */
  lemma RoundMonotone(x: int, y: int)
    requires x <= y
    ensures RoundHundredths(x) <= RoundHundredths(y)
  {
  }

  /** Rounding is symmetric: toFixed rounds the magnitude. */
  lemma RoundOdd(x: int)
    ensures RoundHundredths(-x) == -RoundHundredths(x)
  {
  }

  /** `calculateTotalHours`: total hours over the completed pairs, rounded to
      hundredths. */
  function CalculateTotalHours(a: Attendance): int {
    RoundHundredths(TotalMs(a))
  }

  /** The stored total agrees with the clock fields. */
  predicate HoursConsistent(a: Attendance) {
    a.totalHours == CalculateTotalHours(a)
  }

  /** A pair with one end missing contributes nothing, and a record with no
      complete pair totals 0 hours. */
  lemma NoCompletePairNoHours(a: Attendance)
    requires a.morningIn.None? || a.morningOut.None?
    requires a.afternoonIn.None? || a.afternoonOut.None?
    requires a.eveningIn.None? || a.eveningOut.None?
    ensures CalculateTotalHours(a) == 0
  {
  }

  /** The total is within half a hundredth of the exact hours worked. */
  lemma TotalHoursClose(a: Attendance)
    ensures -18000 <= CalculateTotalHours(a) * 36000 - TotalMs(a) <= 18000
  {
  }

  /** Durations are not clamped: a morning out a full hour before the
      morning in, with no other complete pair, gives negative hours. */
  lemma {:induction false} NoClamp(a: Attendance)
    requires a.morningIn.Some? && a.morningOut.Some?
    requires a.morningOut.value <= a.morningIn.value - 3600000
    requires a.afternoonIn.None? && a.eveningIn.None?
    ensures CalculateTotalHours(a) <= -100
  {
    RoundMonotone(TotalMs(a), -3600000);
  }

  /** Hours never go down when a pair is completed with an end at or after
      its start. */
  lemma {:induction false} CompletingPairAddsHours(a: Attendance, t: Time)
    requires a.morningIn.Some? && a.morningOut.None? && a.morningIn.value <= t
    ensures CalculateTotalHours(a) <= CalculateTotalHours(a.(morningOut := Some(t)))
  {
    RoundMonotone(TotalMs(a), TotalMs(a.(morningOut := Some(t))));
  }

  // ---------------------------------------------------------------------
  // POST: clock in / clock out

  /** The record a clock POST writes to and the time it reports. */
  datatype ClockReply = ClockReply(attendance: Attendance, serverTime: Time)

  /** The `findOne` of the POST handler: the student's first record whose
      date lies within the local day of `now`. */
  function TodayRecord(m: map<Id, Attendance>, n: nat, studentId: Id, now: Time, tz: int): Option<Id> {
    FindFirst(m, n, (a: Attendance) => a.studentId == studentId &&
                                       StartOfDay(now, tz) <= a.date <= EndOfDay(now, tz))
  }

  /** The clock POST at server time `now`, as a function of the collection
      and the id counter. The record is found or created first; only then is
      the action read. */
  function Clock(m: map<Id, Attendance>, n: nat, studentId: Id, action: string,
                 imageData: Option<string>, shiftType: Option<string>, now: Time, tz: int)
    : Outcome<Attendance, ClockReply>
  {
    var found := TodayRecord(m, n, studentId, now, tz);
    var shift := ParseShiftType(shiftType.GetOr("regular"));
    if found.None? && shift.None? then
      Outcome(Fail(500, "Failed to record attendance"), m, n)
    else
      var id := if found.Some? then found.value else n;
      var m1 := if found.Some? then m else m[n := NewAttendance(studentId, now, shift.value)];
      var n1 := if found.Some? then n else n + 1;
      var slot := ParseSlot(action);
      if slot.None? then
        Outcome(Fail(400, "Invalid action"), m1, n1)
      else
        var a := SetSlot(m1[id], slot.value, now, imageData);
        var saved := a.(totalHours := CalculateTotalHours(a));
        Outcome(Ok(ClockReply(saved, now)), m1[id := saved], n1)
  }

  /** The clock POST on the database. */
  method ClockAction(db: Db, studentId: Id, action: string, imageData: Option<string>,
                     shiftType: Option<string>, now: Time, tz: int)
    returns (r: Response<ClockReply>)
    requires db.Valid()
    modifies db`attendance, db`nextId
    ensures db.Valid()
    ensures Clock(old(db.attendance), old(db.nextId), studentId, action, imageData, shiftType, now, tz)
            == Outcome(r, db.attendance, db.nextId)
  {
    ghost var m0, n0 := db.attendance, db.nextId;
    ClockKeepsIndex(m0, n0, studentId, action, imageData, shiftType, now, tz);
    var found := TodayRecord(db.attendance, db.nextId, studentId, now, tz);
    var id: Id;
    if found.None? {
      var shift := ParseShiftType(if shiftType.Some? then shiftType.value else "regular");
      if shift.None? {
        return Fail(500, "Failed to record attendance");
      }
      id := db.nextId;
      db.attendance := db.attendance[id := NewAttendance(studentId, now, shift.value)];
      db.nextId := db.nextId + 1;
    } else {
      id := found.value;
    }
    var slot := ParseSlot(action);
    if slot.None? {
      return Fail(400, "Invalid action");
    }
    var a := SetSlot(db.attendance[id], slot.value, now, imageData);
    a := a.(totalHours := CalculateTotalHours(a));
    db.attendance := db.attendance[id := a];
    r := Ok(ClockReply(a, now));
  }

  /** A clock POST keeps the (studentId, date) index and the id bound: a
      record it creates carries the server time, and any record of the same
      student with that date would have been found instead. */
  lemma {:induction false} ClockKeepsIndex(m: map<Id, Attendance>, n: nat, studentId: Id, action: string,
                                           imageData: Option<string>, shiftType: Option<string>, now: Time, tz: int)
    requires UniqueStudentDate(m) && Below(m, n)
    ensures var o := Clock(m, n, studentId, action, imageData, shiftType, now, tz);
            UniqueStudentDate(o.docs) && Below(o.docs, o.nextId) && o.nextId >= n
  {
    var found := TodayRecord(m, n, studentId, now, tz);
    if found.None? {
      forall j | j in m && m[j].studentId == studentId
        ensures m[j].date != now
      {
        assert j < n;
      }
    }
  }

  /** A successful clock POST writes exactly the named timestamp (server
      time) and its photo, changes no other clock field of the record it
      touches, and leaves the total consistent with the clock fields. */
  lemma {:induction false} ClockSetsSlot(m: map<Id, Attendance>, n: nat, studentId: Id, action: string,
                                         imageData: Option<string>, shiftType: Option<string>, now: Time, tz: int)
    requires ParseSlot(action).Some?
    ensures var o := Clock(m, n, studentId, action, imageData, shiftType, now, tz);
            var s := ParseSlot(action).value;
            o.response.Ok? ==>
              var rec := o.response.value.attendance;
              var before := TodayRecord(m, n, studentId, now, tz);
              var prior := if before.Some? then m[before.value]
                           else NewAttendance(studentId, now, ParseShiftType(shiftType.GetOr("regular")).value);
              TimeAt(rec, s) == Some(now) && ImageAt(rec, s) == imageData &&
              (forall o' :: o' != s ==> TimeAt(rec, o') == TimeAt(prior, o') && ImageAt(rec, o') == ImageAt(prior, o')) &&
              rec.studentId == prior.studentId && rec.date == prior.date && HoursConsistent(rec)
  {
  }

  /** Today's record is reused: when the student already has a record in the
      local day of `now`, no record is created and only that one changes. */
  lemma {:induction false} ClockReusesToday(m: map<Id, Attendance>, n: nat, studentId: Id, action: string,
                                            imageData: Option<string>, shiftType: Option<string>, now: Time, tz: int,
                                            id: Id)
    requires Below(m, n)
    requires id in m && m[id].studentId == studentId && LocalDay(m[id].date, tz) == LocalDay(now, tz)
    ensures var o := Clock(m, n, studentId, action, imageData, shiftType, now, tz);
            o.nextId == n && o.docs.Keys == m.Keys &&
            exists k :: k in m && (forall j :: j in m && j != k ==> o.docs[j] == m[j])
  {
    DayWindow(now, m[id].date, tz);
    var found := TodayRecord(m, n, studentId, now, tz);
    if found.None? {
      assert false;
    }
    var k := found.value;
    var o := Clock(m, n, studentId, action, imageData, shiftType, now, tz);
    assert forall j :: j in m && j != k ==> o.docs[j] == m[j];
  }

  /** Otherwise a record is created for the student, dated at the server
      time, with the requested shift (regular when none is sent). */
  lemma {:induction false} ClockCreatesRecord(m: map<Id, Attendance>, n: nat, studentId: Id, action: string,
                                              imageData: Option<string>, shiftType: Option<string>, now: Time, tz: int)
    requires Below(m, n)
    requires forall j :: j in m && m[j].studentId == studentId ==> LocalDay(m[j].date, tz) != LocalDay(now, tz)
    requires ParseShiftType(shiftType.GetOr("regular")).Some?
    ensures var o := Clock(m, n, studentId, action, imageData, shiftType, now, tz);
            o.nextId == n + 1 && o.docs.Keys == m.Keys + {n} &&
            (forall j :: j in m ==> o.docs[j] == m[j]) &&
            o.docs[n].studentId == studentId && o.docs[n].date == now &&
            Some(o.docs[n].shiftType) == ParseShiftType(shiftType.GetOr("regular"))
  {
    var found := TodayRecord(m, n, studentId, now, tz);
    if found.Some? {
      DayWindow(now, m[found.value].date, tz);
      assert false;
    }
  }

  /** An unknown action is rejected with 400 and sets no field, but the
      find-or-create has already run: on a fresh day an empty record stays. */
  lemma {:induction false} InvalidActionLeavesEmptyRecord(m: map<Id, Attendance>, n: nat, studentId: Id, action: string,
                                                          imageData: Option<string>, now: Time, tz: int)
    requires ParseSlot(action).None?
    requires TodayRecord(m, n, studentId, now, tz).None?
    ensures var o := Clock(m, n, studentId, action, imageData, None, now, tz);
            o.response == Fail(400, "Invalid action") &&
            o.docs == m[n := NewAttendance(studentId, now, Regular)] && o.nextId == n + 1
  {
  }

  /** With a record for today, an unknown action changes nothing. */
  lemma {:induction false} InvalidActionOnExistingDay(m: map<Id, Attendance>, n: nat, studentId: Id, action: string,
                                                      imageData: Option<string>, shiftType: Option<string>, now: Time, tz: int)
    requires ParseSlot(action).None?
    requires TodayRecord(m, n, studentId, now, tz).Some?
    ensures Clock(m, n, studentId, action, imageData, shiftType, now, tz) == Outcome(Fail(400, "Invalid action"), m, n)
  {
  }

  /** A shift the attendance schema does not know (`custom`, which a schedule
      approval can give a student) makes the first clock of the day fail
      with 500 and store nothing. */
  lemma {:induction false} UnknownShiftFails(m: map<Id, Attendance>, n: nat, studentId: Id, action: string,
                                             imageData: Option<string>, now: Time, tz: int)
    requires TodayRecord(m, n, studentId, now, tz).None?
    ensures Clock(m, n, studentId, action, imageData, Some("custom"), now, tz)
            == Outcome(Fail(500, "Failed to record attendance"), m, n)
  {
  }

  /** Two successful clock actions on the same local day touch one record:
      the second creates nothing. */
  lemma {:induction false} SameDayNoSecondRecord(m: map<Id, Attendance>, n: nat, studentId: Id,
                                                 a1: string, i1: Option<string>, s1: Option<string>, t1: Time,
                                                 a2: string, i2: Option<string>, s2: Option<string>, t2: Time, tz: int)
    requires Below(m, n)
    requires LocalDay(t1, tz) == LocalDay(t2, tz)
    requires Clock(m, n, studentId, a1, i1, s1, t1, tz).response.Ok?
    ensures var o1 := Clock(m, n, studentId, a1, i1, s1, t1, tz);
            var o2 := Clock(o1.docs, o1.nextId, studentId, a2, i2, s2, t2, tz);
            o2.nextId == o1.nextId && o2.docs.Keys == o1.docs.Keys
  {
    var o1 := Clock(m, n, studentId, a1, i1, s1, t1, tz);
    var found := TodayRecord(m, n, studentId, t1, tz);
    var id := if found.Some? then found.value else n;
    assert id in o1.docs && o1.docs[id].studentId == studentId;
    DayWindow(t1, o1.docs[id].date, tz);
    ClockReusesToday(o1.docs, o1.nextId, studentId, a2, i2, s2, t2, tz, id);
  }

  /** Repeating an action later the same day overwrites the earlier
      timestamp and photo. */
  lemma {:induction false} RepeatOverwrites(m: map<Id, Attendance>, n: nat, studentId: Id, action: string,
                                            i1: Option<string>, t1: Time, i2: Option<string>, t2: Time,
                                            shiftType: Option<string>, tz: int)
    requires Below(m, n) && UniqueStudentDate(m)
    requires LocalDay(t1, tz) == LocalDay(t2, tz)
    requires ParseSlot(action).Some?
    requires Clock(m, n, studentId, action, i1, shiftType, t1, tz).response.Ok?
    ensures var o1 := Clock(m, n, studentId, action, i1, shiftType, t1, tz);
            var o2 := Clock(o1.docs, o1.nextId, studentId, action, i2, shiftType, t2, tz);
            o2.response.Ok? &&
            TimeAt(o2.response.value.attendance, ParseSlot(action).value) == Some(t2) &&
            ImageAt(o2.response.value.attendance, ParseSlot(action).value) == i2
  {
    var o1 := Clock(m, n, studentId, action, i1, shiftType, t1, tz);
    var found := TodayRecord(m, n, studentId, t1, tz);
    var id := if found.Some? then found.value else n;
    assert id in o1.docs && o1.docs[id].studentId == studentId;
    DayWindow(t1, o1.docs[id].date, tz);
    DayWindow(t2, o1.docs[id].date, tz);
    ClockKeepsIndex(m, n, studentId, action, i1, shiftType, t1, tz);
    var again := TodayRecord(o1.docs, o1.nextId, studentId, t2, tz);
    assert again.Some?;
  }

  // ---------------------------------------------------------------------
  // PUT: corrections

  /** The `updates` of a correction: each field present is set. A clock
      time, photo or the remarks may be sent as null, which clears it:
      Some(None). The
      shift type and the status are the texts sent, which the update does
      not check against their enums. */
  datatype AttendancePatch = AttendancePatch(
    studentId: Option<Id>,
    date: Option<Time>,
    morningIn: Option<Option<Time>>,
    morningOut: Option<Option<Time>>,
    afternoonIn: Option<Option<Time>>,
    afternoonOut: Option<Option<Time>>,
    eveningIn: Option<Option<Time>>,
    eveningOut: Option<Option<Time>>,
    morningInImage: Option<Option<string>>,
    morningOutImage: Option<Option<string>>,
    afternoonInImage: Option<Option<string>>,
    afternoonOutImage: Option<Option<string>>,
    eveningInImage: Option<Option<string>>,
    eveningOutImage: Option<Option<string>>,
    shiftType: Option<string>,
    totalHours: Option<int>,
    undertimeMinutes: Option<int>,
    status: Option<string>,
    remarks: Option<Option<string>>)

  /** The patch's entry for a slot's timestamp. */
  function PatchTimeAt(p: AttendancePatch, s: Slot): Option<Option<Time>> {
    match s
    case MorningIn => p.morningIn
    case MorningOut => p.morningOut
    case AfternoonIn => p.afternoonIn
    case AfternoonOut => p.afternoonOut
    case EveningIn => p.eveningIn
    case EveningOut => p.eveningOut
  }

  /** The patch's entry for a slot's photo. */
  function PatchImageAt(p: AttendancePatch, s: Slot): Option<Option<string>> {
    match s
    case MorningIn => p.morningInImage
    case MorningOut => p.morningOutImage
    case AfternoonIn => p.afternoonInImage
    case AfternoonOut => p.afternoonOutImage
    case EveningIn => p.eveningInImage
    case EveningOut => p.eveningOutImage
  }

  /** Whether the patch names a shift type or a status outside its enum. */
  predicate BadEnum(p: AttendancePatch) {
    (p.shiftType.Some? && ParseShiftType(p.shiftType.value).None?) ||
    (p.status.Some? && ParseStatus(p.status.value).None?)
  }

  /** `$set: updates` on one record: every field the patch names is
      written. A shift type or status outside its enum cannot be held by the
      record and leaves the stored one. */
  function ApplyPatch(a: Attendance, p: AttendancePatch): (b: Attendance)
    ensures b.studentId == p.studentId.GetOr(a.studentId) && b.date == p.date.GetOr(a.date)
    ensures forall s :: TimeAt(b, s) == PatchTimeAt(p, s).GetOr(TimeAt(a, s))
    ensures forall s :: ImageAt(b, s) == PatchImageAt(p, s).GetOr(ImageAt(a, s))
    ensures p.shiftType.Some? && ParseShiftType(p.shiftType.value).Some? ==>
              ShiftTypeName(b.shiftType) == p.shiftType.value
    ensures p.shiftType.None? || ParseShiftType(p.shiftType.value).None? ==> b.shiftType == a.shiftType
    ensures p.status.Some? && ParseStatus(p.status.value).Some? ==> StatusName(b.status) == p.status.value
    ensures p.status.None? || ParseStatus(p.status.value).None? ==> b.status == a.status
    ensures b.totalHours == p.totalHours.GetOr(a.totalHours)
    ensures b.undertimeMinutes == p.undertimeMinutes.GetOr(a.undertimeMinutes)
    ensures b.remarks == p.remarks.GetOr(a.remarks)
  {
    var shift := if p.shiftType.Some? then ParseShiftType(p.shiftType.value) else None;
    var status := if p.status.Some? then ParseStatus(p.status.value) else None;
    Attendance(p.studentId.GetOr(a.studentId), p.date.GetOr(a.date),
               p.morningIn.GetOr(a.morningIn), p.morningOut.GetOr(a.morningOut),
               p.afternoonIn.GetOr(a.afternoonIn), p.afternoonOut.GetOr(a.afternoonOut),
               p.eveningIn.GetOr(a.eveningIn), p.eveningOut.GetOr(a.eveningOut),
               p.morningInImage.GetOr(a.morningInImage), p.morningOutImage.GetOr(a.morningOutImage),
               p.afternoonInImage.GetOr(a.afternoonInImage), p.afternoonOutImage.GetOr(a.afternoonOutImage),
               p.eveningInImage.GetOr(a.eveningInImage), p.eveningOutImage.GetOr(a.eveningOutImage),
               shift.GetOr(a.shiftType), p.totalHours.GetOr(a.totalHours),
               p.undertimeMinutes.GetOr(a.undertimeMinutes), status.GetOr(a.status),
               p.remarks.GetOr(a.remarks))
  }

  /** Whether another record than `id` already holds this (studentId, date). */
  predicate Collides(m: map<Id, Attendance>, id: Id, a: Attendance) {
    exists j :: j in m && j != id && m[j].studentId == a.studentId && m[j].date == a.date
  }

  /** The correction PUT: an absent or unknown id is 404; an update that
      would break the (studentId, date) index is refused by the database
      (500, nothing written). Otherwise `findByIdAndUpdate` writes the
      fields; `save` then recomputes the total, but fails (500) on a shift
      type or status outside its enum, after the write. */
  function Correct(m: map<Id, Attendance>, attendanceId: Option<Id>, p: AttendancePatch)
    : Outcome<Attendance, Attendance>
  {
    if attendanceId.None? || attendanceId.value !in m then
      Outcome(Fail(404, "Attendance record not found"), m, 0)
    else
      var id := attendanceId.value;
      var a := ApplyPatch(m[id], p);
      if Collides(m, id, a) then Outcome(Fail(500, "Failed to update attendance"), m, 0)
      else if BadEnum(p) then Outcome(Fail(500, "Failed to update attendance"), m[id := a], 0)
      else
        var saved := a.(totalHours := CalculateTotalHours(a));
        Outcome(Ok(saved), m[id := saved], 0)
  }

  /** A correction is refused with 404 exactly for an unknown id; a clash
      with another record of the same student and date changes nothing; a
      text outside an enum is a 500 that leaves the written fields stored;
      a success stores the patched record, whose total then agrees with its
      clock fields whatever total the patch carried. The unique index
      survives every case. */
  lemma {:induction false} CorrectSpec(m: map<Id, Attendance>, attendanceId: Option<Id>, p: AttendancePatch)
    requires UniqueStudentDate(m)
    ensures var o := Correct(m, attendanceId, p);
            UniqueStudentDate(o.docs) &&
            (o.response.Fail? && o.response.status == 404 <==> attendanceId.None? || attendanceId.value !in m) &&
            (o.response.Fail? && o.response.status == 404 ==> o.docs == m) &&
            (attendanceId.Some? && attendanceId.value in m ==>
               var id := attendanceId.value;
               var a := ApplyPatch(m[id], p);
               (Collides(m, id, a) ==> o.response.Fail? && o.docs == m) &&
               (!Collides(m, id, a) && BadEnum(p) ==>
                  o.response.Fail? && o.response.status == 500 && o.docs == m[id := a]) &&
               (o.response.Ok? <==> !Collides(m, id, a) && !BadEnum(p)) &&
               (o.response.Ok? ==> o.docs == m[id := o.response.value] &&
                                   o.response.value == a.(totalHours := o.response.value.totalHours) &&
                                   HoursConsistent(o.response.value)))
  {
    if attendanceId.Some? && attendanceId.value in m {
      var id := attendanceId.value;
      var a := ApplyPatch(m[id], p);
      if !Collides(m, id, a) {
        var m' := m[id := a];
        forall i, j | i in m' && j in m' && i != j
          ensures m'[i].studentId != m'[j].studentId || m'[i].date != m'[j].date
        {
          if i != id && j != id {
            assert m'[i] == m[i] && m'[j] == m[j];
          }
        }
      }
    }
  }

  /** The correction PUT on the database. */
  method CorrectAttendance(db: Db, attendanceId: Option<Id>, updates: AttendancePatch)
    returns (r: Response<Attendance>)
    requires db.Valid()
    modifies db`attendance
    ensures db.Valid()
    ensures var o := Correct(old(db.attendance), attendanceId, updates);
            r == o.response && db.attendance == o.docs
  {
    CorrectSpec(db.attendance, attendanceId, updates);
    if attendanceId.None? || attendanceId.value !in db.attendance {
      return Fail(404, "Attendance record not found");
    }
    var id := attendanceId.value;
    var a := ApplyPatch(db.attendance[id], updates);
    if Collides(db.attendance, id, a) {
      return Fail(500, "Failed to update attendance");
    }
    db.attendance := db.attendance[id := a];
    if BadEnum(updates) {
      return Fail(500, "Failed to update attendance");
    }
    a := a.(totalHours := CalculateTotalHours(a));
    db.attendance := db.attendance[id := a];
    r := Ok(a);
  }

  // ---------------------------------------------------------------------
  // GET: day and month queries

  /** The Mongo query GET builds: an optional student and an optional
      inclusive date range. */
  datatype AttendanceQuery = AttendanceQuery(studentId: Option<Id>, range: Option<(Time, Time)>)

  /** The query of the GET handler. `date` is the instant the date parameter
      parses to; `month` and `year` are the parsed parameters, present only
      when both are given. The month range is assigned after the day range,
      so it replaces it. */
  function BuildQuery(studentId: Option<Id>, date: Option<Time>, month: Option<int>, year: Option<int>, tz: int)
    : AttendanceQuery
  {
    var range :=
      if month.Some? && year.Some? then
        Some((StartOfMonth(year.value, month.value, tz), EndOfMonth(year.value, month.value, tz)))
      else if date.Some? then Some((StartOfDay(date.value, tz), EndOfDay(date.value, tz)))
      else None;
    AttendanceQuery(studentId, range)
  }

  predicate Matches(q: AttendanceQuery, a: Attendance) {
    (q.studentId.None? || a.studentId == q.studentId.value) &&
    (q.range.None? || q.range.value.0 <= a.date <= q.range.value.1)
  }

  predicate NewerOrSame(a: Attendance, b: Attendance) {
    a.date >= b.date
  }

  /** `Attendance.find(query).sort({ date: -1 })`. */
  function Find(m: map<Id, Attendance>, n: nat, q: AttendanceQuery): seq<Attendance> {
    Query(m, n, (a: Attendance) => Matches(q, a), NewerOrSame)
  }

  /** The GET handler on the database: the query is built field by field,
      then run. */
  method GetAttendance(db: Db, studentId: Option<Id>, date: Option<Time>, month: Option<int>,
                       year: Option<int>, tz: int)
    returns (records: seq<Attendance>)
    ensures records == Find(db.attendance, db.nextId, BuildQuery(studentId, date, month, year, tz))
  {
    var query := AttendanceQuery(None, None);
    if studentId.Some? {
      query := query.(studentId := studentId);
    }
    if date.Some? {
      query := query.(range := Some((StartOfDay(date.value, tz), EndOfDay(date.value, tz))));
    }
    if month.Some? && year.Some? {
      query := query.(range := Some((StartOfMonth(year.value, month.value, tz), EndOfMonth(year.value, month.value, tz))));
    }
    records := Find(db.attendance, db.nextId, query);
  }

  /** With month and year present, the date parameter makes no difference. */
  lemma MonthReplacesDate(studentId: Option<Id>, date: Option<Time>, month: int, year: int, tz: int)
    ensures BuildQuery(studentId, date, Some(month), Some(year), tz)
         == BuildQuery(studentId, None, Some(month), Some(year), tz)
  {
  }

  /** The result holds exactly the stored records that match the query,
      newest first. */
  lemma {:induction false} FindSpec(m: map<Id, Attendance>, n: nat, q: AttendanceQuery)
    ensures var r := Find(m, n, q);
            SortedBy(r, NewerOrSame) &&
            (forall x :: x in r <==> exists j :: j < n && j in m && m[j] == x && Matches(q, x))
  {
    QuerySpec(m, n, (a: Attendance) => Matches(q, a), NewerOrSame);
  }

  /** A day query returns exactly the records of that local day. */
  lemma DayQueryIsLocalDay(studentId: Option<Id>, date: Time, tz: int, a: Attendance)
    ensures Matches(BuildQuery(studentId, Some(date), None, None, tz), a) <==>
            (studentId.None? || a.studentId == studentId.value) && LocalDay(a.date, tz) == LocalDay(date, tz)
  {
    DayWindow(date, a.date, tz);
  }
}
