/** The attendance record of one student for one day: its six clock
    timestamps with their photos, the shift, the status and the hours worked. */
module AttendanceModel {
  import opened Common

  datatype ShiftType = Regular | Graveyard

  /** The schema's enum check on `shiftType`. */
  function ParseShiftType(s: string): (r: Option<ShiftType>)
    ensures r.Some? <==> s == "regular" || s == "graveyard"
  {
    if s == "regular" then Some(Regular)
    else if s == "graveyard" then Some(Graveyard)
    else None
  }

  function ShiftTypeName(t: ShiftType): (s: string)
    ensures ParseShiftType(s) == Some(t)
  {
    match t
    case Regular => "regular"
    case Graveyard => "graveyard"
  }

  datatype Status = Present | Absent | Late | HalfDay

  /** The schema's enum check on `status`. */
  function ParseStatus(s: string): (r: Option<Status>)
    ensures r.Some? <==> s in {"present", "absent", "late", "half_day"}
  {
    match s
    case "present" => Some(Present)
    case "absent" => Some(Absent)
    case "late" => Some(Late)
    case "half_day" => Some(HalfDay)
    case _ => None
  }

  function StatusName(s: Status): (name: string)
    ensures ',' !in name && '\n' !in name && '"' !in name
    ensures ParseStatus(name) == Some(s)
  {
    match s
    case Present => "present"
    case Absent => "absent"
    case Late => "late"
    case HalfDay => "half_day"
  }

  /** The six clock events, each named by the field it fills. */
  datatype Slot = MorningIn | MorningOut | AfternoonIn | AfternoonOut | EveningIn | EveningOut

  /** The `action` of a clock request, as the POST handler's switch reads it. */
  function ParseSlot(action: string): (r: Option<Slot>)
    ensures r.Some? <==> action in {"morningIn", "morningOut", "afternoonIn", "afternoonOut", "eveningIn", "eveningOut"}
  {
    match action
    case "morningIn" => Some(MorningIn)
    case "morningOut" => Some(MorningOut)
    case "afternoonIn" => Some(AfternoonIn)
    case "afternoonOut" => Some(AfternoonOut)
    case "eveningIn" => Some(EveningIn)
    case "eveningOut" => Some(EveningOut)
    case _ => None
  }

  function SlotName(s: Slot): (action: string)
    ensures ParseSlot(action) == Some(s)
  {
    match s
    case MorningIn => "morningIn"
    case MorningOut => "morningOut"
    case AfternoonIn => "afternoonIn"
    case AfternoonOut => "afternoonOut"
    case EveningIn => "eveningIn"
    case EveningOut => "eveningOut"
  }

  /** An attendance document. `totalHours` is held as a whole number of
      hundredths of an hour, the precision `toFixed(2)` leaves. */
  datatype Attendance = Attendance(
    studentId: Id,
    date: Time,
    morningIn: Option<Time>,
    morningOut: Option<Time>,
    afternoonIn: Option<Time>,
    afternoonOut: Option<Time>,
    eveningIn: Option<Time>,
    eveningOut: Option<Time>,
    morningInImage: Option<string>,
    morningOutImage: Option<string>,
    afternoonInImage: Option<string>,
    afternoonOutImage: Option<string>,
    eveningInImage: Option<string>,
    eveningOutImage: Option<string>,
    shiftType: ShiftType,
    totalHours: int,
    undertimeMinutes: int,
    status: Status,
    remarks: Option<string>)

  /** The document `Attendance.create({ studentId, date, shiftType })` stores:
      every clock field unset, and the schema defaults elsewhere. */
  function NewAttendance(studentId: Id, date: Time, shiftType: ShiftType): (a: Attendance)
    ensures a.studentId == studentId && a.date == date && a.shiftType == shiftType
    ensures forall s :: TimeAt(a, s).None? && ImageAt(a, s).None?
    ensures a.totalHours == 0 && a.undertimeMinutes == 0 && a.status == Present && a.remarks.None?
  {
    Attendance(studentId, date, None, None, None, None, None, None,
               None, None, None, None, None, None, shiftType, 0, 0, Present, None)
  }

  /** The timestamp field that a slot names. */
  function TimeAt(a: Attendance, s: Slot): Option<Time> {
    match s
    case MorningIn => a.morningIn
    case MorningOut => a.morningOut
    case AfternoonIn => a.afternoonIn
    case AfternoonOut => a.afternoonOut
    case EveningIn => a.eveningIn
    case EveningOut => a.eveningOut
  }

  /** The photo field paired with a slot's timestamp. */
  function ImageAt(a: Attendance, s: Slot): Option<string> {
    match s
    case MorningIn => a.morningInImage
    case MorningOut => a.morningOutImage
    case AfternoonIn => a.afternoonInImage
    case AfternoonOut => a.afternoonOutImage
    case EveningIn => a.eveningInImage
    case EveningOut => a.eveningOutImage
  }

  /** One case of the clock switch: the slot's timestamp and its photo are
      written, and no other field of the record changes. */
  function SetSlot(a: Attendance, s: Slot, t: Time, image: Option<string>): (b: Attendance)
    ensures TimeAt(b, s) == Some(t) && ImageAt(b, s) == image
    ensures forall o :: o != s ==> TimeAt(b, o) == TimeAt(a, o) && ImageAt(b, o) == ImageAt(a, o)
    ensures b.studentId == a.studentId && b.date == a.date && b.shiftType == a.shiftType
    ensures b.totalHours == a.totalHours && b.undertimeMinutes == a.undertimeMinutes
    ensures b.status == a.status && b.remarks == a.remarks
  {
    match s
    case MorningIn => a.(morningIn := Some(t), morningInImage := image)
    case MorningOut => a.(morningOut := Some(t), morningOutImage := image)
    case AfternoonIn => a.(afternoonIn := Some(t), afternoonInImage := image)
    case AfternoonOut => a.(afternoonOut := Some(t), afternoonOutImage := image)
    case EveningIn => a.(eveningIn := Some(t), eveningInImage := image)
    case EveningOut => a.(eveningOut := Some(t), eveningOutImage := image)
  }

  /** The unique index on (studentId, date): no two documents share both. */
  predicate UniqueStudentDate(m: map<Id, Attendance>) {
    forall i, j :: i in m && j in m && i != j ==>
      m[i].studentId != m[j].studentId || m[i].date != m[j].date
  }

  function HoursOf(a: Attendance): int {
    a.totalHours
  }

  /** `records.reduce((sum, a) => sum + (a.totalHours || 0), 0)`, in
      hundredths of an hour. */
  function SumHours(records: seq<Attendance>): int {
    Sum(records, HoursOf)
  }
}
