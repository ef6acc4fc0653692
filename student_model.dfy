/** The student profile: identity, course placement, shift and the two
    approval flags. */
module StudentModel {
  import opened Common

  datatype ShiftKind = Regular | RegularSplit | Graveyard | Custom

  /** The schema's enum check on a shift type. */
  function ParseShiftKind(s: string): (r: Option<ShiftKind>)
    ensures r.Some? <==> s in {"regular", "regular-split", "graveyard", "custom"}
  {
    match s
    case "regular" => Some(Regular)
    case "regular-split" => Some(RegularSplit)
    case "graveyard" => Some(Graveyard)
    case "custom" => Some(Custom)
    case _ => None
  }

  function ShiftKindName(k: ShiftKind): (s: string)
    ensures ParseShiftKind(s) == Some(k)
  {
    match k
    case Regular => "regular"
    case RegularSplit => "regular-split"
    case Graveyard => "graveyard"
    case Custom => "custom"
  }

  /** A shift configuration. Times are "HH:mm" texts; `kind` is the raw
      `type` text, which the student schema checks against the shift enum
      when the configuration is saved on a student. */
  datatype ShiftConfig = ShiftConfig(
    kind: Option<string>,
    morningStart: Option<string>,
    morningEnd: Option<string>,
    afternoonStart: Option<string>,
    afternoonEnd: Option<string>,
    eveningStart: Option<string>,
    eveningEnd: Option<string>,
    description: Option<string>)

  /** The nested schema's check: a `type` that is present is one of the four
      shift kinds. */
  predicate ValidShiftConfig(c: ShiftConfig) {
    c.kind.None? || ParseShiftKind(c.kind.value).Some?
  }

  datatype Student = Student(
    userId: Id,
    studentId: string,
    firstName: string,
    lastName: string,
    middleName: Option<string>,
    courseId: Id,
    department: string,
    hostEstablishment: string,
    contactNumber: Option<string>,
    emergencyContact: Option<string>,
    emergencyContactNumber: Option<string>,
    address: Option<string>,
    ojtAdvisor: Option<Id>,
    shiftType: ShiftKind,
    shiftConfig: Option<ShiftConfig>,
    isAccepted: bool,
    isActive: bool)

  /** The checks `save` and `create` run: every required text is non-empty
      (a required string rejects ""), and a shift configuration is valid. */
  predicate ValidStudent(s: Student) {
    s.studentId != "" && s.firstName != "" && s.lastName != "" &&
    s.department != "" && s.hostEstablishment != "" &&
    (s.shiftConfig.None? || ValidShiftConfig(s.shiftConfig.value))
  }

  /** The fields a request body may carry for a student (`studentData` at
      registration, `updates` on PUT, `profileData` on the users route);
      an absent field is None. `userId` is among them: the body's spread or
      `Object.assign` copies it like any other field. */
  datatype StudentFields = StudentFields(
    userId: Option<Id>,
    studentId: Option<string>,
    firstName: Option<string>,
    lastName: Option<string>,
    middleName: Option<string>,
    courseId: Option<Id>,
    department: Option<string>,
    hostEstablishment: Option<string>,
    contactNumber: Option<string>,
    emergencyContact: Option<string>,
    emergencyContactNumber: Option<string>,
    address: Option<string>,
    ojtAdvisor: Option<Id>,
    shiftType: Option<string>,
    shiftConfig: Option<ShiftConfig>,
    isAccepted: Option<bool>,
    isActive: Option<bool>)

  function Pick<T>(o: Option<T>, current: T): T {
    if o.Some? then o.value else current
  }

  function PickOpt<T>(o: Option<T>, current: Option<T>): Option<T> {
    if o.Some? then o else current
  }

  /** The shift kind a write leaves: the named kind when the text is one of
      the enum's, the stored kind otherwise. */
  function PickKind(t: Option<string>, current: ShiftKind): ShiftKind {
    if t.Some? && ParseShiftKind(t.value).Some? then ParseShiftKind(t.value).value else current
  }

  /** Every field the data names is stored as given; the other fields keep
      `s`'s values. */
  predicate StoresFields(r: Student, s: Student, p: StudentFields) {
    r.userId == Pick(p.userId, s.userId) && r.studentId == Pick(p.studentId, s.studentId) &&
    r.firstName == Pick(p.firstName, s.firstName) && r.lastName == Pick(p.lastName, s.lastName) &&
    r.middleName == PickOpt(p.middleName, s.middleName) && r.courseId == Pick(p.courseId, s.courseId) &&
    r.department == Pick(p.department, s.department) &&
    r.hostEstablishment == Pick(p.hostEstablishment, s.hostEstablishment) &&
    r.contactNumber == PickOpt(p.contactNumber, s.contactNumber) &&
    r.emergencyContact == PickOpt(p.emergencyContact, s.emergencyContact) &&
    r.emergencyContactNumber == PickOpt(p.emergencyContactNumber, s.emergencyContactNumber) &&
    r.address == PickOpt(p.address, s.address) && r.ojtAdvisor == PickOpt(p.ojtAdvisor, s.ojtAdvisor) &&
    r.shiftType == PickKind(p.shiftType, s.shiftType) && r.shiftConfig == PickOpt(p.shiftConfig, s.shiftConfig) &&
    r.isAccepted == Pick(p.isAccepted, s.isAccepted) && r.isActive == Pick(p.isActive, s.isActive)
  }

  /** `Student.create({ userId, ...data, isAccepted: false })` with the
      schema's defaults and validation; None is a validation error. A
      `userId` in the data overrides the one given, as the spread comes
      after it. */
  function NewStudent(userId: Id, data: StudentFields): (r: Option<Student>)
    ensures r.None? <==>
      data.studentId.GetOr("") == "" || data.firstName.GetOr("") == "" || data.lastName.GetOr("") == "" ||
      data.courseId.None? || data.department.GetOr("") == "" || data.hostEstablishment.GetOr("") == "" ||
      (data.shiftType.Some? && ParseShiftKind(data.shiftType.value).None?) ||
      (data.shiftConfig.Some? && !ValidShiftConfig(data.shiftConfig.value))
    ensures r.Some? ==> ValidStudent(r.value) && r.value.userId == data.userId.GetOr(userId)
    ensures r.Some? ==> !r.value.isAccepted && r.value.isActive == data.isActive.GetOr(true)
    ensures r.Some? ==> Some(r.value.shiftType) == (if data.shiftType.Some? then ParseShiftKind(data.shiftType.value) else Some(Regular))
    ensures r.Some? ==>
              r.value.studentId == data.studentId.value && r.value.firstName == data.firstName.value &&
              r.value.lastName == data.lastName.value && r.value.middleName == data.middleName &&
              r.value.courseId == data.courseId.value && r.value.department == data.department.value &&
              r.value.hostEstablishment == data.hostEstablishment.value &&
              r.value.contactNumber == data.contactNumber && r.value.emergencyContact == data.emergencyContact &&
              r.value.emergencyContactNumber == data.emergencyContactNumber && r.value.address == data.address &&
              r.value.ojtAdvisor == data.ojtAdvisor && r.value.shiftConfig == data.shiftConfig
  {
    if data.studentId.GetOr("") == "" || data.firstName.GetOr("") == "" || data.lastName.GetOr("") == ""
       || data.courseId.None? || data.department.GetOr("") == "" || data.hostEstablishment.GetOr("") == ""
    then None
    else
      var kind := if data.shiftType.Some? then ParseShiftKind(data.shiftType.value) else Some(Regular);
      if kind.None? || (data.shiftConfig.Some? && !ValidShiftConfig(data.shiftConfig.value)) then None
      else Some(Student(data.userId.GetOr(userId), data.studentId.value, data.firstName.value,
                        data.lastName.value, data.middleName, data.courseId.value, data.department.value,
                        data.hostEstablishment.value, data.contactNumber, data.emergencyContact,
                        data.emergencyContactNumber, data.address, data.ojtAdvisor, kind.value,
                        data.shiftConfig, false, data.isActive.GetOr(true)))
  }

  /** `$set` of the given fields onto a student, without validation: every
      field the data names is written, a required text even when empty. */
  function SetStudentFields(s: Student, p: StudentFields): (r: Student)
    ensures StoresFields(r, s, p)
  {
    Student(Pick(p.userId, s.userId), Pick(p.studentId, s.studentId), Pick(p.firstName, s.firstName),
            Pick(p.lastName, s.lastName), PickOpt(p.middleName, s.middleName),
            Pick(p.courseId, s.courseId), Pick(p.department, s.department),
            Pick(p.hostEstablishment, s.hostEstablishment),
            PickOpt(p.contactNumber, s.contactNumber),
            PickOpt(p.emergencyContact, s.emergencyContact),
            PickOpt(p.emergencyContactNumber, s.emergencyContactNumber),
            PickOpt(p.address, s.address), PickOpt(p.ojtAdvisor, s.ojtAdvisor),
            PickKind(p.shiftType, s.shiftType), PickOpt(p.shiftConfig, s.shiftConfig),
            Pick(p.isAccepted, s.isAccepted), Pick(p.isActive, s.isActive))
  }

  /** Writing the same fields twice stores what writing them once does, and
      writing no field changes nothing. */
  lemma {:induction false} SetStudentFieldsIdempotent(s: Student, p: StudentFields)
    ensures SetStudentFields(SetStudentFields(s, p), p) == SetStudentFields(s, p)
    ensures SetStudentFields(s, NoStudentFields()) == s
  {
    var r := SetStudentFields(s, p);
    var r2 := SetStudentFields(r, p);
    assert StoresFields(r2, r, p) && StoresFields(r, s, p);
    assert r2.shiftType == r.shiftType;
  }

  /** `Object.assign(student, updates)` followed by `save`: the fields are
      written as `$set` writes them, and a shift type outside the enum
      makes the save fail (None). */
  function ApplyStudentFields(s: Student, p: StudentFields): (r: Option<Student>)
    ensures r.None? <==> p.shiftType.Some? && ParseShiftKind(p.shiftType.value).None?
    ensures r.Some? ==> StoresFields(r.value, s, p)
    ensures r.Some? && p.shiftType.Some? ==> ShiftKindName(r.value.shiftType) == p.shiftType.value
  {
    if p.shiftType.Some? && ParseShiftKind(p.shiftType.value).None? then None
    else Some(SetStudentFields(s, p))
  }

  function NoStudentFields(): StudentFields {
    StudentFields(None, None, None, None, None, None, None, None, None, None, None, None, None, None, None, None, None)
  }

  /** The unique index on `studentId`. */
  predicate UniqueStudentId(m: map<Id, Student>) {
    forall i, j :: i in m && j in m && i != j ==> m[i].studentId != m[j].studentId
  }
}
