/** The students route: filtered listing, acceptance by a department,
    profile updates, and deletion together with the login account. */
module StudentsApi {
  import opened Common
  import opened UserModel
  import opened StudentModel
  import opened Store

  // ---------------------------------------------------------------------
  // GET

  /** The query parameters; `isAccepted` and `isActive` are the raw texts,
      None when the parameter is missing. */
  datatype StudentFilter = StudentFilter(
    department: Option<string>,
    isAccepted: Option<string>,
    ojtAdvisor: Option<Id>,
    isActive: Option<string>)

  /** A present flag parameter selects `value === 'true'`, so any other text
      selects the false side. */
  predicate StudentMatches(f: StudentFilter, s: Student) {
    (!Truthy(f.department) || s.department == f.department.value) &&
    (f.isAccepted.None? || s.isAccepted == (f.isAccepted.value == "true")) &&
    (f.ojtAdvisor.None? || s.ojtAdvisor == f.ojtAdvisor) &&
    (f.isActive.None? || s.isActive == (f.isActive.value == "true"))
  }

  function ListStudents(m: map<Id, Student>, n: nat, f: StudentFilter): seq<Student> {
    Select(m, n, (s: Student) => StudentMatches(f, s))
  }

  /** The filters are conjunctive and each applies only when its parameter
      is present (the department only when non-empty): the list holds
      exactly the stored students meeting all present filters, and with no
      filter every stored student. */
  lemma ListStudentsSpec(m: map<Id, Student>, n: nat, f: StudentFilter)
    ensures forall s :: s in ListStudents(m, n, f) <==>
              (exists j :: j < n && j in m && m[j] == s) &&
              (!Truthy(f.department) || s.department == f.department.value) &&
              (f.isAccepted.None? || s.isAccepted == (f.isAccepted.value == "true")) &&
              (f.ojtAdvisor.None? || s.ojtAdvisor == f.ojtAdvisor) &&
              (f.isActive.None? || s.isActive == (f.isActive.value == "true"))
    ensures f == StudentFilter(None, None, None, None) ==>
              forall j :: j < n && j in m ==> m[j] in ListStudents(m, n, f)
  {
  }

  /** A flag parameter that is present but not exactly "true" ("1", "TRUE",
      "yes", "") lists the students whose flag is false. */
  lemma {:induction false} NonTrueFlagSelectsFalse(m: map<Id, Student>, n: nat, f: StudentFilter)
    requires f.isAccepted.Some? && f.isAccepted.value != "true"
    ensures forall s :: s in ListStudents(m, n, f) ==> !s.isAccepted
    ensures forall j :: j < n && j in m && m[j].isAccepted ==> m[j] !in ListStudents(m, n, f)
  {
    forall j | j < n && j in m && m[j].isAccepted
      ensures m[j] !in ListStudents(m, n, f)
    {
      assert !StudentMatches(f, m[j]);
    }
  }

  // ---------------------------------------------------------------------
  // PUT

  /** Whether another student than `id` already holds `s`'s student number. */
  predicate StudentIdTaken(m: map<Id, Student>, id: Id, s: Student) {
    exists j :: j in m && j != id && m[j].studentId == s.studentId
  }

  /** `student.save()`: the schema's validation and the unique index on the
      student number, then the write. */
  function SaveStudent(m: map<Id, Student>, id: Id, s: Student): Outcome<Student, Student> {
    if !ValidStudent(s) || StudentIdTaken(m, id, s) then Outcome(Fail(500, "Failed to update student"), m, 0)
    else Outcome(Ok(s), m[id := s], 0)
  }

  /** The PUT handler. `action == "accept"` sets the flag (and the advisor
      when one is given) and returns at once, so `updates` sent with it are
      ignored; otherwise present `updates` are assigned and saved. */
  function UpdateStudent(m: map<Id, Student>, studentId: Option<Id>, action: Option<string>,
                         ojtAdvisorId: Option<Id>, updates: Option<StudentFields>)
    : Outcome<Student, Student>
  {
    if studentId.None? || studentId.value !in m then Outcome(Fail(404, "Student not found"), m, 0)
    else
      var id := studentId.value;
      var s := m[id];
      if action == Some("accept") then
        SaveStudent(m, id, s.(isAccepted := true, ojtAdvisor := if ojtAdvisorId.Some? then ojtAdvisorId else s.ojtAdvisor))
      else if updates.Some? then
        var u := ApplyStudentFields(s, updates.value);
        if u.None? then Outcome(Fail(500, "Failed to update student"), m, 0)
        else SaveStudent(m, id, u.value)
      else Outcome(Ok(s), m, 0)
  }

  /** 404 exactly for an unknown student; a failure changes nothing; a
      success stores the returned student under its id, with every field
      the updates name (its user too) as given, keeps the unique index, and
      what it stores passes the schema unless nothing was saved. */
  lemma {:induction false} UpdateStudentSpec(m: map<Id, Student>, studentId: Option<Id>, action: Option<string>,
                                             ojtAdvisorId: Option<Id>, updates: Option<StudentFields>)
    requires UniqueStudentId(m)
    ensures var o := UpdateStudent(m, studentId, action, ojtAdvisorId, updates);
            UniqueStudentId(o.docs) &&
            (o.response == Fail(404, "Student not found") <==> studentId.None? || studentId.value !in m) &&
            (o.response.Fail? ==> o.docs == m) &&
            (o.response.Ok? ==> o.docs == m[studentId.value := o.response.value]) &&
            (o.response.Ok? && action != Some("accept") && updates.Some? ==>
               StoresFields(o.response.value, m[studentId.value], updates.value)) &&
            (o.response.Ok? && (action == Some("accept") || updates.Some?) ==> ValidStudent(o.response.value)) &&
            (o.response.Ok? && action != Some("accept") && updates.None? ==> o.docs == m)
  {
    if studentId.Some? && studentId.value in m {
      var id := studentId.value;
      var o := UpdateStudent(m, studentId, action, ojtAdvisorId, updates);
      if o.response.Ok? && (action == Some("accept") || updates.Some?) {
        var s := o.response.value;
        assert !StudentIdTaken(m, id, s);
        forall i, j | i in o.docs && j in o.docs && i != j
          ensures o.docs[i].studentId != o.docs[j].studentId
        {
          if i != id && j != id {
            assert o.docs[i] == m[i] && o.docs[j] == m[j];
          } else if i == id {
            assert m[j].studentId != s.studentId;
          } else {
            assert m[i].studentId != s.studentId;
          }
        }
      }
    }
  }

  /** Acceptance sets the flag and, when given, the advisor, touches no other
      field, and ignores any `updates` in the same request. */
  lemma {:induction false} AcceptIgnoresUpdates(m: map<Id, Student>, id: Id, ojtAdvisorId: Option<Id>,
                                                updates: Option<StudentFields>)
    requires id in m && ValidStudent(m[id]) && UniqueStudentId(m)
    ensures var o := UpdateStudent(m, Some(id), Some("accept"), ojtAdvisorId, updates);
            o == UpdateStudent(m, Some(id), Some("accept"), ojtAdvisorId, None) &&
            o.response.Ok? && o.response.value.isAccepted &&
            o.response.value.ojtAdvisor == (if ojtAdvisorId.Some? then ojtAdvisorId else m[id].ojtAdvisor) &&
            o.response.value.(isAccepted := m[id].isAccepted, ojtAdvisor := m[id].ojtAdvisor) == m[id]
  {
    var s := m[id];
    var a := s.(isAccepted := true, ojtAdvisor := if ojtAdvisorId.Some? then ojtAdvisorId else s.ojtAdvisor);
    assert !StudentIdTaken(m, id, a);
  }

  /** An update that gives a student another's student number is refused. */
  lemma {:induction false} DuplicateStudentNumberRefused(m: map<Id, Student>, id: Id, other: Id, updates: StudentFields)
    requires id in m && other in m && id != other
    requires updates.studentId == Some(m[other].studentId)
    ensures var o := UpdateStudent(m, Some(id), None, None, Some(updates));
            o.response.Fail? && o.response.status == 500 && o.docs == m
  {
    var u := ApplyStudentFields(m[id], updates);
    if u.Some? {
      assert StudentIdTaken(m, id, u.value);
    }
  }

  /** The PUT handler on the database. */
  method UpdateStudentRecord(db: Db, studentId: Option<Id>, action: Option<string>,
                             ojtAdvisorId: Option<Id>, updates: Option<StudentFields>)
    returns (r: Response<Student>)
    requires db.Valid()
    modifies db`students
    ensures db.Valid()
    ensures var o := UpdateStudent(old(db.students), studentId, action, ojtAdvisorId, updates);
            r == o.response && db.students == o.docs
  {
    UpdateStudentSpec(db.students, studentId, action, ojtAdvisorId, updates);
    if studentId.None? || studentId.value !in db.students {
      return Fail(404, "Student not found");
    }
    var id := studentId.value;
    var student := db.students[id];
    if action == Some("accept") {
      student := student.(isAccepted := true);
      if ojtAdvisorId.Some? {
        student := student.(ojtAdvisor := ojtAdvisorId);
      }
      var saved := SaveStudent(db.students, id, student);
      db.students := saved.docs;
      return saved.response;
    }
    if updates.Some? {
      var edited := ApplyStudentFields(student, updates.value);
      if edited.None? {
        return Fail(500, "Failed to update student");
      }
      var saved := SaveStudent(db.students, id, edited.value);
      db.students := saved.docs;
      return saved.response;
    }
    r := Ok(student);
  }

  // ---------------------------------------------------------------------
  // DELETE

  datatype DeleteOutcome = DeleteOutcome(response: Response<string>, students: map<Id, Student>, users: map<Id, User>)

  /** The DELETE handler: the student and the user it belongs to go together. */
  function DeleteStudent(students: map<Id, Student>, users: map<Id, User>, studentId: Option<Id>): DeleteOutcome {
    if studentId.None? then DeleteOutcome(Fail(400, "Student ID required"), students, users)
    else if studentId.value !in students then DeleteOutcome(Fail(404, "Student not found"), students, users)
    else
      DeleteOutcome(Ok("Student deleted successfully"), students - {studentId.value},
                    users - {students[studentId.value].userId})
  }

  /** A missing id is a 400 and an unknown id a 404; neither removes
      anything. */
  lemma DeleteStudentErrors(students: map<Id, Student>, users: map<Id, User>, studentId: Option<Id>)
    requires studentId.None? || studentId.value !in students
    ensures var o := DeleteStudent(students, users, studentId);
            o.response.Fail? && o.students == students && o.users == users &&
            (o.response.status == 400 <==> studentId.None?)
  {
  }

  /** Deleting removes exactly the student and its user account; every other
      student and user stays as it was, and the unique indexes hold. */
  lemma {:induction false} DeleteStudentSpec(students: map<Id, Student>, users: map<Id, User>, id: Id)
    requires id in students && UniqueStudentId(students) && UniqueEmail(users)
    ensures var o := DeleteStudent(students, users, Some(id));
            o.response.Ok? && id !in o.students && students[id].userId !in o.users &&
            (forall k :: k in o.students <==> k in students && k != id) &&
            (forall k :: k in o.users <==> k in users && k != students[id].userId) &&
            (forall k :: k in o.students ==> o.students[k] == students[k]) &&
            (forall k :: k in o.users ==> o.users[k] == users[k]) &&
            UniqueStudentId(o.students) && UniqueEmail(o.users)
  {
  }

  method DeleteStudentRecord(db: Db, studentId: Option<Id>) returns (r: Response<string>)
    requires db.Valid()
    modifies db`students, db`users
    ensures db.Valid()
    ensures DeleteStudent(old(db.students), old(db.users), studentId) == DeleteOutcome(r, db.students, db.users)
  {
    if studentId.None? {
      return Fail(400, "Student ID required");
    }
    if studentId.value !in db.students {
      return Fail(404, "Student not found");
    }
    var student := db.students[studentId.value];
    db.users := db.users - {student.userId};
    db.students := db.students - {studentId.value};
    r := Ok("Student deleted successfully");
  }
}
