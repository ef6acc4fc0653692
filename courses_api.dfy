/** The courses route: the active courses in name order, creation with a
    unique code and a default duration, updates and deletion by id. */
module CoursesApi {
  import opened Common
  import opened CourseModel
  import opened Store

  // ---------------------------------------------------------------------
  // GET

  /** The query: active courses, of the given department when the
      parameter is non-empty (None otherwise). */
  predicate CourseMatches(departmentId: Option<Id>, c: Course) {
    c.isActive && (departmentId.None? || c.departmentId == departmentId.value)
  }

  predicate ByCourseName(a: Course, b: Course) {
    LexLe(a.courseName, b.courseName)
  }

  function ListCourses(m: map<Id, Course>, n: nat, departmentId: Option<Id>): seq<Course> {
    Query(m, n, (c: Course) => CourseMatches(departmentId, c), ByCourseName)
  }

  /** The listing is in name order and holds exactly the active courses of
      the department asked for; an inactive course is never offered. */
  lemma {:induction false} ListCoursesSpec(m: map<Id, Course>, n: nat, departmentId: Option<Id>)
    ensures var r := ListCourses(m, n, departmentId);
            SortedBy(r, ByCourseName) &&
            (forall c :: c in r <==>
               (exists j :: j < n && j in m && m[j] == c) && c.isActive &&
               (departmentId.None? || c.departmentId == departmentId.value))
  {
    forall a: Course, b: Course
      ensures ByCourseName(a, b) || ByCourseName(b, a)
    {
      LexTotal(a.courseName, b.courseName);
    }
    QuerySpec(m, n, (c: Course) => CourseMatches(departmentId, c), ByCourseName);
  }

  // ---------------------------------------------------------------------
  // POST

  /** The body's fields; a missing or empty text is None or "". */
  datatype NewCourseBody = NewCourseBody(
    courseCode: Option<string>,
    courseName: Option<string>,
    departmentId: Option<Id>,
    description: Option<string>,
    duration: Option<string>)

  /** Whether a course already holds `code`. */
  predicate CodeTaken(m: map<Id, Course>, code: string) {
    exists j :: j in m && m[j].courseCode == code
  }

  /** The POST handler: the three required fields, then the code's
      uniqueness, then the new course at id `n`, active, with a duration of
      "4 years" unless a non-empty one is given. */
  function CreateCourse(m: map<Id, Course>, n: nat, b: NewCourseBody): Outcome<Course, Course> {
    if !Truthy(b.courseCode) || !Truthy(b.courseName) || b.departmentId.None? then
      Outcome(Fail(400, "Course code, name, and department are required"), m, n)
    else if CodeTaken(m, b.courseCode.value) then Outcome(Fail(400, "Course code already exists"), m, n)
    else
      var c := Course(b.courseCode.value, b.courseName.value, b.departmentId.value, b.description,
                      OrElse(b.duration, DefaultDuration), true);
      Outcome(Ok(c), m[n := c], n + 1)
  }

  /** A created course is active, has the requested code, name and
      department, "4 years" exactly when no duration was given, and a code no
      other course holds; a refusal changes nothing. */
  lemma {:induction false} CreateCourseSpec(m: map<Id, Course>, n: nat, b: NewCourseBody)
    requires Below(m, n) && UniqueCourseCode(m)
    ensures var o := CreateCourse(m, n, b);
            Below(o.docs, o.nextId) && UniqueCourseCode(o.docs) &&
            (o.response.Fail? ==> o.response.status == 400 && o.docs == m && o.nextId == n) &&
            (o.response.Ok? <==> Truthy(b.courseCode) && Truthy(b.courseName) && b.departmentId.Some? &&
                                 !CodeTaken(m, b.courseCode.value)) &&
            (o.response.Ok? ==>
               var c := o.response.value;
               o.docs == m[n := c] && o.nextId == n + 1 && c.isActive &&
               c.courseCode == b.courseCode.value && c.courseName == b.courseName.value &&
               c.departmentId == b.departmentId.value && c.description == b.description &&
               (!Truthy(b.duration) ==> c.duration == DefaultDuration) &&
               (Truthy(b.duration) ==> c.duration == b.duration.value))
  {
    var o := CreateCourse(m, n, b);
    if o.response.Ok? {
      var c := o.response.value;
      forall i, j | i in o.docs && j in o.docs && i != j
        ensures o.docs[i].courseCode != o.docs[j].courseCode
      {
        if i != n && j != n {
          assert o.docs[i] == m[i] && o.docs[j] == m[j];
        } else if i == n {
          assert o.docs[j] == m[j];
        } else {
          assert o.docs[i] == m[i];
        }
      }
    }
  }

  /** A course just created is listed for its department. */
  lemma {:induction false} CreatedCourseListed(m: map<Id, Course>, n: nat, b: NewCourseBody)
    requires Below(m, n) && UniqueCourseCode(m)
    requires CreateCourse(m, n, b).response.Ok?
    ensures var o := CreateCourse(m, n, b);
            o.response.value in ListCourses(o.docs, o.nextId, b.departmentId) &&
            o.response.value in ListCourses(o.docs, o.nextId, None)
  {
    var o := CreateCourse(m, n, b);
    ListCoursesSpec(o.docs, o.nextId, b.departmentId);
    ListCoursesSpec(o.docs, o.nextId, None);
    assert o.docs[n] == o.response.value;
  }

  /** A second course with the same code is refused. */
  lemma {:induction false} SecondCodeRefused(m: map<Id, Course>, n: nat, b: NewCourseBody, b2: NewCourseBody)
    requires Below(m, n) && UniqueCourseCode(m)
    requires CreateCourse(m, n, b).response.Ok?
    requires Truthy(b2.courseName) && b2.departmentId.Some? && b2.courseCode == b.courseCode
    ensures var o := CreateCourse(m, n, b);
            CreateCourse(o.docs, o.nextId, b2).response == Fail(400, "Course code already exists")
  {
    var o := CreateCourse(m, n, b);
    assert o.docs[n].courseCode == b.courseCode.value;
  }

  method CreateCourseRecord(db: Db, b: NewCourseBody) returns (r: Response<Course>)
    requires db.Valid()
    modifies db`courses, db`nextId
    ensures db.Valid()
    ensures CreateCourse(old(db.courses), old(db.nextId), b) == Outcome(r, db.courses, db.nextId)
  {
    CreateCourseSpec(db.courses, db.nextId, b);
    if !Truthy(b.courseCode) || !Truthy(b.courseName) || b.departmentId.None? {
      return Fail(400, "Course code, name, and department are required");
    }
    if CodeTaken(db.courses, b.courseCode.value) {
      return Fail(400, "Course code already exists");
    }
    var course := Course(b.courseCode.value, b.courseName.value, b.departmentId.value, b.description,
                         OrElse(b.duration, DefaultDuration), true);
    db.courses := db.courses[db.nextId := course];
    db.nextId := db.nextId + 1;
    r := Ok(course);
  }

  // ---------------------------------------------------------------------
  // PUT

  /** The PUT handler: `findByIdAndUpdate` with `$set`, unvalidated except
      for the unique index on the code. */
  function UpdateCourse(m: map<Id, Course>, courseId: Option<Id>, updates: CourseFields): Outcome<Course, Course> {
    if courseId.None? then Outcome(Fail(400, "Course ID is required"), m, 0)
    else if courseId.value !in m then Outcome(Fail(404, "Course not found"), m, 0)
    else
      var c := ApplyCourseFields(m[courseId.value], updates);
      if exists j :: j in m && j != courseId.value && m[j].courseCode == c.courseCode then
        Outcome(Fail(500, "Failed to update course"), m, 0)
      else Outcome(Ok(c), m[courseId.value := c], 0)
  }

  /** A found course is replaced by the course with the update's fields
      written onto it, and no other course changes; the update fails with
      500, changing nothing, exactly when the resulting code is held by
      another course; codes stay unique. */
  lemma {:induction false} UpdateCourseSpec(m: map<Id, Course>, courseId: Option<Id>, updates: CourseFields)
    requires UniqueCourseCode(m)
    ensures var o := UpdateCourse(m, courseId, updates);
            UniqueCourseCode(o.docs) && o.docs.Keys == m.Keys &&
            (o.response == Fail(400, "Course ID is required") <==> courseId.None?) &&
            (o.response == Fail(404, "Course not found") <==> courseId.Some? && courseId.value !in m) &&
            (o.response.Fail? ==> o.docs == m) &&
            (courseId.Some? && courseId.value in m ==>
               var c := ApplyCourseFields(m[courseId.value], updates);
               (o.response == Fail(500, "Failed to update course") <==>
                  exists j :: j in m && j != courseId.value && m[j].courseCode == c.courseCode) &&
               (o.response.Ok? <==> !exists j :: j in m && j != courseId.value && m[j].courseCode == c.courseCode)) &&
            (o.response.Ok? ==>
               o.docs == m[courseId.value := o.response.value] &&
               o.response.value == ApplyCourseFields(m[courseId.value], updates) &&
               o.response.value.courseCode == updates.courseCode.GetOr(m[courseId.value].courseCode) &&
               o.response.value.isActive == updates.isActive.GetOr(m[courseId.value].isActive))
  {
    var o := UpdateCourse(m, courseId, updates);
    if o.response.Ok? {
      var id := courseId.value;
      forall i, j | i in o.docs && j in o.docs && i != j
        ensures o.docs[i].courseCode != o.docs[j].courseCode
      {
        if i != id && j != id {
          assert o.docs[i] == m[i] && o.docs[j] == m[j];
        }
      }
    }
  }

  /** Deactivating a course withdraws it from every listing. */
  lemma {:induction false} DeactivatedCourseUnlisted(m: map<Id, Course>, n: nat, id: Id, updates: CourseFields,
                                                     departmentId: Option<Id>)
    requires UniqueCourseCode(m) && Below(m, n)
    requires updates.isActive == Some(false)
    ensures var o := UpdateCourse(m, Some(id), updates);
            o.response.Ok? ==> forall c :: c in ListCourses(o.docs, n, departmentId) ==> c != o.response.value
  {
    UpdateCourseSpec(m, Some(id), updates);
    var o := UpdateCourse(m, Some(id), updates);
    ListCoursesSpec(o.docs, n, departmentId);
  }

  method UpdateCourseRecord(db: Db, courseId: Option<Id>, updates: CourseFields) returns (r: Response<Course>)
    requires db.Valid()
    modifies db`courses
    ensures db.Valid()
    ensures var o := UpdateCourse(old(db.courses), courseId, updates);
            r == o.response && db.courses == o.docs
  {
    UpdateCourseSpec(db.courses, courseId, updates);
    if courseId.None? {
      return Fail(400, "Course ID is required");
    }
    if courseId.value !in db.courses {
      return Fail(404, "Course not found");
    }
    var course := ApplyCourseFields(db.courses[courseId.value], updates);
    if exists j :: j in db.courses && j != courseId.value && db.courses[j].courseCode == course.courseCode {
      return Fail(500, "Failed to update course");
    }
    db.courses := db.courses[courseId.value := course];
    r := Ok(course);
  }

  // ---------------------------------------------------------------------
  // DELETE

  function DeleteCourse(m: map<Id, Course>, courseId: Option<Id>): Outcome<Course, string> {
    if courseId.None? then Outcome(Fail(400, "Course ID is required"), m, 0)
    else if courseId.value !in m then Outcome(Fail(404, "Course not found"), m, 0)
    else Outcome(Ok("Course deleted successfully"), m - {courseId.value}, 0)
  }

  /** Deletion removes exactly the course asked for, and only when it exists. */
  lemma {:induction false} DeleteCourseSpec(m: map<Id, Course>, courseId: Option<Id>)
    ensures var o := DeleteCourse(m, courseId);
            (o.response.Ok? <==> courseId.Some? && courseId.value in m) &&
            (forall k :: k in o.docs <==> k in m && (o.response.Fail? || k != courseId.value)) &&
            (forall k :: k in o.docs ==> o.docs[k] == m[k])
  {
  }

  method DeleteCourseRecord(db: Db, courseId: Option<Id>) returns (r: Response<string>)
    requires db.Valid()
    modifies db`courses
    ensures db.Valid()
    ensures var o := DeleteCourse(old(db.courses), courseId);
            r == o.response && db.courses == o.docs
  {
    if courseId.None? {
      return Fail(400, "Course ID is required");
    }
    if courseId.value !in db.courses {
      return Fail(404, "Course not found");
    }
    db.courses := db.courses - {courseId.value};
    r := Ok("Course deleted successfully");
  }
}
