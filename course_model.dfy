/** A course offered by a department. */
module CourseModel {
  import opened Common

  const DefaultDuration := "4 years"

  datatype Course = Course(
    courseCode: string,
    courseName: string,
    departmentId: Id,
    description: Option<string>,
    duration: string,
    isActive: bool)

  /** The fields of an update; absent is None. */
  datatype CourseFields = CourseFields(
    courseCode: Option<string>,
    courseName: Option<string>,
    departmentId: Option<Id>,
    description: Option<string>,
    duration: Option<string>,
    isActive: Option<bool>)

  /** `$set` of the given fields, without validation: every field the
      update names takes the given value, the others are kept. */
  function ApplyCourseFields(c: Course, p: CourseFields): (r: Course)
    ensures r.courseCode == p.courseCode.GetOr(c.courseCode)
    ensures r.courseName == p.courseName.GetOr(c.courseName)
    ensures r.departmentId == p.departmentId.GetOr(c.departmentId)
    ensures r.description == (if p.description.Some? then p.description else c.description)
    ensures r.duration == p.duration.GetOr(c.duration)
    ensures r.isActive == p.isActive.GetOr(c.isActive)
    ensures p == CourseFields(None, None, None, None, None, None) ==> r == c
  {
    Course(p.courseCode.GetOr(c.courseCode), p.courseName.GetOr(c.courseName),
           p.departmentId.GetOr(c.departmentId),
           if p.description.Some? then p.description else c.description,
           p.duration.GetOr(c.duration), p.isActive.GetOr(c.isActive))
  }

  /** The unique index on `courseCode`. */
  predicate UniqueCourseCode(m: map<Id, Course>) {
    forall i, j :: i in m && j in m && i != j ==> m[i].courseCode != m[j].courseCode
  }
}
