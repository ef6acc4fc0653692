/** The database: one map from id to document per collection, and the id
    counter that hands out fresh ids in increasing order. */
module Store {
  import opened Common
  import opened UserModel
  import opened StudentModel
  import opened DepartmentModel
  import opened CourseModel
  import opened AnnouncementModel
  import opened DtrTemplateModel
  import opened ScheduleRequestModel
  import opened AttendanceModel
  import opened SystemLogModel

  class Db {
    var users: map<Id, User>
    var students: map<Id, Student>
    var departments: map<Id, Department>
    var courses: map<Id, Course>
    var announcements: map<Id, Announcement>
    var templates: map<Id, DtrTemplate>
    var requests: map<Id, ScheduleRequest>
    var attendance: map<Id, Attendance>
    var logs: map<Id, SystemLog>
    var nextId: nat

    /** Every id in use is below `nextId`, and every unique index of the
        schemas holds. */
    ghost predicate Valid()
      reads this
    {
      Below(users, nextId) && Below(students, nextId) && Below(departments, nextId) &&
      Below(courses, nextId) && Below(announcements, nextId) && Below(templates, nextId) &&
      Below(requests, nextId) && Below(attendance, nextId) && Below(logs, nextId) &&
      UniqueEmail(users) && UniqueStudentId(students) && UniqueDepartmentCode(departments) &&
      UniqueCourseCode(courses) && UniqueStudentDate(attendance)
    }

    constructor()
      ensures Valid()
      ensures users == map[] && students == map[] && departments == map[] && courses == map[]
      ensures announcements == map[] && templates == map[] && requests == map[]
      ensures attendance == map[] && logs == map[] && nextId == 0
    {
      users := map[];
      students := map[];
      departments := map[];
      courses := map[];
      announcements := map[];
      templates := map[];
      requests := map[];
      attendance := map[];
      logs := map[];
      nextId := 0;
    }
  }
}
