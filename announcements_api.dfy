/** The announcements route: what a student or a department sees, newest
    first; posting, editing and deleting notices. */
module AnnouncementsApi {
  import opened Common
  import opened StudentModel
  import opened AnnouncementModel
  import opened Store

  // ---------------------------------------------------------------------
  // GET

  /** The query parameters; `studentId` and `department` are None when
      missing or empty. */
  datatype AnnouncementFilter = AnnouncementFilter(
    department: Option<Id>,
    studentId: Option<Id>,
    isActive: Option<string>)

  /** The audience condition the handler adds: with a known student, notices
      for all or for the student's advisor department (an unadvised student
      matches the notices without a department); with an unknown student,
      none; without a student, the department's when one is given. */
  function Audience(students: map<Id, Student>, f: AnnouncementFilter): Option<Option<Id>> {
    if f.studentId.Some? then
      if f.studentId.value in students then Some(students[f.studentId.value].ojtAdvisor) else None
    else if f.department.Some? then Some(f.department)
    else None
  }

  /** The query: the activity flag when the parameter is present, and the
      audience condition when there is one. */
  function AnnouncementQuery(isActive: Option<string>, audience: Option<Option<Id>>): Announcement -> bool {
    (a: Announcement) =>
      (isActive.None? || a.isActive == (isActive.value == "true")) &&
      (audience.None? || a.isForAll || a.department == audience.value)
  }

  /** `sort({ createdAt: -1 })`. */
  predicate NewerOrSame(a: Announcement, b: Announcement) {
    a.createdAt >= b.createdAt
  }

  function ListAnnouncements(m: map<Id, Announcement>, students: map<Id, Student>, n: nat,
                             f: AnnouncementFilter): seq<Announcement>
  {
    Query(m, n, AnnouncementQuery(f.isActive, Audience(students, f)), NewerOrSame)
  }

  /** The listing is newest first and holds exactly the stored notices that
      meet the activity filter, when given, and the audience rule: for a
      known student, the notices for all and those of the student's advisor
      department; for an unknown student, no rule; without a student, the
      notices for all and those of the department, when one is given. In
      particular a known student sees exactly the notices for all and those
      of the advisor department. */
  lemma {:induction false} ListAnnouncementsSpec(m: map<Id, Announcement>, students: map<Id, Student>, n: nat,
                                                 f: AnnouncementFilter)
    ensures var r := ListAnnouncements(m, students, n, f);
            SortedBy(r, NewerOrSame) &&
            (forall a :: a in r <==>
               (exists j :: j < n && j in m && m[j] == a) &&
               (f.isActive.None? || a.isActive == (f.isActive.value == "true")) &&
               (f.studentId.Some? && f.studentId.value in students ==>
                  a.isForAll || a.department == students[f.studentId.value].ojtAdvisor) &&
               (f.studentId.None? && f.department.Some? ==> a.isForAll || a.department == f.department)) &&
            (f.studentId.Some? && f.studentId.value in students && f.isActive.None? ==>
               forall a :: a in r <==> (exists j :: j < n && j in m && m[j] == a) &&
                                       (a.isForAll || a.department == students[f.studentId.value].ojtAdvisor))
  {
    QuerySpec(m, n, AnnouncementQuery(f.isActive, Audience(students, f)), NewerOrSame);
  }

  /** A student id naming no student drops the audience condition: every
      notice meeting the activity filter is listed, whatever its department. */
  lemma {:induction false} UnknownStudentSeesAll(m: map<Id, Announcement>, students: map<Id, Student>, n: nat,
                                                 f: AnnouncementFilter, j: Id)
    requires f.studentId.Some? && f.studentId.value !in students
    requires j < n && j in m && (f.isActive.None? || m[j].isActive == (f.isActive.value == "true"))
    ensures m[j] in ListAnnouncements(m, students, n, f)
  {
    QuerySpec(m, n, AnnouncementQuery(f.isActive, Audience(students, f)), NewerOrSame);
  }

  /** A student with no advisor sees, besides the notices for all, every
      notice that names no department. */
  lemma {:induction false} UnadvisedStudentSeesUndirected(m: map<Id, Announcement>, students: map<Id, Student>,
                                                          n: nat, f: AnnouncementFilter, j: Id)
    requires f.studentId.Some? && f.studentId.value in students && students[f.studentId.value].ojtAdvisor.None?
    requires f.isActive.None? && j < n && j in m && m[j].department.None?
    ensures m[j] in ListAnnouncements(m, students, n, f)
  {
    ListAnnouncementsSpec(m, students, n, f);
  }

  /** The student parameter wins over the department parameter. */
  lemma {:induction false} StudentOverridesDepartment(m: map<Id, Announcement>, students: map<Id, Student>, n: nat,
                                                      f: AnnouncementFilter, d: Option<Id>)
    requires f.studentId.Some?
    ensures ListAnnouncements(m, students, n, f) == ListAnnouncements(m, students, n, f.(department := d))
  {
    assert Audience(students, f) == Audience(students, f.(department := d));
  }

  // ---------------------------------------------------------------------
  // POST

  /** The POST handler: `isForAll` defaults to false; a validation error is
      a 500. */
  function PostAnnouncement(m: map<Id, Announcement>, n: nat, title: Option<string>, content: Option<string>,
                            department: Option<Id>, postedBy: Option<Id>, isForAll: Option<bool>, now: Time)
    : Outcome<Announcement, Announcement>
  {
    var a := NewAnnouncement(title, content, department, postedBy, isForAll.GetOr(false), now);
    if a.None? then Outcome(Fail(500, "Failed to create announcement"), m, n)
    else Outcome(Ok(a.value), m[n := a.value], n + 1)
  }

  /** A posted notice is active, stored under a fresh id, and for all only
      when asked; without title, content or poster nothing is stored. */
  lemma {:induction false} PostAnnouncementSpec(m: map<Id, Announcement>, n: nat, title: Option<string>,
                                                content: Option<string>, department: Option<Id>,
                                                postedBy: Option<Id>, isForAll: Option<bool>, now: Time)
    requires Below(m, n)
    ensures var o := PostAnnouncement(m, n, title, content, department, postedBy, isForAll, now);
            Below(o.docs, o.nextId) &&
            (o.response.Ok? <==> title.GetOr("") != "" && content.GetOr("") != "" && postedBy.Some?) &&
            (o.response.Fail? ==> o.docs == m && o.nextId == n) &&
            (o.response.Ok? ==>
               n !in m && o.docs == m[n := o.response.value] && o.nextId == n + 1 &&
               o.response.value.isActive && o.response.value.isForAll == (isForAll == Some(true)) &&
               o.response.value.department == department && o.response.value.createdAt == now &&
               o.response.value.title == title.value && o.response.value.content == content.value &&
               o.response.value.postedBy == postedBy.value)
  {
  }

  /** A notice posted for all is shown to every known student. */
  lemma {:induction false} PostedForAllReachesStudents(m: map<Id, Announcement>, students: map<Id, Student>, n: nat,
                                                       title: Option<string>, content: Option<string>,
                                                       department: Option<Id>, postedBy: Option<Id>, now: Time,
                                                       studentId: Id)
    requires Below(m, n) && studentId in students
    requires PostAnnouncement(m, n, title, content, department, postedBy, Some(true), now).response.Ok?
    ensures var o := PostAnnouncement(m, n, title, content, department, postedBy, Some(true), now);
            o.response.value in ListAnnouncements(o.docs, students, o.nextId, AnnouncementFilter(None, Some(studentId), None))
  {
    var o := PostAnnouncement(m, n, title, content, department, postedBy, Some(true), now);
    ListAnnouncementsSpec(o.docs, students, o.nextId, AnnouncementFilter(None, Some(studentId), None));
    assert o.docs[n] == o.response.value;
  }

  method PostAnnouncementRecord(db: Db, title: Option<string>, content: Option<string>, department: Option<Id>,
                                postedBy: Option<Id>, isForAll: Option<bool>, now: Time)
    returns (r: Response<Announcement>)
    requires db.Valid()
    modifies db`announcements, db`nextId
    ensures db.Valid()
    ensures PostAnnouncement(old(db.announcements), old(db.nextId), title, content, department, postedBy, isForAll, now)
            == Outcome(r, db.announcements, db.nextId)
  {
    var a := NewAnnouncement(title, content, department, postedBy, isForAll.GetOr(false), now);
    if a.None? {
      return Fail(500, "Failed to create announcement");
    }
    db.announcements := db.announcements[db.nextId := a.value];
    db.nextId := db.nextId + 1;
    r := Ok(a.value);
  }

  // ---------------------------------------------------------------------
  // PUT

  /** The PUT handler: a missing id finds nothing, like an unknown one. */
  function UpdateAnnouncement(m: map<Id, Announcement>, announcementId: Option<Id>, updates: AnnouncementFields)
    : Outcome<Announcement, Announcement>
  {
    if announcementId.None? || announcementId.value !in m then Outcome(Fail(404, "Announcement not found"), m, 0)
    else
      var a := ApplyAnnouncementFields(m[announcementId.value], updates);
      Outcome(Ok(a), m[announcementId.value := a], 0)
  }

  /** An update succeeds exactly for a stored notice, stores every field
      the update names (the poster too), keeps the rest and the date, and
      changes no other notice. */
  lemma {:induction false} UpdateAnnouncementSpec(m: map<Id, Announcement>, announcementId: Option<Id>,
                                                  updates: AnnouncementFields)
    ensures var o := UpdateAnnouncement(m, announcementId, updates);
            (o.response.Ok? <==> announcementId.Some? && announcementId.value in m) &&
            (o.response.Fail? ==> o.docs == m) &&
            (o.response.Ok? ==>
               var old_ := m[announcementId.value];
               o.docs == m[announcementId.value := o.response.value] &&
               o.response.value.title == updates.title.GetOr(old_.title) &&
               o.response.value.content == updates.content.GetOr(old_.content) &&
               o.response.value.department == updates.department.GetOr(old_.department) &&
               o.response.value.postedBy == updates.postedBy.GetOr(old_.postedBy) &&
               o.response.value.createdAt == old_.createdAt &&
               o.response.value.isActive == updates.isActive.GetOr(old_.isActive) &&
               o.response.value.isForAll == updates.isForAll.GetOr(old_.isForAll))
  {
  }

  method UpdateAnnouncementRecord(db: Db, announcementId: Option<Id>, updates: AnnouncementFields)
    returns (r: Response<Announcement>)
    requires db.Valid()
    modifies db`announcements
    ensures db.Valid()
    ensures var o := UpdateAnnouncement(old(db.announcements), announcementId, updates);
            r == o.response && db.announcements == o.docs
  {
    if announcementId.None? || announcementId.value !in db.announcements {
      return Fail(404, "Announcement not found");
    }
    var a := ApplyAnnouncementFields(db.announcements[announcementId.value], updates);
    db.announcements := db.announcements[announcementId.value := a];
    r := Ok(a);
  }

  // ---------------------------------------------------------------------
  // DELETE

  function DeleteAnnouncement(m: map<Id, Announcement>, announcementId: Option<Id>): Outcome<Announcement, string> {
    if announcementId.None? then Outcome(Fail(400, "Announcement ID required"), m, 0)
    else if announcementId.value !in m then Outcome(Fail(404, "Announcement not found"), m, 0)
    else Outcome(Ok("Announcement deleted successfully"), m - {announcementId.value}, 0)
  }

  /** Deletion removes exactly the notice asked for, and only when it exists. */
  lemma {:induction false} DeleteAnnouncementSpec(m: map<Id, Announcement>, announcementId: Option<Id>)
    ensures var o := DeleteAnnouncement(m, announcementId);
            (o.response.Ok? <==> announcementId.Some? && announcementId.value in m) &&
            (forall k :: k in o.docs <==> k in m && (o.response.Fail? || k != announcementId.value)) &&
            (forall k :: k in o.docs ==> o.docs[k] == m[k])
  {
  }

  method DeleteAnnouncementRecord(db: Db, announcementId: Option<Id>) returns (r: Response<string>)
    requires db.Valid()
    modifies db`announcements
    ensures db.Valid()
    ensures var o := DeleteAnnouncement(old(db.announcements), announcementId);
            r == o.response && db.announcements == o.docs
  {
    if announcementId.None? {
      return Fail(400, "Announcement ID required");
    }
    if announcementId.value !in db.announcements {
      return Fail(404, "Announcement not found");
    }
    db.announcements := db.announcements - {announcementId.value};
    r := Ok("Announcement deleted successfully");
  }
}
