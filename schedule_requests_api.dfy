/** Shift-change requests: listing, submission (pending) and review, where
    an approval copies the requested shift onto the student. */
module ScheduleRequestsApi {
  import opened Common
  import opened StudentModel
  import opened DepartmentModel
  import opened ScheduleRequestModel
  import opened Store

  // ---------------------------------------------------------------------
  // GET

  predicate RequestMatches(r: ScheduleRequest, studentId: Option<Id>, departmentId: Option<Id>, status: Option<string>) {
    (studentId.None? || r.studentId == studentId.value) &&
    (departmentId.None? || r.departmentId == departmentId.value) &&
    (!Truthy(status) || RequestStatusName(r.status) == status.value)
  }

  predicate RequestedLaterOrSame(a: ScheduleRequest, b: ScheduleRequest) {
    a.requestedAt >= b.requestedAt
  }

  /** `find(query).sort({ requestedAt: -1 })`, each filter applied only when
      its parameter is given. */
  function ListRequests(m: map<Id, ScheduleRequest>, n: nat, studentId: Option<Id>,
                        departmentId: Option<Id>, status: Option<string>): seq<ScheduleRequest> {
    Query(m, n, (r: ScheduleRequest) => RequestMatches(r, studentId, departmentId, status), RequestedLaterOrSame)
  }

  /** The listing holds exactly the stored requests meeting every given
      filter, newest first. */
  lemma {:induction false} ListRequestsSpec(m: map<Id, ScheduleRequest>, n: nat, studentId: Option<Id>,
                                            departmentId: Option<Id>, status: Option<string>)
    ensures var r := ListRequests(m, n, studentId, departmentId, status);
            SortedBy(r, RequestedLaterOrSame) &&
            forall x :: x in r <==> (exists j :: j < n && j in m && m[j] == x) &&
                                    (studentId.None? || x.studentId == studentId.value) &&
                                    (departmentId.None? || x.departmentId == departmentId.value) &&
                                    (!Truthy(status) || RequestStatusName(x.status) == status.value)
  {
    QuerySpec(m, n, (r: ScheduleRequest) => RequestMatches(r, studentId, departmentId, status), RequestedLaterOrSame);
  }

  // ---------------------------------------------------------------------
  // POST

  /** The department a student's requests go to: the first whose name is
      the student's department text. */
  function DepartmentOf(departments: map<Id, Department>, n: nat, s: Student): Option<Id> {
    FindFirst(departments, n, (d: Department) => d.departmentName == s.department)
  }

  /** The POST handler at time `now`. */
  function Submit(requests: map<Id, ScheduleRequest>, students: map<Id, Student>, departments: map<Id, Department>,
                  n: nat, studentId: Option<Id>, currentShiftType: Option<string>, requestedShiftType: Option<string>,
                  config: Option<ShiftConfig>, reason: Option<string>, now: Time)
    : Outcome<ScheduleRequest, ScheduleRequest>
  {
    if studentId.None? || studentId.value !in students then
      Outcome(Fail(404, "Student not found"), requests, n)
    else
      var dept := DepartmentOf(departments, n, students[studentId.value]);
      if dept.None? then Outcome(Fail(404, "Department not found"), requests, n)
      else
        var r := NewRequest(studentId.value, dept.value, currentShiftType, requestedShiftType, config, reason, now);
        if r.None? then Outcome(Fail(500, "Failed to create request"), requests, n)
        else Outcome(Ok(r.value), requests[n := r.value], n + 1)
  }

  /** A submission creates nothing for an unknown student or when no
      department bears the student's department name; a created request is
      pending, stamped `now`, and addressed to the first such department. */
  lemma {:induction false} SubmitSpec(requests: map<Id, ScheduleRequest>, students: map<Id, Student>,
                                      departments: map<Id, Department>, n: nat, studentId: Option<Id>,
                                      currentShiftType: Option<string>, requestedShiftType: Option<string>,
                                      config: Option<ShiftConfig>, reason: Option<string>, now: Time)
    ensures var o := Submit(requests, students, departments, n, studentId, currentShiftType, requestedShiftType, config, reason, now);
            (studentId.None? || studentId.value !in students ==> o.response == Fail(404, "Student not found")) &&
            (studentId.Some? && studentId.value in students &&
             (forall j :: j < n && j in departments ==> departments[j].departmentName != students[studentId.value].department)
             ==> o.response == Fail(404, "Department not found")) &&
            (o.response.Fail? ==> o.docs == requests && o.nextId == n) &&
            (o.response.Ok? ==>
               var r := o.response.value;
               o.docs == requests[n := r] && o.nextId == n + 1 &&
               r.status == Pending && r.requestedAt == now && r.studentId == studentId.value &&
               r.departmentId in departments &&
               departments[r.departmentId].departmentName == students[studentId.value].department &&
               (forall j :: j < r.departmentId && j in departments ==>
                  departments[j].departmentName != students[studentId.value].department))
  {
    if studentId.Some? && studentId.value in students {
      var dept := DepartmentOf(departments, n, students[studentId.value]);
      if dept.Some? {
        assert departments[dept.value].departmentName == students[studentId.value].department;
      }
    }
  }

  /** The POST handler on the database. */
  method SubmitRequest(db: Db, studentId: Option<Id>, currentShiftType: Option<string>,
                       requestedShiftType: Option<string>, config: Option<ShiftConfig>,
                       reason: Option<string>, now: Time)
    returns (r: Response<ScheduleRequest>)
    requires db.Valid()
    modifies db`requests, db`nextId
    ensures db.Valid()
    ensures Submit(old(db.requests), db.students, db.departments, old(db.nextId), studentId, currentShiftType,
                   requestedShiftType, config, reason, now) == Outcome(r, db.requests, db.nextId)
  {
    if studentId.None? || studentId.value !in db.students {
      return Fail(404, "Student not found");
    }
    var student := db.students[studentId.value];
    var dept := DepartmentOf(db.departments, db.nextId, student);
    if dept.None? {
      return Fail(404, "Department not found");
    }
    var request := NewRequest(studentId.value, dept.value, currentShiftType, requestedShiftType, config, reason, now);
    if request.None? {
      return Fail(500, "Failed to create request");
    }
    db.requests := db.requests[db.nextId := request.value];
    db.nextId := db.nextId + 1;
    r := Ok(request.value);
  }

  // ---------------------------------------------------------------------
  // PUT: review

  datatype ReviewOutcome = ReviewOutcome(
    response: Response<ScheduleRequest>,
    requests: map<Id, ScheduleRequest>,
    students: map<Id, Student>)

  /** The request as the reviewer leaves it. */
  function Reviewed(r: ScheduleRequest, status: RequestStatus, comments: Option<string>,
                    reviewedBy: Option<Id>, now: Time): ScheduleRequest {
    r.(status := status, comments := comments, reviewedBy := reviewedBy, reviewedAt := Some(now))
  }

  /** The student with the requested shift copied over, when the student
      schema accepts it. */
  function WithRequestedShift(s: Student, r: ScheduleRequest): (res: Option<Student>)
    ensures res.Some? ==> ValidStudent(res.value) && res.value.shiftConfig == r.requestedShiftConfig
    ensures res.Some? ==> ShiftKindName(res.value.shiftType) == r.requestedShiftType
    ensures res.Some? ==> res.value == s.(shiftType := res.value.shiftType, shiftConfig := r.requestedShiftConfig)
  {
    var kind := ParseShiftKind(r.requestedShiftType);
    if kind.None? then None
    else
      var s' := s.(shiftType := kind.value, shiftConfig := r.requestedShiftConfig);
      if ValidStudent(s') then Some(s') else None
  }

  /** The PUT handler at time `now`. The request is saved before the student
      is touched, so a student the schema then refuses leaves the request
      reviewed and the reply 500. */
  function Review(requests: map<Id, ScheduleRequest>, students: map<Id, Student>, requestId: Option<Id>,
                  status: Option<string>, comments: Option<string>, reviewedBy: Option<Id>, now: Time)
    : ReviewOutcome
  {
    if requestId.None? || !Truthy(status) then
      ReviewOutcome(Fail(400, "Request ID and status are required"), requests, students)
    else if requestId.value !in requests then
      ReviewOutcome(Fail(404, "Request not found"), requests, students)
    else
      var st := ParseRequestStatus(status.value);
      if st.None? then ReviewOutcome(Fail(500, "Failed to update request"), requests, students)
      else
        var r := Reviewed(requests[requestId.value], st.value, comments, reviewedBy, now);
        var requests' := requests[requestId.value := r];
        if st.value != Approved || r.studentId !in students then
          ReviewOutcome(Ok(r), requests', students)
        else
          var s := WithRequestedShift(students[r.studentId], r);
          if s.None? then ReviewOutcome(Fail(500, "Failed to update request"), requests', students)
          else ReviewOutcome(Ok(r), requests', students[r.studentId := s.value])
  }

  /** Review outcomes: 400 without an id or status, 404 for an unknown
      request, a 500 that changes nothing for a status outside the enum
      (the save refuses it); otherwise the request carries the new status,
      comments, reviewer and `now`; only an approval changes a student, and
      an approval of a stored student always does: its shift type and
      configuration become the request's, the rest is kept, unless the
      student schema refuses them, which is the only 500 after the save. */
  lemma {:induction false} ReviewSpec(requests: map<Id, ScheduleRequest>, students: map<Id, Student>,
                                      requestId: Option<Id>, status: Option<string>, comments: Option<string>,
                                      reviewedBy: Option<Id>, now: Time)
    ensures var o := Review(requests, students, requestId, status, comments, reviewedBy, now);
            (requestId.None? || !Truthy(status) ==> o.response.Fail? && o.response.status == 400) &&
            (requestId.Some? && Truthy(status) && requestId.value !in requests ==> o.response == Fail(404, "Request not found")) &&
            (o.response.Fail? && o.response.status != 500 ==> o.requests == requests && o.students == students) &&
            (requestId.Some? && Truthy(status) && requestId.value in requests &&
             ParseRequestStatus(status.value).None? ==>
               o.response == Fail(500, "Failed to update request") &&
               o.requests == requests && o.students == students) &&
            (o.response.Ok? ==>
               var r := o.response.value;
               o.requests == requests[requestId.value := r] &&
               RequestStatusName(r.status) == status.value && r.comments == comments &&
               r.reviewedBy == reviewedBy && r.reviewedAt == Some(now) &&
               r.studentId == requests[requestId.value].studentId &&
               r.requestedShiftType == requests[requestId.value].requestedShiftType) &&
            (o.response.Ok? && o.response.value.status != Approved ==> o.students == students) &&
            (o.students != students ==>
               var r := o.requests[requestId.value];
               r.status == Approved && r.studentId in students &&
               o.students == students[r.studentId := o.students[r.studentId]] &&
               ShiftKindName(o.students[r.studentId].shiftType) == r.requestedShiftType &&
               o.students[r.studentId].shiftConfig == r.requestedShiftConfig &&
               o.students[r.studentId].studentId == students[r.studentId].studentId) &&
            (requestId.Some? && Truthy(status) && requestId.value in requests &&
             ParseRequestStatus(status.value).Some? ==>
               var r := Reviewed(requests[requestId.value], ParseRequestStatus(status.value).value,
                                 comments, reviewedBy, now);
               o.requests == requests[requestId.value := r] &&
               (o.response.Ok? <==> r.status != Approved || r.studentId !in students ||
                                    WithRequestedShift(students[r.studentId], r).Some?) &&
               (r.status == Approved && r.studentId in students &&
                WithRequestedShift(students[r.studentId], r).Some? ==>
                  o.students == students[r.studentId := WithRequestedShift(students[r.studentId], r).value]))
  {
    if requestId.Some? && Truthy(status) && requestId.value in requests {
      var st := ParseRequestStatus(status.value);
      if st.Some? {
        assert RequestStatusName(st.value) == status.value;
      }
    }
  }

  /** There is no check of the prior status: rejecting an approved request
      succeeds and leaves the student's approved shift in place. */
  lemma {:induction false} RejectAfterApprovalKeepsShift(requests: map<Id, ScheduleRequest>, students: map<Id, Student>,
                                                         requestId: Id, comments: Option<string>,
                                                         reviewedBy: Option<Id>, now: Time)
    requires requestId in requests && requests[requestId].status == Approved
    ensures var o := Review(requests, students, Some(requestId), Some("rejected"), comments, reviewedBy, now);
            o.response.Ok? && o.response.value.status == Rejected && o.students == students
  {
  }

  /** An approval whose requested shift type is outside the student enum
      fails with 500, yet the request is stored as approved. */
  lemma {:induction false} ApprovalOfUnknownShiftHalfApplies(requests: map<Id, ScheduleRequest>,
                                                             students: map<Id, Student>, requestId: Id,
                                                             comments: Option<string>, reviewedBy: Option<Id>, now: Time)
    requires requestId in requests && requests[requestId].studentId in students
    requires ParseShiftKind(requests[requestId].requestedShiftType).None?
    ensures var o := Review(requests, students, Some(requestId), Some("approved"), comments, reviewedBy, now);
            o.response == Fail(500, "Failed to update request") &&
            o.requests[requestId].status == Approved && o.students == students
  {
  }

  /** The PUT handler on the database: the request's fields are assigned and
      saved, then on approval the student's. */
  method ReviewRequest(db: Db, requestId: Option<Id>, status: Option<string>, comments: Option<string>,
                       reviewedBy: Option<Id>, now: Time)
    returns (r: Response<ScheduleRequest>)
    requires db.Valid()
    modifies db`requests, db`students
    ensures db.Valid()
    ensures Review(old(db.requests), old(db.students), requestId, status, comments, reviewedBy, now)
            == ReviewOutcome(r, db.requests, db.students)
  {
    ReviewSpec(db.requests, db.students, requestId, status, comments, reviewedBy, now);
    if requestId.None? || !Truthy(status) {
      return Fail(400, "Request ID and status are required");
    }
    if requestId.value !in db.requests {
      return Fail(404, "Request not found");
    }
    var st := ParseRequestStatus(status.value);
    if st.None? {
      return Fail(500, "Failed to update request");
    }
    var request := db.requests[requestId.value];
    request := request.(status := st.value);
    request := request.(comments := comments);
    request := request.(reviewedBy := reviewedBy);
    request := request.(reviewedAt := Some(now));
    db.requests := db.requests[requestId.value := request];
    if st.value == Approved && request.studentId in db.students {
      var s := WithRequestedShift(db.students[request.studentId], request);
      if s.None? {
        return Fail(500, "Failed to update request");
      }
      db.students := db.students[request.studentId := s.value];
    }
    r := Ok(request);
  }
}
