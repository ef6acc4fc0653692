/** The departments route: listing by approval state, acceptance,
    rejection and (de)activation coupled to the login account, and deletion. */
module DepartmentsApi {
  import opened Common
  import opened UserModel
  import opened DepartmentModel
  import opened Store

  // ---------------------------------------------------------------------
  // GET

  /** The filter the query parameters choose; `forRegistration=true` wins
      over `status`, and any other status (such as "all") selects every
      department. */
  function DepartmentFilter(status: Option<string>, forRegistration: Option<string>): Department -> bool {
    if forRegistration == Some("true") then (d: Department) => d.isAccepted && d.isActive
    else if status == Some("approved") then (d: Department) => d.isAccepted
    else if status == Some("pending") then (d: Department) => !d.isAccepted
    else (d: Department) => true
  }

  predicate ByName(a: Department, b: Department) {
    LexLe(a.departmentName, b.departmentName)
  }

  /** `Department.find(query).sort({ departmentName: 1 })`. */
  function ListDepartments(m: map<Id, Department>, n: nat, status: Option<string>,
                           forRegistration: Option<string>): seq<Department> {
    Query(m, n, DepartmentFilter(status, forRegistration), ByName)
  }

  /** The listing is in name order; for registration it offers exactly the
      accepted, active departments, "approved" exactly the accepted,
      "pending" exactly the unaccepted, and any other status every one. */
  lemma {:induction false} ListDepartmentsSpec(m: map<Id, Department>, n: nat, status: Option<string>,
                                               forRegistration: Option<string>)
    ensures var r := ListDepartments(m, n, status, forRegistration);
            SortedBy(r, ByName) &&
            (forRegistration == Some("true") ==>
               forall d :: d in r <==> (exists j :: j < n && j in m && m[j] == d) && d.isAccepted && d.isActive) &&
            (forRegistration != Some("true") && status == Some("approved") ==>
               forall d :: d in r <==> (exists j :: j < n && j in m && m[j] == d) && d.isAccepted) &&
            (forRegistration != Some("true") && status == Some("pending") ==>
               forall d :: d in r <==> (exists j :: j < n && j in m && m[j] == d) && !d.isAccepted) &&
            (forRegistration != Some("true") && status != Some("approved") && status != Some("pending") ==>
               forall d :: d in r <==> exists j :: j < n && j in m && m[j] == d)
  {
    forall a: Department, b: Department
      ensures ByName(a, b) || ByName(b, a)
    {
      LexTotal(a.departmentName, b.departmentName);
    }
    QuerySpec(m, n, DepartmentFilter(status, forRegistration), ByName);
  }

  // ---------------------------------------------------------------------
  // PUT

  /** The `updateData` the handler builds. `isActive` is None unless the
      body's value is a boolean. */
  function UpdateData(action: Option<string>, isActive: Option<bool>): DepartmentFields {
    DepartmentFields(None, None, None, None, None, None, None, None, isActive,
                     if action == Some("accept") then Some(true)
                     else if action == Some("reject") then Some(false)
                     else None)
  }

  /** What the handler does to the department's user: a rejection or
      `isActive: false` deactivates it, otherwise an acceptance or
      `isActive: true` activates it, otherwise it is left alone. */
  function UserActivation(action: Option<string>, isActive: Option<bool>): Option<bool> {
    if action == Some("reject") || isActive == Some(false) then Some(false)
    else if action == Some("accept") || isActive == Some(true) then Some(true)
    else None
  }

  /** `findByIdAndUpdate(userId, { isActive })`: no effect on a missing user. */
  function SetUserActive(users: map<Id, User>, id: Id, active: bool): map<Id, User> {
    if id in users then users[id := users[id].(isActive := active)] else users
  }

  datatype DepartmentReply = DepartmentReply(message: string, department: Department)

  datatype DepartmentOutcome = DepartmentOutcome(
    response: Response<DepartmentReply>,
    departments: map<Id, Department>,
    users: map<Id, User>)

  function UpdateMessage(action: Option<string>): string {
    if action == Some("accept") then "Department approved successfully"
    else if action == Some("reject") then "Department rejected successfully"
    else "Department updated successfully"
  }

  /** The PUT handler. */
  function UpdateDepartment(departments: map<Id, Department>, users: map<Id, User>, departmentId: Option<Id>,
                            action: Option<string>, isActive: Option<bool>): DepartmentOutcome
  {
    if departmentId.None? then DepartmentOutcome(Fail(400, "Department ID is required"), departments, users)
    else if departmentId.value !in departments then
      DepartmentOutcome(Fail(404, "Department not found"), departments, users)
    else
      var d := ApplyDepartmentFields(departments[departmentId.value], UpdateData(action, isActive));
      var a := UserActivation(action, isActive);
      var users' := if a.Some? then SetUserActive(users, d.userId, a.value) else users;
      DepartmentOutcome(Ok(DepartmentReply(UpdateMessage(action), d)), departments[departmentId.value := d], users')
  }

  /** A found department gets the requested approval and activity and
      nothing else; its user ends active exactly when the request accepted or
      activated without rejecting or deactivating, and is left alone when the
      request does neither; no other user changes. */
  lemma {:induction false} UpdateDepartmentSpec(departments: map<Id, Department>, users: map<Id, User>, id: Id,
                                                action: Option<string>, isActive: Option<bool>)
    requires id in departments
    ensures var o := UpdateDepartment(departments, users, Some(id), action, isActive);
            var d := departments[id];
            o.response.Ok? &&
            o.departments == departments[id := o.response.value.department] &&
            o.response.value.department ==
              d.(isAccepted := if action == Some("accept") then true else if action == Some("reject") then false else d.isAccepted,
                 isActive := isActive.GetOr(d.isActive)) &&
            (d.userId in users && (action == Some("reject") || isActive == Some(false)) ==>
               !o.users[d.userId].isActive) &&
            ((d.userId in users && action != Some("reject") && isActive != Some(false) &&
              (action == Some("accept") || isActive == Some(true))) ==> o.users[d.userId].isActive) &&
            (action != Some("accept") && action != Some("reject") && isActive.None? ==> o.users == users) &&
            (forall k :: k in o.users <==> k in users) &&
            (forall k :: k in users && k != d.userId ==> o.users[k] == users[k]) &&
            (forall k :: k in users ==> o.users[k] == users[k].(isActive := o.users[k].isActive))
  {
  }

  /** Rejecting while marking the department active leaves an active
      department whose user account is deactivated. */
  lemma {:induction false} RejectButActiveSplits(departments: map<Id, Department>, users: map<Id, User>, id: Id)
    requires id in departments && departments[id].userId in users
    ensures var o := UpdateDepartment(departments, users, Some(id), Some("reject"), Some(true));
            o.departments[id].isActive && !o.departments[id].isAccepted &&
            !o.users[departments[id].userId].isActive
  {
  }

  /** The PUT handler on the database. */
  method UpdateDepartmentRecord(db: Db, departmentId: Option<Id>, action: Option<string>, isActive: Option<bool>)
    returns (r: Response<DepartmentReply>)
    requires db.Valid()
    modifies db`departments, db`users
    ensures db.Valid()
    ensures UpdateDepartment(old(db.departments), old(db.users), departmentId, action, isActive)
            == DepartmentOutcome(r, db.departments, db.users)
  {
    if departmentId.None? {
      return Fail(400, "Department ID is required");
    }
    if departmentId.value !in db.departments {
      return Fail(404, "Department not found");
    }
    UpdateDepartmentSpec(db.departments, db.users, departmentId.value, action, isActive);
    var department := ApplyDepartmentFields(db.departments[departmentId.value], UpdateData(action, isActive));
    db.departments := db.departments[departmentId.value := department];
    if action == Some("reject") || isActive == Some(false) {
      db.users := SetUserActive(db.users, department.userId, false);
    } else if action == Some("accept") || isActive == Some(true) {
      db.users := SetUserActive(db.users, department.userId, true);
    }
    r := Ok(DepartmentReply(UpdateMessage(action), department));
  }

  // ---------------------------------------------------------------------
  // DELETE

  /** The DELETE handler: the department and its user go together. Students
      advised by it and courses under it keep their references. */
  function DeleteDepartment(departments: map<Id, Department>, users: map<Id, User>, departmentId: Option<Id>)
    : DepartmentOutcome
  {
    if departmentId.None? then DepartmentOutcome(Fail(400, "Department ID is required"), departments, users)
    else if departmentId.value !in departments then
      DepartmentOutcome(Fail(404, "Department not found"), departments, users)
    else
      DepartmentOutcome(Ok(DepartmentReply("Department deleted successfully", departments[departmentId.value])),
                        departments - {departmentId.value}, users - {departments[departmentId.value].userId})
  }

  /** A missing id is a 400 and an unknown id a 404, for an update and for a
      deletion alike, and neither changes a department or a user. */
  lemma DepartmentErrors(departments: map<Id, Department>, users: map<Id, User>, departmentId: Option<Id>,
                         action: Option<string>, isActive: Option<bool>)
    requires departmentId.None? || departmentId.value !in departments
    ensures var u := UpdateDepartment(departments, users, departmentId, action, isActive);
            u.response.Fail? && u.departments == departments && u.users == users &&
            (u.response.status == 400 <==> departmentId.None?) && (u.response.status == 404 <==> departmentId.Some?)
    ensures var d := DeleteDepartment(departments, users, departmentId);
            d.response.Fail? && d.departments == departments && d.users == users &&
            (d.response.status == 400 <==> departmentId.None?) && (d.response.status == 404 <==> departmentId.Some?)
  {
  }

  /** Deleting removes exactly the department and its user account. */
  lemma {:induction false} DeleteDepartmentSpec(departments: map<Id, Department>, users: map<Id, User>, id: Id)
    requires id in departments
    ensures var o := DeleteDepartment(departments, users, Some(id));
            o.response.Ok? &&
            (forall k :: k in o.departments <==> k in departments && k != id) &&
            (forall k :: k in o.users <==> k in users && k != departments[id].userId) &&
            (forall k :: k in o.departments ==> o.departments[k] == departments[k]) &&
            (forall k :: k in o.users ==> o.users[k] == users[k])
  {
  }

  method DeleteDepartmentRecord(db: Db, departmentId: Option<Id>) returns (r: Response<DepartmentReply>)
    requires db.Valid()
    modifies db`departments, db`users
    ensures db.Valid()
    ensures DeleteDepartment(old(db.departments), old(db.users), departmentId)
            == DepartmentOutcome(r, db.departments, db.users)
  {
    if departmentId.None? {
      return Fail(400, "Department ID is required");
    }
    if departmentId.value !in db.departments {
      return Fail(404, "Department not found");
    }
    var department := db.departments[departmentId.value];
    db.users := db.users - {department.userId};
    db.departments := db.departments - {departmentId.value};
    r := Ok(DepartmentReply("Department deleted successfully", department));
  }
}
