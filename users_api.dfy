/** The users route: the administrators' listing of accounts with their
    profiles, account and profile updates, and deletion, which spares the
    configured superadmin. */
module UsersApi {
  import opened Common
  import opened UserModel
  import opened StudentModel
  import opened DepartmentModel
  import opened Store
  import AuthApi

  // ---------------------------------------------------------------------
  // GET

  /** The query parameters, each None when missing. */
  datatype UserFilter = UserFilter(
    accountType: Option<string>,
    isActive: Option<string>,
    department: Option<string>,
    isAccepted: Option<string>)

  /** The user query: the account type when the parameter is non-empty, the
      active flag when the parameter is present. */
  predicate UserMatches(f: UserFilter, u: User) {
    (!Truthy(f.accountType) || AccountTypeName(u.accountType) == f.accountType.value) &&
    (f.isActive.None? || u.isActive == (f.isActive.value == "true"))
  }

  /** The student-profile query for user `id`. */
  predicate ProfileMatches(f: UserFilter, id: Id, s: Student) {
    s.userId == id &&
    (!Truthy(f.department) || s.department == f.department.value) &&
    (f.isAccepted.None? || s.isAccepted == (f.isAccepted.value == "true"))
  }

  /** Whether the request filters on the student profile at all. */
  predicate ProfileFiltered(f: UserFilter) {
    Truthy(f.department) || f.isAccepted.Some?
  }

  /** A listed account: the user without its password, with its profile. */
  datatype UserView = UserView(
    id: Id,
    email: string,
    accountType: AccountType,
    isActive: bool,
    lastLogin: Option<Time>,
    details: AuthApi.Details)

  /** The ids of the users the query selects, in natural order. */
  function MatchingIds(m: map<Id, User>, n: nat, p: User -> bool): (r: seq<Id>)
    ensures forall i :: 0 <= i < |r| ==> r[i] in m && r[i] < n && p(m[r[i]])
    ensures forall k :: k in r <==> k in m && k < n && p(m[k])
  {
    if n == 0 then []
    else
      var rest := MatchingIds(m, n - 1, p);
      if n - 1 in m && p(m[n - 1]) then rest + [n - 1] else rest
  }

  /** One turn of the loop: the view of user `id`, or nothing when a
      student has no profile meeting the profile filters (`continue`). */
  function EnrichOne(users: map<Id, User>, students: map<Id, Student>, departments: map<Id, Department>,
                     n: nat, f: UserFilter, id: Id): seq<UserView>
    requires id in users
  {
    var u := users[id];
    if u.accountType == StudentAccount then
      var k := FindFirst(students, n, (s: Student) => ProfileMatches(f, id, s));
      if k.None? && ProfileFiltered(f) then []
      else [UserView(id, u.email, u.accountType, u.isActive, u.lastLogin,
                     if k.Some? then AuthApi.StudentDetails(students[k.value]) else AuthApi.NoDetails)]
    else if u.accountType == DepartmentAccount then
      var k := FindFirst(departments, n, (d: Department) => d.userId == id);
      [UserView(id, u.email, u.accountType, u.isActive, u.lastLogin,
                if k.Some? then AuthApi.DepartmentDetails(departments[k.value]) else AuthApi.NoDetails)]
    else [UserView(id, u.email, u.accountType, u.isActive, u.lastLogin, AuthApi.NoDetails)]
  }

  /** The loop over `ids`, one turn per id. */
  function Enrich(users: map<Id, User>, students: map<Id, Student>, departments: map<Id, Department>,
                  n: nat, f: UserFilter, ids: seq<Id>): seq<UserView>
    requires forall i :: 0 <= i < |ids| ==> ids[i] in users
  {
    if ids == [] then []
    else Enrich(users, students, departments, n, f, ids[..|ids| - 1]) +
         EnrichOne(users, students, departments, n, f, ids[|ids| - 1])
  }

  /** The GET handler's result. */
  function ListUsers(users: map<Id, User>, students: map<Id, Student>, departments: map<Id, Department>,
                     n: nat, f: UserFilter): seq<UserView>
  {
    Enrich(users, students, departments, n, f, MatchingIds(users, n, (u: User) => UserMatches(f, u)))
  }

  /** Whether the loop keeps user `id`. */
  predicate Kept(users: map<Id, User>, students: map<Id, Student>, n: nat, f: UserFilter, id: Id)
    requires id in users
  {
    users[id].accountType != StudentAccount || !ProfileFiltered(f) ||
    exists j :: j < n && j in students && ProfileMatches(f, id, students[j])
  }

  lemma EnrichOneSpec(users: map<Id, User>, students: map<Id, Student>, departments: map<Id, Department>,
                      n: nat, f: UserFilter, id: Id)
    requires id in users
    ensures var r := EnrichOne(users, students, departments, n, f, id);
            (r == [] <==> !Kept(users, students, n, f, id)) &&
            (forall v :: v in r ==> v.id == id && v.email == users[id].email &&
                                    v.accountType == users[id].accountType && v.isActive == users[id].isActive)
  {
  }

  /** The loop lists, in the order of `ids`, one view for each id it keeps
      and none for the others. */
  lemma {:induction false} EnrichMembers(users: map<Id, User>, students: map<Id, Student>,
                                         departments: map<Id, Department>, n: nat, f: UserFilter, ids: seq<Id>)
    requires forall i :: 0 <= i < |ids| ==> ids[i] in users
    ensures var r := Enrich(users, students, departments, n, f, ids);
            forall v :: v in r ==> v.id in ids && v.id in users && Kept(users, students, n, f, v.id) &&
                                   v.email == users[v.id].email && v.accountType == users[v.id].accountType &&
                                   v.isActive == users[v.id].isActive
    ensures var r := Enrich(users, students, departments, n, f, ids);
            forall id :: id in ids && Kept(users, students, n, f, id) ==> exists v :: v in r && v.id == id
  {
    if ids != [] {
      var init := ids[..|ids| - 1];
      var last := ids[|ids| - 1];
      EnrichMembers(users, students, departments, n, f, init);
      EnrichOneSpec(users, students, departments, n, f, last);
      var r := Enrich(users, students, departments, n, f, ids);
      var r0 := Enrich(users, students, departments, n, f, init);
      var r1 := EnrichOne(users, students, departments, n, f, last);
      assert r == r0 + r1;
      forall id | id in ids && Kept(users, students, n, f, id)
        ensures exists v :: v in r && v.id == id
      {
        if id == last {
          assert r1[0] in r;
        } else {
          assert id in init;
          var v :| v in r0 && v.id == id;
          assert v in r;
        }
      }
    }
  }

  /** A user is listed exactly when it meets the user query and is not a
      student whose profile misses the profile filters: accounts of other
      types are listed whatever `department` and `isAccepted` say. The
      listing never carries a password. */
  lemma {:induction false} ListUsersSpec(users: map<Id, User>, students: map<Id, Student>,
                                         departments: map<Id, Department>, n: nat, f: UserFilter)
    ensures var r := ListUsers(users, students, departments, n, f);
            forall id :: (exists v :: v in r && v.id == id) <==>
                           id in users && id < n && UserMatches(f, users[id]) &&
                           (users[id].accountType != StudentAccount || !ProfileFiltered(f) ||
                            exists j :: j < n && j in students && ProfileMatches(f, id, students[j]))
  {
    var ids := MatchingIds(users, n, (u: User) => UserMatches(f, u));
    EnrichMembers(users, students, departments, n, f, ids);
  }

  /** The GET handler on the database: the loop pushes one view per kept
      user and skips a student without a matching profile. */
  method ListUserAccounts(db: Db, f: UserFilter) returns (views: seq<UserView>)
    ensures views == ListUsers(db.users, db.students, db.departments, db.nextId, f)
  {
    var ids := MatchingIds(db.users, db.nextId, (u: User) => UserMatches(f, u));
    views := [];
    var i := 0;
    while i < |ids|
      invariant 0 <= i <= |ids|
      invariant views == Enrich(db.users, db.students, db.departments, db.nextId, f, ids[..i])
    {
      assert ids[..i + 1][..i] == ids[..i];
      var id := ids[i];
      var user := db.users[id];
      var details := AuthApi.NoDetails;
      if user.accountType == StudentAccount {
        var k := FindFirst(db.students, db.nextId, (s: Student) => ProfileMatches(f, id, s));
        if k.None? && ProfileFiltered(f) {
          i := i + 1;
          continue;
        }
        if k.Some? {
          details := AuthApi.StudentDetails(db.students[k.value]);
        }
      } else if user.accountType == DepartmentAccount {
        var k := FindFirst(db.departments, db.nextId, (d: Department) => d.userId == id);
        if k.Some? {
          details := AuthApi.DepartmentDetails(db.departments[k.value]);
        }
      }
      views := views + [UserView(id, user.email, user.accountType, user.isActive, user.lastLogin, details)];
      i := i + 1;
    }
    assert ids[..|ids|] == ids;
  }

  // ---------------------------------------------------------------------
  // PUT

  /** The `updates` object; a missing object is None. */
  datatype UserUpdates = UserUpdates(email: Option<string>, isActive: Option<bool>, password: Option<string>)

  datatype UsersOutcome = UsersOutcome(
    response: Response<string>,
    users: map<Id, User>,
    students: map<Id, Student>,
    departments: map<Id, Department>)

  /** The assignments on the user: email and password only when non-empty,
      the password hashed; the active flag when present. */
  function ApplyUserUpdates(u: User, p: UserUpdates, hash: string -> string): (r: User)
    ensures r.email == OrElse(p.email, u.email)
    ensures r.isActive == p.isActive.GetOr(u.isActive)
    ensures r.password == (if Truthy(p.password) then hash(p.password.value) else u.password)
    ensures r.accountType == u.accountType && r.lastLogin == u.lastLogin
  {
    var u1 := if Truthy(p.email) then u.(email := p.email.value) else u;
    var u2 := if p.isActive.Some? then u1.(isActive := p.isActive.value) else u1;
    if Truthy(p.password) then u2.(password := hash(p.password.value)) else u2
  }

  predicate EmailTaken(m: map<Id, User>, id: Id, u: User) {
    exists j :: j in m && j != id && m[j].email == u.email
  }

  /** The request's profile data, typed by the account type the body names. */
  datatype ProfileData = StudentProfile(s: StudentFields) | DepartmentProfile(d: DepartmentFields)

  /** The profile `findOneAndUpdate({ userId })` finds: the first student
      of the user. */
  function StudentOfUser(students: map<Id, Student>, n: nat, userId: Id): Option<Id> {
    FindFirst(students, n, (s: Student) => s.userId == userId)
  }

  function DepartmentOfUser(departments: map<Id, Department>, n: nat, userId: Id): Option<Id> {
    FindFirst(departments, n, (d: Department) => d.userId == userId)
  }

  /** `Student.findOneAndUpdate({ userId }, { $set })`: no validator runs, so
      the fields are written as `$set` writes them; only a student number
      another student holds is refused, by the unique index. A user without
      a profile changes nothing. */
  function SetStudentProfile(students: map<Id, Student>, n: nat, userId: Id, p: StudentFields): Option<map<Id, Student>>
  {
    var k := StudentOfUser(students, n, userId);
    if k.None? then Some(students)
    else
      var s := SetStudentFields(students[k.value], p);
      if exists j :: j in students && j != k.value && students[j].studentId == s.studentId then None
      else Some(students[k.value := s])
  }

  function SetDepartmentProfile(departments: map<Id, Department>, n: nat, userId: Id, p: DepartmentFields)
    : Option<map<Id, Department>>
  {
    var k := DepartmentOfUser(departments, n, userId);
    if k.None? then Some(departments)
    else
      var d := ApplyDepartmentFields(departments[k.value], p);
      if exists j :: j in departments && j != k.value && departments[j].departmentCode == d.departmentCode then None
      else Some(departments[k.value := d])
  }

  datatype Profiles = Profiles(students: map<Id, Student>, departments: map<Id, Department>)

  /** The profile update, routed by the `accountType` the request names
      rather than by the user's own type; None when the write fails. */
  function UpdateProfile(students: map<Id, Student>, departments: map<Id, Department>, n: nat, userId: Id,
                         accountType: Option<string>, profileData: Option<ProfileData>): Option<Profiles>
  {
    if accountType == Some("student") && profileData.Some? && profileData.value.StudentProfile? then
      var s := SetStudentProfile(students, n, userId, profileData.value.s);
      if s.None? then None else Some(Profiles(s.value, departments))
    else if accountType == Some("department") && profileData.Some? && profileData.value.DepartmentProfile? then
      var d := SetDepartmentProfile(departments, n, userId, profileData.value.d);
      if d.None? then None else Some(Profiles(students, d.value))
    else Some(Profiles(students, departments))
  }

  /** The PUT handler. A missing `updates` object fails on its first field
      access, after the 404 check; the user is saved before the profile is
      updated, so a profile failure still leaves the user changed. */
  function UpdateUser(users: map<Id, User>, students: map<Id, Student>, departments: map<Id, Department>, n: nat,
                      userId: Option<Id>, updates: Option<UserUpdates>, accountType: Option<string>,
                      profileData: Option<ProfileData>, hash: string -> string): UsersOutcome
  {
    if userId.None? || userId.value !in users then UsersOutcome(Fail(404, "User not found"), users, students, departments)
    else if updates.None? then UsersOutcome(Fail(500, "Failed to update user"), users, students, departments)
    else
      var id := userId.value;
      var u := ApplyUserUpdates(users[id], updates.value, hash);
      if !ValidUser(u) || EmailTaken(users, id, u) then
        UsersOutcome(Fail(500, "Failed to update user"), users, students, departments)
      else
        var p := UpdateProfile(students, departments, n, id, accountType, profileData);
        if p.None? then UsersOutcome(Fail(500, "Failed to update user"), users[id := u], students, departments)
        else UsersOutcome(Ok("User updated successfully"), users[id := u], p.value.students, p.value.departments)
  }

  /** Saving a user whose email no other user holds keeps emails unique. */
  lemma {:induction false} SaveUserKeepsIndex(users: map<Id, User>, id: Id, u: User)
    requires UniqueEmail(users) && !EmailTaken(users, id, u)
    ensures UniqueEmail(users[id := u])
  {
    var users' := users[id := u];
    forall i, j | i in users' && j in users' && i != j
      ensures users'[i].email != users'[j].email
    {
      if i != id && j != id {
        assert users'[i] == users[i] && users'[j] == users[j];
      }
    }
  }

  /** A profile update that succeeds keeps both unique indexes and the set
      of profiles; with no type named it changes nothing. */
  lemma {:induction false} UpdateProfileKeepsIndexes(students: map<Id, Student>, departments: map<Id, Department>,
                                                     n: nat, userId: Id, accountType: Option<string>,
                                                     profileData: Option<ProfileData>)
    requires UniqueStudentId(students) && UniqueDepartmentCode(departments)
    ensures var p := UpdateProfile(students, departments, n, userId, accountType, profileData);
            (p.Some? ==> UniqueStudentId(p.value.students) && UniqueDepartmentCode(p.value.departments) &&
                         p.value.students.Keys == students.Keys && p.value.departments.Keys == departments.Keys) &&
            (accountType.None? ==> p == Some(Profiles(students, departments)))
  {
    if accountType == Some("student") && profileData.Some? && profileData.value.StudentProfile? {
      var s := SetStudentProfile(students, n, userId, profileData.value.s);
      var k := StudentOfUser(students, n, userId);
      if s.Some? && k.Some? {
        var st := SetStudentFields(students[k.value], profileData.value.s);
        assert s.value == students[k.value := st];
        forall i, j | i in s.value && j in s.value && i != j
          ensures s.value[i].studentId != s.value[j].studentId
        {
          if i != k.value && j != k.value {
            assert s.value[i] == students[i] && s.value[j] == students[j];
          }
        }
      }
    } else if accountType == Some("department") && profileData.Some? && profileData.value.DepartmentProfile? {
      var d := SetDepartmentProfile(departments, n, userId, profileData.value.d);
      var k := DepartmentOfUser(departments, n, userId);
      if d.Some? && k.Some? {
        var dp := ApplyDepartmentFields(departments[k.value], profileData.value.d);
        assert d.value == departments[k.value := dp];
        forall i, j | i in d.value && j in d.value && i != j
          ensures d.value[i].departmentCode != d.value[j].departmentCode
        {
          if i != k.value && j != k.value {
            assert d.value[i] == departments[i] && d.value[j] == departments[j];
          }
        }
      }
    }
  }

  /** The profile a successful PUT leaves: with `accountType` "student" and
      student data, the user's first student profile, if any, has the data
      written onto it and nothing else changes; likewise for "department";
      with any other type, or no data, every profile stays. */
  predicate ProfileMerged(students: map<Id, Student>, departments: map<Id, Department>, n: nat, userId: Id,
                          accountType: Option<string>, profileData: Option<ProfileData>,
                          students': map<Id, Student>, departments': map<Id, Department>)
  {
    if accountType == Some("student") && profileData.Some? && profileData.value.StudentProfile? then
      var k := StudentOfUser(students, n, userId);
      departments' == departments &&
      students' == (if k.None? then students
                    else students[k.value := SetStudentFields(students[k.value], profileData.value.s)])
    else if accountType == Some("department") && profileData.Some? && profileData.value.DepartmentProfile? then
      var k := DepartmentOfUser(departments, n, userId);
      students' == students &&
      departments' == (if k.None? then departments
                       else departments[k.value := ApplyDepartmentFields(departments[k.value], profileData.value.d)])
    else students' == students && departments' == departments
  }

  /** A profile update that succeeds is the merge ProfileMerged describes. */
  lemma {:induction false} UpdateProfileMerges(students: map<Id, Student>, departments: map<Id, Department>, n: nat,
                                               userId: Id, accountType: Option<string>,
                                               profileData: Option<ProfileData>)
    ensures var p := UpdateProfile(students, departments, n, userId, accountType, profileData);
            p.Some? ==> ProfileMerged(students, departments, n, userId, accountType, profileData,
                                      p.value.students, p.value.departments)
  {
  }

  /** 404 exactly for an unknown user; without `updates` a 500 that changes
      nothing; on success the user has the requested email, activity and
      hashed password and keeps its type, no other user changes, the
      profile named by `accountType` has the data merged into it, and the
      unique indexes hold; a failure leaves every profile as it was. */
  lemma {:induction false} UpdateUserSpec(users: map<Id, User>, students: map<Id, Student>,
                                          departments: map<Id, Department>, n: nat, userId: Option<Id>,
                                          updates: Option<UserUpdates>, accountType: Option<string>,
                                          profileData: Option<ProfileData>, hash: string -> string)
    requires UniqueEmail(users) && UniqueStudentId(students) && UniqueDepartmentCode(departments)
    ensures var o := UpdateUser(users, students, departments, n, userId, updates, accountType, profileData, hash);
            UniqueEmail(o.users) && UniqueStudentId(o.students) && UniqueDepartmentCode(o.departments) &&
            o.users.Keys == users.Keys && o.students.Keys == students.Keys && o.departments.Keys == departments.Keys &&
            (o.response == Fail(404, "User not found") <==> userId.None? || userId.value !in users) &&
            (userId.Some? && userId.value in users && updates.None? ==>
               o.response.Fail? && o.users == users && o.students == students && o.departments == departments) &&
            (o.response.Ok? ==>
               var id := userId.value;
               o.users == users[id := o.users[id]] &&
               o.users[id].email == OrElse(updates.value.email, users[id].email) &&
               o.users[id].isActive == updates.value.isActive.GetOr(users[id].isActive) &&
               o.users[id].accountType == users[id].accountType &&
               (Truthy(updates.value.password) ==> o.users[id].password == hash(updates.value.password.value)) &&
               (!Truthy(updates.value.password) ==> o.users[id].password == users[id].password)) &&
            (o.response.Fail? ==> o.students == students && o.departments == departments) &&
            (o.response.Ok? ==> ProfileMerged(students, departments, n, userId.value, accountType, profileData,
                                              o.students, o.departments))
  {
    if userId.Some? && userId.value in users && updates.Some? {
      var id := userId.value;
      var u := ApplyUserUpdates(users[id], updates.value, hash);
      if ValidUser(u) && !EmailTaken(users, id, u) {
        SaveUserKeepsIndex(users, id, u);
        UpdateProfileKeepsIndexes(students, departments, n, id, accountType, profileData);
        UpdateProfileMerges(students, departments, n, id, accountType, profileData);
      }
    }
  }

  /** No validator runs on the profile write: a shift type outside the enum,
      or an emptied required name, is answered 200 like any other data. */
  lemma {:induction false} ProfileWriteUnchecked(users: map<Id, User>, students: map<Id, Student>,
                                                 departments: map<Id, Department>, n: nat, id: Id,
                                                 p: StudentFields, hash: string -> string)
    requires id in users && ValidUser(users[id]) && UniqueEmail(users) && UniqueStudentId(students)
    requires p.studentId.None?
    ensures var o := UpdateUser(users, students, departments, n, Some(id), Some(UserUpdates(None, None, None)),
                                Some("student"), Some(StudentProfile(p)), hash);
            o.response.Ok? && o.departments == departments
  {
    var u := ApplyUserUpdates(users[id], UserUpdates(None, None, None), hash);
    assert u == users[id];
    var k := StudentOfUser(students, n, id);
    if k.Some? {
      var st := SetStudentFields(students[k.value], p);
      assert st.studentId == students[k.value].studentId;
      assert !exists j :: j in students && j != k.value && students[j].studentId == st.studentId;
    }
  }

  /** Profile data is routed by the `accountType` the request names, not by
      the user's own type: naming no type leaves every profile alone. */
  lemma {:induction false} ProfileNeedsNamedType(users: map<Id, User>, students: map<Id, Student>,
                                                 departments: map<Id, Department>, n: nat, userId: Option<Id>,
                                                 updates: Option<UserUpdates>, profileData: Option<ProfileData>,
                                                 hash: string -> string)
    ensures var o := UpdateUser(users, students, departments, n, userId, updates, None, profileData, hash);
            o.students == students && o.departments == departments
  {
  }

  /** The PUT handler on the database. */
  method UpdateUserAccount(db: Db, userId: Option<Id>, updates: Option<UserUpdates>, accountType: Option<string>,
                           profileData: Option<ProfileData>, hash: string -> string)
    returns (r: Response<string>)
    requires db.Valid()
    modifies db`users, db`students, db`departments
    ensures db.Valid()
    ensures UpdateUser(old(db.users), old(db.students), old(db.departments), db.nextId, userId, updates,
                       accountType, profileData, hash)
            == UsersOutcome(r, db.users, db.students, db.departments)
  {
    UpdateUserSpec(db.users, db.students, db.departments, db.nextId, userId, updates, accountType, profileData, hash);
    if userId.None? || userId.value !in db.users {
      return Fail(404, "User not found");
    }
    if updates.None? {
      return Fail(500, "Failed to update user");
    }
    var id := userId.value;
    var user := ApplyUserUpdates(db.users[id], updates.value, hash);
    if !ValidUser(user) || EmailTaken(db.users, id, user) {
      return Fail(500, "Failed to update user");
    }
    db.users := db.users[id := user];
    var p := UpdateProfile(db.students, db.departments, db.nextId, id, accountType, profileData);
    if p.None? {
      return Fail(500, "Failed to update user");
    }
    db.students, db.departments := p.value.students, p.value.departments;
    r := Ok("User updated successfully");
  }

  // ---------------------------------------------------------------------
  // DELETE

  /** The guard against deleting the superadmin: the account is a superadmin
      and its email is the configured one. */
  predicate Protected(u: User, superAdminEmail: Option<string>) {
    u.accountType == SuperAdmin && superAdminEmail == Some(u.email)
  }

  /** The DELETE handler: the profile first (by the user's own type), then
      the user. */
  function DeleteUser(users: map<Id, User>, students: map<Id, Student>, departments: map<Id, Department>, n: nat,
                      userId: Option<Id>, superAdminEmail: Option<string>): UsersOutcome
  {
    if userId.None? then UsersOutcome(Fail(400, "User ID required"), users, students, departments)
    else if userId.value !in users then UsersOutcome(Fail(404, "User not found"), users, students, departments)
    else
      var id := userId.value;
      var u := users[id];
      if Protected(u, superAdminEmail) then UsersOutcome(Fail(403, "Cannot delete super admin"), users, students, departments)
      else
        var students' := if u.accountType == StudentAccount then
                           var k := FindFirst(students, n, (s: Student) => s.userId == id);
                           if k.Some? then students - {k.value} else students
                         else students;
        var departments' := if u.accountType == DepartmentAccount then
                              var k := FindFirst(departments, n, (d: Department) => d.userId == id);
                              if k.Some? then departments - {k.value} else departments
                            else departments;
        UsersOutcome(Ok("User deleted successfully"), users - {id}, students', departments')
  }

  /** The configured superadmin is never deleted; any other existing user is,
      together with its first profile of its own type when it has one, and
      nothing else. */
  lemma {:induction false} DeleteUserSpec(users: map<Id, User>, students: map<Id, Student>,
                                          departments: map<Id, Department>, n: nat, userId: Option<Id>,
                                          superAdminEmail: Option<string>)
    ensures var o := DeleteUser(users, students, departments, n, userId, superAdminEmail);
            (userId.Some? && userId.value in users && Protected(users[userId.value], superAdminEmail) ==>
               o.response == Fail(403, "Cannot delete super admin") && o.users == users &&
               o.students == students && o.departments == departments) &&
            (o.response.Ok? <==> userId.Some? && userId.value in users && !Protected(users[userId.value], superAdminEmail)) &&
            (o.response.Ok? ==>
               var id := userId.value;
               o.users == users - {id} &&
               (forall k :: k in o.students ==> k in students && o.students[k] == students[k]) &&
               (forall k :: k in students && k !in o.students ==>
                  students[k].userId == id && users[id].accountType == StudentAccount &&
                  forall j :: j in students && j !in o.students ==> j == k) &&
               (forall k :: k in o.departments ==> k in departments && o.departments[k] == departments[k]) &&
               (forall k :: k in departments && k !in o.departments ==>
                  departments[k].userId == id && users[id].accountType == DepartmentAccount) &&
               (forall k :: k < n && k in students && students[k].userId == id &&
                            users[id].accountType == StudentAccount &&
                            (forall i :: i < k && i in students ==> students[i].userId != id) ==>
                  k !in o.students) &&
               (forall k :: k < n && k in departments && departments[k].userId == id &&
                            users[id].accountType == DepartmentAccount &&
                            (forall i :: i < k && i in departments ==> departments[i].userId != id) ==>
                  k !in o.departments))
  {
  }

  /** A superadmin whose email is not the configured one, or any superadmin
      when no email is configured, can be deleted. */
  lemma {:induction false} UnconfiguredSuperAdminDeletable(users: map<Id, User>, students: map<Id, Student>,
                                                           departments: map<Id, Department>, n: nat, id: Id,
                                                           superAdminEmail: Option<string>)
    requires id in users && users[id].accountType == SuperAdmin && superAdminEmail != Some(users[id].email)
    ensures var o := DeleteUser(users, students, departments, n, Some(id), superAdminEmail);
            o.response.Ok? && id !in o.users
  {
  }

  method DeleteUserAccount(db: Db, userId: Option<Id>, superAdminEmail: Option<string>) returns (r: Response<string>)
    requires db.Valid()
    modifies db`users, db`students, db`departments
    ensures db.Valid()
    ensures DeleteUser(old(db.users), old(db.students), old(db.departments), db.nextId, userId, superAdminEmail)
            == UsersOutcome(r, db.users, db.students, db.departments)
  {
    if userId.None? {
      return Fail(400, "User ID required");
    }
    if userId.value !in db.users {
      return Fail(404, "User not found");
    }
    var id := userId.value;
    var user := db.users[id];
    if user.accountType == SuperAdmin && superAdminEmail == Some(user.email) {
      return Fail(403, "Cannot delete super admin");
    }
    if user.accountType == StudentAccount {
      var k := FindFirst(db.students, db.nextId, (s: Student) => s.userId == id);
      if k.Some? {
        db.students := db.students - {k.value};
      }
    } else if user.accountType == DepartmentAccount {
      var k := FindFirst(db.departments, db.nextId, (d: Department) => d.userId == id);
      if k.Some? {
        db.departments := db.departments - {k.value};
      }
    }
    db.users := db.users - {id};
    r := Ok("User deleted successfully");
  }
}
