/** The authentication route: one POST dispatching on `action` to login,
    registration and the forgotten-password reset. Password hashing and
    comparison are the parameters `hash` and `verify`; the signed token is
    represented by the claims it carries. */
module AuthApi {
  import opened Common
  import opened UserModel
  import opened StudentModel
  import opened DepartmentModel
  import opened Store

  /** The deployment's superadmin credentials; None when the variable is unset. */
  datatype SuperAdminConfig = SuperAdminConfig(email: Option<string>, password: Option<string>)

  /** The payload of the 24-hour token. */
  datatype Claims = Claims(userId: Id, email: string, accountType: AccountType)

  /** The profile returned with a login: the student or department document
      of the user, or null. */
  datatype Details = NoDetails | StudentDetails(student: Student) | DepartmentDetails(department: Department)

  datatype LoginReply = LoginReply(token: Claims, details: Details)

  /** `User.findOne({ email })`. */
  function UserByEmail(users: map<Id, User>, n: nat, email: string): Option<Id> {
    FindFirst(users, n, (u: User) => u.email == email)
  }

  /** Both configured credentials are set and equal the submitted ones. */
  predicate IsSuperAdminLogin(cfg: SuperAdminConfig, email: string, password: string) {
    cfg.email == Some(email) && cfg.password == Some(password)
  }

  /** The profile document of user `id`, looked up by its account type. */
  function ProfileOf(students: map<Id, Student>, departments: map<Id, Department>, n: nat, id: Id,
                     t: AccountType): (d: Details)
    ensures d.StudentDetails? ==> t == StudentAccount && d.student.userId == id
    ensures d.DepartmentDetails? ==> t == DepartmentAccount && d.department.userId == id
  {
    if t == StudentAccount then
      var k := FindFirst(students, n, (s: Student) => s.userId == id);
      if k.Some? then StudentDetails(students[k.value]) else NoDetails
    else if t == DepartmentAccount then
      var k := FindFirst(departments, n, (d: Department) => d.userId == id);
      if k.Some? then DepartmentDetails(departments[k.value]) else NoDetails
    else NoDetails
  }

  // ---------------------------------------------------------------------
  // Login

  /** `handleLogin` at time `now`. The configured superadmin credentials
      find, create or upgrade the superadmin and never look at `isActive`;
      any other login checks, in order, that the email is known, that the
      account is active and that the password matches. */
  function Login(users: map<Id, User>, students: map<Id, Student>, departments: map<Id, Department>, n: nat,
                 cfg: SuperAdminConfig, email: string, password: string,
                 hash: string -> string, verify: (string, string) -> bool, now: Time)
    : Outcome<User, LoginReply>
  {
    if IsSuperAdminLogin(cfg, email, password) then
      var k := UserByEmail(users, n, email);
      if k.None? then
        var u := NewUser(email, hash(password), "superadmin");
        if u.None? then Outcome(Fail(500, "Login failed"), users, n)
        else Outcome(Ok(LoginReply(Claims(n, email, SuperAdmin), NoDetails)),
                     users[n := u.value.(lastLogin := Some(now))], n + 1)
      else
        var u := users[k.value];
        var upgraded := if u.accountType != SuperAdmin then u.(accountType := SuperAdmin, password := hash(password)) else u;
        if !ValidUser(upgraded) then Outcome(Fail(500, "Login failed"), users, n)
        else Outcome(Ok(LoginReply(Claims(k.value, u.email, SuperAdmin), NoDetails)),
                     users[k.value := upgraded.(lastLogin := Some(now))], n)
    else
      var k := UserByEmail(users, n, email);
      if k.None? then Outcome(Fail(401, "Invalid credentials"), users, n)
      else
        var u := users[k.value];
        if !u.isActive then Outcome(Fail(401, "Account is deactivated"), users, n)
        else if !verify(password, u.password) then Outcome(Fail(401, "Invalid credentials"), users, n)
        else if !ValidUser(u) then Outcome(Fail(500, "Login failed"), users, n)
        else Outcome(Ok(LoginReply(Claims(k.value, u.email, u.accountType),
                                   ProfileOf(students, departments, n, k.value, u.accountType))),
                     users[k.value := u.(lastLogin := Some(now))], n)
  }

  /** The regular login's decision order: an unknown email and a wrong
      password give the same 401, an inactive account its own 401 whatever
      the password; for the first active user with the email, a matching
      password logs that user in with its profile (unless the stored user
      fails validation on save, a 500) and a wrong one is the 401; a
      success is the stored user with this email, active, whose password
      matches, and only its `lastLogin` changes. */
  lemma {:induction false} LoginOrder(users: map<Id, User>, students: map<Id, Student>, departments: map<Id, Department>,
                                      n: nat, cfg: SuperAdminConfig, email: string, password: string,
                                      hash: string -> string, verify: (string, string) -> bool, now: Time)
    requires !IsSuperAdminLogin(cfg, email, password)
    ensures var o := Login(users, students, departments, n, cfg, email, password, hash, verify, now);
            ((forall j :: j < n && j in users ==> users[j].email != email) ==> o.response == Fail(401, "Invalid credentials")) &&
            (o.response == Fail(401, "Account is deactivated") <==>
               exists j :: j < n && j in users && users[j].email == email && !users[j].isActive &&
                           forall i :: i < j && i in users ==> users[i].email != email) &&
            (o.response.Fail? ==> o.docs == users) &&
            o.nextId == n &&
            (o.response.Ok? ==>
               var id := o.response.value.token.userId;
               id in users && users[id].email == email && users[id].isActive && verify(password, users[id].password) &&
               o.response.value.token.accountType == users[id].accountType &&
               o.docs == users[id := users[id].(lastLogin := Some(now))]) &&
            (forall j :: j < n && j in users && users[j].email == email && users[j].isActive &&
                         (forall i :: i < j && i in users ==> users[i].email != email) ==>
               (!verify(password, users[j].password) ==> o.response == Fail(401, "Invalid credentials")) &&
               (verify(password, users[j].password) && ValidUser(users[j]) ==>
                  o.response.Ok? && o.response.value.token.userId == j &&
                  o.response.value.details == ProfileOf(students, departments, n, j, users[j].accountType)) &&
               (verify(password, users[j].password) && !ValidUser(users[j]) ==>
                  o.response == Fail(500, "Login failed")))
  {
    var k := UserByEmail(users, n, email);
    if k.Some? {
      var j := k.value;
      if !users[j].isActive {
        assert j < n && j in users && users[j].email == email && !users[j].isActive &&
               forall i :: i < j && i in users ==> users[i].email != email;
      }
    }
    forall j | j < n && j in users && users[j].email == email && users[j].isActive &&
               (forall i :: i < j && i in users ==> users[i].email != email)
      ensures k == Some(j)
    {
    }
  }

  /** Login answers with one of its own errors only. */
  lemma {:induction false} LoginErrors(users: map<Id, User>, students: map<Id, Student>, departments: map<Id, Department>,
                                       n: nat, cfg: SuperAdminConfig, email: string, password: string,
                                       hash: string -> string, verify: (string, string) -> bool, now: Time)
    ensures var o := Login(users, students, departments, n, cfg, email, password, hash, verify, now);
            o.response.Fail? ==>
              o.response.error in {"Invalid credentials", "Account is deactivated", "Login failed"}
  {
  }

  /** The configured credentials log in even a deactivated superadmin, and
      the account stays deactivated. */
  lemma {:induction false} SuperAdminSkipsActiveCheck(users: map<Id, User>, students: map<Id, Student>,
                                                      departments: map<Id, Department>, n: nat, cfg: SuperAdminConfig,
                                                      id: Id, hash: string -> string, verify: (string, string) -> bool,
                                                      now: Time)
    requires id < n && id in users && ValidUser(users[id]) && !users[id].isActive
    requires users[id].accountType == SuperAdmin
    requires forall j :: j < id && j in users ==> users[j].email != users[id].email
    requires cfg.email == Some(users[id].email) && cfg.password.Some?
    ensures var o := Login(users, students, departments, n, cfg, users[id].email, cfg.password.value, hash, verify, now);
            o.response.Ok? && o.response.value.token == Claims(id, users[id].email, SuperAdmin) &&
            !o.docs[id].isActive && o.docs[id].lastLogin == Some(now)
  {
    var k := UserByEmail(users, n, users[id].email);
    assert k == Some(id);
  }

  /** The configured credentials turn an existing account with that email
      into the superadmin, with the configured password's hash. */
  lemma {:induction false} SuperAdminUpgrades(users: map<Id, User>, students: map<Id, Student>,
                                              departments: map<Id, Department>, n: nat, cfg: SuperAdminConfig,
                                              id: Id, hash: string -> string, verify: (string, string) -> bool,
                                              now: Time)
    requires id < n && id in users && users[id].accountType != SuperAdmin
    requires forall j :: j < id && j in users ==> users[j].email != users[id].email
    requires cfg.email == Some(users[id].email) && cfg.password.Some?
    requires users[id].email != "" && hash(cfg.password.value) != ""
    ensures var o := Login(users, students, departments, n, cfg, users[id].email, cfg.password.value, hash, verify, now);
            o.response.Ok? && o.docs[id].accountType == SuperAdmin &&
            o.docs[id].password == hash(cfg.password.value) && o.docs[id].lastLogin == Some(now)
  {
    var k := UserByEmail(users, n, users[id].email);
    assert k == Some(id);
  }

  /** A login keeps every id below the counter and the email index unique. */
  lemma {:induction false} LoginKeepsStore(users: map<Id, User>, students: map<Id, Student>,
                                           departments: map<Id, Department>, n: nat, cfg: SuperAdminConfig,
                                           email: string, password: string, hash: string -> string,
                                           verify: (string, string) -> bool, now: Time)
    requires Below(users, n) && UniqueEmail(users)
    ensures var o := Login(users, students, departments, n, cfg, email, password, hash, verify, now);
            Below(o.docs, o.nextId) && UniqueEmail(o.docs) && o.nextId >= n &&
            (forall k :: k in users ==> k in o.docs && o.docs[k].email == users[k].email)
  {
    var o := Login(users, students, departments, n, cfg, email, password, hash, verify, now);
    var k := UserByEmail(users, n, email);
    if IsSuperAdminLogin(cfg, email, password) && k.None? && o.response.Ok? {
      forall i, j | i in o.docs && j in o.docs && i != j
        ensures o.docs[i].email != o.docs[j].email
      {
        if i == n {
          assert j in users && users[j].email != email;
        } else if j == n {
          assert i in users && users[i].email != email;
        }
      }
    }
  }

  /** `handleLogin` on the database. */
  method LoginUser(db: Db, cfg: SuperAdminConfig, email: string, password: string,
                   hash: string -> string, verify: (string, string) -> bool, now: Time)
    returns (r: Response<LoginReply>)
    requires db.Valid()
    modifies db`users, db`nextId
    ensures db.Valid()
    ensures Login(old(db.users), db.students, db.departments, old(db.nextId), cfg, email, password, hash, verify, now)
            == Outcome(r, db.users, db.nextId)
  {
    LoginKeepsStore(db.users, db.students, db.departments, db.nextId, cfg, email, password, hash, verify, now);
    var k := UserByEmail(db.users, db.nextId, email);
    if IsSuperAdminLogin(cfg, email, password) {
      var id: Id;
      var user: User;
      if k.None? {
        var created := NewUser(email, hash(password), "superadmin");
        if created.None? {
          return Fail(500, "Login failed");
        }
        id, user := db.nextId, created.value;
        db.nextId := db.nextId + 1;
      } else {
        id, user := k.value, db.users[k.value];
        if user.accountType != SuperAdmin {
          user := user.(accountType := SuperAdmin);
          user := user.(password := hash(password));
        }
        if !ValidUser(user) {
          return Fail(500, "Login failed");
        }
      }
      user := user.(lastLogin := Some(now));
      db.users := db.users[id := user];
      return Ok(LoginReply(Claims(id, user.email, SuperAdmin), NoDetails));
    }
    if k.None? {
      return Fail(401, "Invalid credentials");
    }
    var user := db.users[k.value];
    if !user.isActive {
      return Fail(401, "Account is deactivated");
    }
    if !verify(password, user.password) {
      return Fail(401, "Invalid credentials");
    }
    if !ValidUser(user) {
      return Fail(500, "Login failed");
    }
    user := user.(lastLogin := Some(now));
    db.users := db.users[k.value := user];
    r := Ok(LoginReply(Claims(k.value, user.email, user.accountType),
                       ProfileOf(db.students, db.departments, db.nextId, k.value, user.accountType)));
  }

  // ---------------------------------------------------------------------
  // Registration

  datatype RegisterOutcome = RegisterOutcome(
    response: Response<Id>,
    users: map<Id, User>,
    students: map<Id, Student>,
    departments: map<Id, Department>,
    nextId: nat)

  /** The duplicate checks, in order; None when they all pass. */
  function DuplicateError(users: map<Id, User>, students: map<Id, Student>, departments: map<Id, Department>, n: nat,
                          email: string, accountType: string, studentData: Option<StudentFields>,
                          departmentData: Option<DepartmentFields>): Option<string>
  {
    if UserByEmail(users, n, email).Some? then Some("Email already registered")
    else if accountType == "student" && studentData.Some? && Truthy(studentData.value.studentId) &&
            FindFirst(students, n, (s: Student) => s.studentId == studentData.value.studentId.value).Some?
    then Some("Student ID already registered")
    else if accountType == "department" && departmentData.Some? && Truthy(departmentData.value.departmentCode) &&
            FindFirst(departments, n, (d: Department) => d.departmentCode == departmentData.value.departmentCode.value).Some?
    then Some("Department code already exists")
    else None
  }

  /** `handleRegister`. The user is created first, the profile second, so a
      profile the schema refuses leaves the user behind with a 500 reply. */
  function Register(users: map<Id, User>, students: map<Id, Student>, departments: map<Id, Department>, n: nat,
                    email: string, password: string, accountType: string, studentData: Option<StudentFields>,
                    departmentData: Option<DepartmentFields>, hash: string -> string): RegisterOutcome
  {
    var dup := DuplicateError(users, students, departments, n, email, accountType, studentData, departmentData);
    if dup.Some? then RegisterOutcome(Fail(400, dup.value), users, students, departments, n)
    else
      var u := NewUser(email, hash(password), accountType);
      if u.None? then RegisterOutcome(Fail(500, "Registration failed"), users, students, departments, n)
      else AddProfile(users[n := u.value], students, departments, n, accountType, studentData, departmentData)
  }

  /** The profile step of a registration, after user `userId` was stored. */
  function AddProfile(users: map<Id, User>, students: map<Id, Student>, departments: map<Id, Department>,
                      userId: Id, accountType: string, studentData: Option<StudentFields>,
                      departmentData: Option<DepartmentFields>): RegisterOutcome
  {
    if accountType == "student" && studentData.Some? then
      var s := NewStudent(userId, studentData.value);
      if s.None? then RegisterOutcome(Fail(500, "Registration failed"), users, students, departments, userId + 1)
      else RegisterOutcome(Ok(userId), users, students[userId + 1 := s.value], departments, userId + 2)
    else if accountType == "department" && departmentData.Some? then
      var d := NewDepartment(userId, departmentData.value);
      if d.None? then RegisterOutcome(Fail(500, "Registration failed"), users, students, departments, userId + 1)
      else RegisterOutcome(Ok(userId), users, students, departments[userId + 1 := d.value], userId + 2)
    else RegisterOutcome(Ok(userId), users, students, departments, userId + 1)
  }

  /** Registration answers with one of its own errors only. */
  lemma {:induction false} RegisterErrors(users: map<Id, User>, students: map<Id, Student>, departments: map<Id, Department>,
                                          n: nat, email: string, password: string, accountType: string,
                                          studentData: Option<StudentFields>, departmentData: Option<DepartmentFields>,
                                          hash: string -> string)
    ensures var o := Register(users, students, departments, n, email, password, accountType, studentData, departmentData, hash);
            o.response.Fail? ==>
              o.response.error in {"Email already registered", "Student ID already registered",
                                   "Department code already exists", "Registration failed"}
  {
  }

  /** A new user whose email no stored user has keeps the email index. */
  lemma {:induction false} FreshEmailKeepsIndex(users: map<Id, User>, n: nat, u: User)
    requires UniqueEmail(users) && n !in users
    requires forall j :: j in users ==> users[j].email != u.email
    ensures UniqueEmail(users[n := u])
  {
    var users' := users[n := u];
    forall i, j | i in users' && j in users' && i != j
      ensures users'[i].email != users'[j].email
    {
      if i != n && j != n {
        assert users'[i] == users[i] && users'[j] == users[j];
      }
    }
  }

  /** The profile step leaves the users alone and answers with the user's
      id or the 500; a failure stores nothing; a profile is stored under the
      next id, built from the data as the model's creation rules build it
      (so every given field is stored), a student's unaccepted, and belongs
      to the new user unless the data names another `userId`, which the
      spread lets through. */
  lemma {:induction false} AddProfileShape(users: map<Id, User>, students: map<Id, Student>,
                                           departments: map<Id, Department>, userId: Id, accountType: string,
                                           studentData: Option<StudentFields>, departmentData: Option<DepartmentFields>)
    ensures var o := AddProfile(users, students, departments, userId, accountType, studentData, departmentData);
            o.users == users && o.nextId > userId &&
            (o.response.Fail? ==> o.response == Fail(500, "Registration failed") &&
                                  o.students == students && o.departments == departments) &&
            (o.response.Ok? ==> o.response.value == userId) &&
            (o.response.Ok? && accountType == "student" && studentData.Some? ==>
               o.students == students[userId + 1 := o.students[userId + 1]] && o.departments == departments &&
               Some(o.students[userId + 1]) == NewStudent(userId, studentData.value) &&
               o.students[userId + 1].userId == studentData.value.userId.GetOr(userId) &&
               !o.students[userId + 1].isAccepted) &&
            (o.response.Ok? && accountType == "department" && departmentData.Some? ==>
               o.departments == departments[userId + 1 := o.departments[userId + 1]] && o.students == students &&
               Some(o.departments[userId + 1]) == NewDepartment(userId, departmentData.value) &&
               o.departments[userId + 1].userId == departmentData.value.userId.GetOr(userId))
  {
  }

  /** The profile step keeps the student and department indexes when the
      duplicate checks passed. */
  lemma {:induction false} AddProfileKeepsIndexes(users: map<Id, User>, students: map<Id, Student>,
                                                  departments: map<Id, Department>, userId: Id, accountType: string,
                                                  studentData: Option<StudentFields>, departmentData: Option<DepartmentFields>)
    requires Below(students, userId + 1) && Below(departments, userId + 1)
    requires UniqueStudentId(students) && UniqueDepartmentCode(departments)
    requires accountType == "student" && studentData.Some? && Truthy(studentData.value.studentId) ==>
               forall j :: j in students ==> students[j].studentId != studentData.value.studentId.value
    requires accountType == "department" && departmentData.Some? && Truthy(departmentData.value.departmentCode) ==>
               forall j :: j in departments ==> departments[j].departmentCode != departmentData.value.departmentCode.value
    ensures var o := AddProfile(users, students, departments, userId, accountType, studentData, departmentData);
            Below(o.students, o.nextId) && Below(o.departments, o.nextId) &&
            UniqueStudentId(o.students) && UniqueDepartmentCode(o.departments)
  {
    if accountType == "student" && studentData.Some? {
      var s := NewStudent(userId, studentData.value);
      if s.Some? {
        var students' := students[userId + 1 := s.value];
        forall i, j | i in students' && j in students' && i != j
          ensures students'[i].studentId != students'[j].studentId
        {
          if i != userId + 1 && j != userId + 1 {
            assert students'[i] == students[i] && students'[j] == students[j];
          }
        }
      }
    } else if accountType == "department" && departmentData.Some? {
      var d := NewDepartment(userId, departmentData.value);
      if d.Some? {
        var departments' := departments[userId + 1 := d.value];
        forall i, j | i in departments' && j in departments' && i != j
          ensures departments'[i].departmentCode != departments'[j].departmentCode
        {
          if i != userId + 1 && j != userId + 1 {
            assert departments'[i] == departments[i] && departments'[j] == departments[j];
          }
        }
      }
    }
  }

  /** Every registration keeps the ids below the counter and the email,
      student-number and department-code indexes unique. */
  lemma {:induction false} RegisterKeepsStore(users: map<Id, User>, students: map<Id, Student>,
                                              departments: map<Id, Department>, n: nat, email: string,
                                              password: string, accountType: string,
                                              studentData: Option<StudentFields>,
                                              departmentData: Option<DepartmentFields>, hash: string -> string)
    requires Below(users, n) && Below(students, n) && Below(departments, n)
    requires UniqueEmail(users) && UniqueStudentId(students) && UniqueDepartmentCode(departments)
    ensures var o := Register(users, students, departments, n, email, password, accountType, studentData, departmentData, hash);
            Below(o.users, o.nextId) && Below(o.students, o.nextId) && Below(o.departments, o.nextId) &&
            UniqueEmail(o.users) && UniqueStudentId(o.students) && UniqueDepartmentCode(o.departments)
  {
    var dup := DuplicateError(users, students, departments, n, email, accountType, studentData, departmentData);
    if dup.None? {
      var u := NewUser(email, hash(password), accountType);
      if u.Some? {
        NoDuplicateIsFresh(users, students, departments, n, email, accountType, studentData, departmentData);
        FreshEmailKeepsIndex(users, n, u.value);
        AddProfileKeepsIndexes(users[n := u.value], students, departments, n, accountType, studentData, departmentData);
        AddProfileShape(users[n := u.value], students, departments, n, accountType, studentData, departmentData);
        assert Register(users, students, departments, n, email, password, accountType, studentData, departmentData, hash)
               == AddProfile(users[n := u.value], students, departments, n, accountType, studentData, departmentData);
      }
    }
  }

  /** When the duplicate checks find nothing, no stored user has the email,
      and no stored profile has the student number or department code the
      data names. */
  lemma {:induction false} NoDuplicateIsFresh(users: map<Id, User>, students: map<Id, Student>,
                                              departments: map<Id, Department>, n: nat, email: string,
                                              accountType: string, studentData: Option<StudentFields>,
                                              departmentData: Option<DepartmentFields>)
    requires Below(users, n) && Below(students, n) && Below(departments, n)
    requires DuplicateError(users, students, departments, n, email, accountType, studentData, departmentData).None?
    ensures forall j :: j in users ==> users[j].email != email
    ensures accountType == "student" && studentData.Some? && Truthy(studentData.value.studentId) ==>
              forall j :: j in students ==> students[j].studentId != studentData.value.studentId.value
    ensures accountType == "department" && departmentData.Some? && Truthy(departmentData.value.departmentCode) ==>
              forall j :: j in departments ==> departments[j].departmentCode != departmentData.value.departmentCode.value
  {
    assert forall j :: j in users ==> users[j].email != email;
    if accountType == "student" && studentData.Some? && Truthy(studentData.value.studentId) {
      var sid := studentData.value.studentId.value;
      assert FindFirst(students, n, (s: Student) => s.studentId == sid).None?;
      assert forall j :: j in students ==> students[j].studentId != sid;
    }
    if accountType == "department" && departmentData.Some? && Truthy(departmentData.value.departmentCode) {
      var code := departmentData.value.departmentCode.value;
      assert FindFirst(departments, n, (d: Department) => d.departmentCode == code).None?;
      assert forall j :: j in departments ==> departments[j].departmentCode != code;
    }
  }

  /** The duplicate checks, in the route's order: a taken email, then a
      taken student number, then a taken department code. */
  lemma {:induction false} DuplicateErrorOrder(users: map<Id, User>, students: map<Id, Student>,
                                               departments: map<Id, Department>, n: nat, email: string,
                                               accountType: string, studentData: Option<StudentFields>,
                                               departmentData: Option<DepartmentFields>)
    requires Below(users, n) && Below(students, n) && Below(departments, n)
    ensures var dup := DuplicateError(users, students, departments, n, email, accountType, studentData, departmentData);
            ((exists j :: j in users && users[j].email == email) ==> dup == Some("Email already registered")) &&
            ((forall j :: j in users ==> users[j].email != email) &&
             accountType == "student" && studentData.Some? && Truthy(studentData.value.studentId) &&
             (exists j :: j in students && students[j].studentId == studentData.value.studentId.value) ==>
               dup == Some("Student ID already registered")) &&
            ((forall j :: j in users ==> users[j].email != email) &&
             accountType == "department" && departmentData.Some? && Truthy(departmentData.value.departmentCode) &&
             (exists j :: j in departments && departments[j].departmentCode == departmentData.value.departmentCode.value) ==>
               dup == Some("Department code already exists"))
  {
    if exists j :: j in users && users[j].email == email {
      var j :| j in users && users[j].email == email;
      assert UserByEmail(users, n, email).Some?;
    }
    if accountType == "student" && studentData.Some? && Truthy(studentData.value.studentId) &&
       exists j :: j in students && students[j].studentId == studentData.value.studentId.value {
      var sid := studentData.value.studentId.value;
      var j :| j in students && students[j].studentId == sid;
      assert FindFirst(students, n, (s: Student) => s.studentId == sid).Some?;
    }
    if accountType == "department" && departmentData.Some? && Truthy(departmentData.value.departmentCode) &&
       exists j :: j in departments && departments[j].departmentCode == departmentData.value.departmentCode.value {
      var code := departmentData.value.departmentCode.value;
      var j :| j in departments && departments[j].departmentCode == code;
      assert FindFirst(departments, n, (d: Department) => d.departmentCode == code).Some?;
    }
  }

  /** A taken email, student number or department code is refused with 400
      and its own message, checked in that order, and nothing stored. */
  lemma {:induction false} RegisterRefusesTaken(users: map<Id, User>, students: map<Id, Student>,
                                                departments: map<Id, Department>, n: nat, email: string,
                                                password: string, accountType: string,
                                                studentData: Option<StudentFields>,
                                                departmentData: Option<DepartmentFields>, hash: string -> string)
    requires Below(users, n) && Below(students, n) && Below(departments, n)
    ensures var o := Register(users, students, departments, n, email, password, accountType, studentData, departmentData, hash);
            ((exists j :: j in users && users[j].email == email) ==> o.response == Fail(400, "Email already registered")) &&
            ((forall j :: j in users ==> users[j].email != email) &&
             accountType == "student" && studentData.Some? && Truthy(studentData.value.studentId) &&
             (exists j :: j in students && students[j].studentId == studentData.value.studentId.value) ==>
               o.response == Fail(400, "Student ID already registered")) &&
            ((forall j :: j in users ==> users[j].email != email) &&
             accountType == "department" && departmentData.Some? && Truthy(departmentData.value.departmentCode) &&
             (exists j :: j in departments && departments[j].departmentCode == departmentData.value.departmentCode.value) ==>
               o.response == Fail(400, "Department code already exists")) &&
            (o.response.Fail? && o.response.status == 400 ==>
               o.users == users && o.students == students && o.departments == departments)
  {
    DuplicateErrorOrder(users, students, departments, n, email, accountType, studentData, departmentData);
    var dup := DuplicateError(users, students, departments, n, email, accountType, studentData, departmentData);
    if dup.None? {
      var u := NewUser(email, hash(password), accountType);
      if u.Some? {
        AddProfileShape(users[n := u.value], students, departments, n, accountType, studentData, departmentData);
      }
    }
  }

  /** A successful registration stores the user under the returned, unused
      id, active, with the password's hash and the requested account type,
      and a fresh profile that belongs to the new user unless the data names
      another `userId`; a student's is not yet accepted whatever the data
      said. */
  lemma {:induction false} RegisterStoresUser(users: map<Id, User>, students: map<Id, Student>,
                                              departments: map<Id, Department>, n: nat, email: string,
                                              password: string, accountType: string,
                                              studentData: Option<StudentFields>,
                                              departmentData: Option<DepartmentFields>, hash: string -> string)
    requires Below(users, n) && Below(students, n) && Below(departments, n)
    ensures var o := Register(users, students, departments, n, email, password, accountType, studentData, departmentData, hash);
            (o.response.Ok? ==>
               var id := o.response.value;
               o.users == users[id := o.users[id]] && id !in users && id < o.nextId &&
               (forall j :: j in users ==> users[j].email != email) && ValidUser(o.users[id]) &&
               o.users[id].email == email && o.users[id].password == hash(password) && o.users[id].isActive &&
               Some(o.users[id].accountType) == ParseAccountType(accountType)) &&
            (o.response.Ok? && accountType == "student" && studentData.Some? ==>
               exists k :: k in o.students && k !in students && !o.students[k].isAccepted &&
                           Some(o.students[k]) == NewStudent(o.response.value, studentData.value) &&
                           o.students[k].userId == studentData.value.userId.GetOr(o.response.value)) &&
            (o.response.Ok? && accountType == "department" && departmentData.Some? ==>
               exists k :: k in o.departments && k !in departments &&
                           Some(o.departments[k]) == NewDepartment(o.response.value, departmentData.value) &&
                           o.departments[k].userId == departmentData.value.userId.GetOr(o.response.value))
  {
    var dup := DuplicateError(users, students, departments, n, email, accountType, studentData, departmentData);
    if dup.None? {
      var u := NewUser(email, hash(password), accountType);
      if u.Some? {
        AddProfileShape(users[n := u.value], students, departments, n, accountType, studentData, departmentData);
      }
    }
  }

  /** A student registration whose profile the schema refuses answers 500
      but keeps the user it already created. */
  lemma {:induction false} RegisterLeavesOrphanUser(users: map<Id, User>, students: map<Id, Student>,
                                                    departments: map<Id, Department>, n: nat, email: string,
                                                    password: string, studentData: StudentFields, hash: string -> string)
    requires forall j :: j in users ==> users[j].email != email
    requires forall j :: j in students ==> Some(students[j].studentId) != studentData.studentId
    requires email != "" && hash(password) != ""
    requires studentData.firstName.None?
    ensures var o := Register(users, students, departments, n, email, password, "student", Some(studentData), None, hash);
            o.response == Fail(500, "Registration failed") && n in o.users && o.users[n].email == email &&
            o.students == students
  {
    assert UserByEmail(users, n, email).None?;
    if Truthy(studentData.studentId) {
      var id := studentData.studentId.value;
      assert FindFirst(students, n, (s: Student) => s.studentId == id).None?;
    }
  }

  /** Registration accepts every account type of the schema, so anyone can
      create an active superadmin account for themselves. */
  lemma {:induction false} RegisterAdmitsSuperAdmin(users: map<Id, User>, students: map<Id, Student>,
                                                    departments: map<Id, Department>, n: nat, email: string,
                                                    password: string, hash: string -> string)
    requires forall j :: j in users ==> users[j].email != email
    requires email != "" && hash(password) != ""
    ensures var o := Register(users, students, departments, n, email, password, "superadmin", None, None, hash);
            o.response == Ok(n) && o.users[n].accountType == SuperAdmin && o.users[n].isActive
  {
    assert UserByEmail(users, n, email).None?;
  }

  /** A registered account can log in at once with its password (when the
      hash verifies it and the email is not the configured superadmin's),
      and the token names the new account and its type. */
  lemma {:induction false} RegisterThenLogin(users: map<Id, User>, students: map<Id, Student>,
                                             departments: map<Id, Department>, n: nat, email: string, password: string,
                                             accountType: string, studentData: Option<StudentFields>,
                                             departmentData: Option<DepartmentFields>, cfg: SuperAdminConfig,
                                             hash: string -> string, verify: (string, string) -> bool, now: Time)
    requires Below(users, n) && Below(students, n) && Below(departments, n)
    requires verify(password, hash(password))
    requires cfg.email != Some(email)
    ensures var o := Register(users, students, departments, n, email, password, accountType, studentData, departmentData, hash);
            o.response.Ok? ==>
              var l := Login(o.users, o.students, o.departments, o.nextId, cfg, email, password, hash, verify, now);
              l.response.Ok? && l.response.value.token.userId == o.response.value &&
              Some(l.response.value.token.accountType) == ParseAccountType(accountType)
  {
    var o := Register(users, students, departments, n, email, password, accountType, studentData, departmentData, hash);
    RegisterStoresUser(users, students, departments, n, email, password, accountType, studentData, departmentData, hash);
    if o.response.Ok? {
      var id := o.response.value;
      FindFirstIs(o.users, o.nextId, (x: User) => x.email == email, id);
    }
  }

  /** `handleRegister` on the database: the checks, the user, the profile. */
  method RegisterUser(db: Db, email: string, password: string, accountType: string,
                      studentData: Option<StudentFields>, departmentData: Option<DepartmentFields>,
                      hash: string -> string)
    returns (r: Response<Id>)
    requires db.Valid()
    modifies db`users, db`students, db`departments, db`nextId
    ensures db.Valid()
    ensures Register(old(db.users), old(db.students), old(db.departments), old(db.nextId), email, password,
                     accountType, studentData, departmentData, hash)
            == RegisterOutcome(r, db.users, db.students, db.departments, db.nextId)
  {
    RegisterKeepsStore(db.users, db.students, db.departments, db.nextId, email, password, accountType,
                       studentData, departmentData, hash);
    var dup := DuplicateError(db.users, db.students, db.departments, db.nextId, email, accountType,
                              studentData, departmentData);
    if dup.Some? {
      return Fail(400, dup.value);
    }
    var user := NewUser(email, hash(password), accountType);
    if user.None? {
      return Fail(500, "Registration failed");
    }
    var userId := db.nextId;
    db.users := db.users[userId := user.value];
    db.nextId := db.nextId + 1;
    r := CreateProfile(db, userId, accountType, studentData, departmentData);
  }

  /** The profile step on the database. */
  method CreateProfile(db: Db, userId: Id, accountType: string, studentData: Option<StudentFields>,
                       departmentData: Option<DepartmentFields>)
    returns (r: Response<Id>)
    requires db.nextId == userId + 1
    modifies db`students, db`departments, db`nextId
    ensures AddProfile(db.users, old(db.students), old(db.departments), userId, accountType, studentData, departmentData)
            == RegisterOutcome(r, db.users, db.students, db.departments, db.nextId)
  {
    if accountType == "student" && studentData.Some? {
      var student := NewStudent(userId, studentData.value);
      if student.None? {
        return Fail(500, "Registration failed");
      }
      db.students := db.students[db.nextId := student.value];
      db.nextId := db.nextId + 1;
    } else if accountType == "department" && departmentData.Some? {
      var department := NewDepartment(userId, departmentData.value);
      if department.None? {
        return Fail(500, "Registration failed");
      }
      db.departments := db.departments[db.nextId := department.value];
      db.nextId := db.nextId + 1;
    }
    r := Ok(userId);
  }

  // ---------------------------------------------------------------------
  // Forgotten password

  /** `handleForgotPassword` with `temp` the fresh random password: its hash
      replaces the stored one. The reset email is not modelled; its failure
      does not change the reply. */
  function ForgotPassword(users: map<Id, User>, n: nat, email: string, temp: string, hash: string -> string)
    : Outcome<User, string>
  {
    var k := UserByEmail(users, n, email);
    if k.None? then Outcome(Fail(404, "Email not found"), users, n)
    else
      var u := users[k.value].(password := hash(temp));
      if !ValidUser(u) then Outcome(Fail(500, "Failed to process request"), users, n)
      else Outcome(Ok("A temporary password has been sent to your email."), users[k.value := u], n)
  }

  /** A reset answers 404 "Email not found", changing nothing, exactly when
      no stored user has the email; a success replaces only the password of
      the first user with the email, by the temporary password's hash; any
      failure changes nothing; the email index and the counter are kept. */
  lemma {:induction false} ForgotPasswordSpec(users: map<Id, User>, n: nat, email: string, temp: string,
                                              hash: string -> string)
    requires Below(users, n) && UniqueEmail(users)
    ensures var o := ForgotPassword(users, n, email, temp, hash);
            o.nextId == n && UniqueEmail(o.docs) &&
            (o.response == Fail(404, "Email not found") <==> forall j :: j in users ==> users[j].email != email) &&
            (o.response.Fail? ==> o.docs == users) &&
            (o.response.Ok? ==>
               exists j :: j in users && users[j].email == email &&
                           o.docs == users[j := users[j].(password := hash(temp))]) &&
            (forall j :: j in users && users[j].email == email && ValidUser(users[j]) && hash(temp) != "" ==>
               o.response.Ok? && o.docs == users[j := users[j].(password := hash(temp))])
  {
    var o := ForgotPassword(users, n, email, temp, hash);
    var k := UserByEmail(users, n, email);
    if exists j :: j in users && users[j].email == email {
      var j :| j in users && users[j].email == email;
      assert k.Some?;
    }
    if k.Some? {
      var u := users[k.value].(password := hash(temp));
      SameEmailKeepsIndex(users, k.value, u);
    }
  }

  /** Rewriting a user without changing its email keeps the index unique. */
  lemma {:induction false} SameEmailKeepsIndex(users: map<Id, User>, id: Id, u: User)
    requires UniqueEmail(users) && id in users && u.email == users[id].email
    ensures UniqueEmail(users[id := u])
  {
    var users' := users[id := u];
    forall i, j | i in users' && j in users' && i != j
      ensures users'[i].email != users'[j].email
    {
      assert users'[i].email == users[i].email && users'[j].email == users[j].email;
    }
  }

  /** After a reset the temporary password logs the account in (when the
      hash verifies it, the account is active and the email is not the
      configured superadmin's). */
  lemma {:induction false} ResetThenLogin(users: map<Id, User>, students: map<Id, Student>,
                                          departments: map<Id, Department>, n: nat, email: string, temp: string,
                                          cfg: SuperAdminConfig, hash: string -> string,
                                          verify: (string, string) -> bool, now: Time)
    requires verify(temp, hash(temp))
    requires cfg.email != Some(email)
    requires forall j :: j in users && users[j].email == email ==> users[j].isActive
    ensures var o := ForgotPassword(users, n, email, temp, hash);
            o.response.Ok? ==>
              var l := Login(o.docs, students, departments, n, cfg, email, temp, hash, verify, now);
              l.response.Ok? && o.docs[l.response.value.token.userId].password == hash(temp)
  {
    var o := ForgotPassword(users, n, email, temp, hash);
    if o.response.Ok? {
      var k := UserByEmail(users, n, email);
      FindFirstIs(o.docs, n, (u: User) => u.email == email, k.value);
    }
  }

  method ResetPassword(db: Db, email: string, temp: string, hash: string -> string)
    returns (r: Response<string>)
    requires db.Valid()
    modifies db`users
    ensures db.Valid()
    ensures ForgotPassword(old(db.users), db.nextId, email, temp, hash) == Outcome(r, db.users, db.nextId)
  {
    var k := UserByEmail(db.users, db.nextId, email);
    if k.None? {
      return Fail(404, "Email not found");
    }
    var user := db.users[k.value];
    user := user.(password := hash(temp));
    if !ValidUser(user) {
      return Fail(500, "Failed to process request");
    }
    db.users := db.users[k.value := user];
    r := Ok("A temporary password has been sent to your email.");
  }

  // ---------------------------------------------------------------------
  // Dispatch

  /** The JSON body of an auth request. */
  datatype AuthRequest = AuthRequest(
    action: Option<string>,
    email: string,
    password: string,
    accountType: string,
    studentData: Option<StudentFields>,
    departmentData: Option<DepartmentFields>)

  datatype AuthReply = LoggedIn(login: LoginReply) | Registered(userId: Id) | Message(text: string)

  datatype AuthOutcome = AuthOutcome(
    response: Response<AuthReply>,
    users: map<Id, User>,
    students: map<Id, Student>,
    departments: map<Id, Department>,
    nextId: nat)

  function Wrap<T>(r: Response<T>, f: T -> AuthReply): Response<AuthReply> {
    if r.Ok? then Ok(f(r.value)) else Fail(r.status, r.error)
  }

  /** The POST handler: three actions, anything else 400. */
  function Dispatch(users: map<Id, User>, students: map<Id, Student>, departments: map<Id, Department>, n: nat,
                    req: AuthRequest, cfg: SuperAdminConfig, hash: string -> string,
                    verify: (string, string) -> bool, temp: string, now: Time): AuthOutcome
  {
    if req.action == Some("login") then
      var o := Login(users, students, departments, n, cfg, req.email, req.password, hash, verify, now);
      AuthOutcome(Wrap(o.response, (l: LoginReply) => LoggedIn(l)), o.docs, students, departments, o.nextId)
    else if req.action == Some("register") then
      var o := Register(users, students, departments, n, req.email, req.password, req.accountType,
                        req.studentData, req.departmentData, hash);
      AuthOutcome(Wrap(o.response, (id: Id) => Registered(id)), o.users, o.students, o.departments, o.nextId)
    else if req.action == Some("forgotPassword") then
      var o := ForgotPassword(users, n, req.email, temp, hash);
      AuthOutcome(Wrap(o.response, (m: string) => Message(m)), o.docs, students, departments, n)
    else AuthOutcome(Fail(400, "Invalid action"), users, students, departments, n)
  }

  /** Only the three named actions reach a handler; any other action, or
      none, is a 400 that changes nothing. */
  lemma {:induction false} DispatchSpec(users: map<Id, User>, students: map<Id, Student>, departments: map<Id, Department>,
                                        n: nat, req: AuthRequest, cfg: SuperAdminConfig, hash: string -> string,
                                        verify: (string, string) -> bool, temp: string, now: Time)
    ensures var o := Dispatch(users, students, departments, n, req, cfg, hash, verify, temp, now);
            (o.response == Fail(400, "Invalid action") <==>
               req.action !in {Some("login"), Some("register"), Some("forgotPassword")}) &&
            (o.response.Ok? && o.response.value.LoggedIn? ==> req.action == Some("login")) &&
            (o.response.Ok? && o.response.value.Registered? ==> req.action == Some("register")) &&
            (req.action != Some("register") ==> o.students == students && o.departments == departments)
  {
    if req.action == Some("register") {
      RegisterErrors(users, students, departments, n, req.email, req.password, req.accountType,
                     req.studentData, req.departmentData, hash);
    } else if req.action == Some("login") {
      LoginErrors(users, students, departments, n, cfg, req.email, req.password, hash, verify, now);
    }
  }

  /** The POST handler on the database. */
  method Authenticate(db: Db, req: AuthRequest, cfg: SuperAdminConfig, hash: string -> string,
                      verify: (string, string) -> bool, temp: string, now: Time)
    returns (r: Response<AuthReply>)
    requires db.Valid()
    modifies db`users, db`students, db`departments, db`nextId
    ensures db.Valid()
    ensures Dispatch(old(db.users), old(db.students), old(db.departments), old(db.nextId), req, cfg, hash, verify, temp, now)
            == AuthOutcome(r, db.users, db.students, db.departments, db.nextId)
  {
    if req.action == Some("login") {
      var l := LoginUser(db, cfg, req.email, req.password, hash, verify, now);
      r := Wrap(l, (l: LoginReply) => LoggedIn(l));
    } else if req.action == Some("register") {
      var g := RegisterUser(db, req.email, req.password, req.accountType, req.studentData, req.departmentData, hash);
      r := Wrap(g, (id: Id) => Registered(id));
    } else if req.action == Some("forgotPassword") {
      var f := ResetPassword(db, req.email, temp, hash);
      r := Wrap(f, (m: string) => Message(m));
    } else {
      r := Fail(400, "Invalid action");
    }
  }
}
