/** The login account behind every student, department and administrator. */
module UserModel {
  import opened Common

  datatype AccountType = StudentAccount | DepartmentAccount | Admin | SuperAdmin

  /** The schema's enum check on `accountType`. */
  function ParseAccountType(s: string): (r: Option<AccountType>)
    ensures r.Some? <==> s in {"student", "department", "admin", "superadmin"}
  {
    match s
    case "student" => Some(StudentAccount)
    case "department" => Some(DepartmentAccount)
    case "admin" => Some(Admin)
    case "superadmin" => Some(SuperAdmin)
    case _ => None
  }

  function AccountTypeName(t: AccountType): (s: string)
    ensures ParseAccountType(s) == Some(t)
  {
    match t
    case StudentAccount => "student"
    case DepartmentAccount => "department"
    case Admin => "admin"
    case SuperAdmin => "superadmin"
  }

  /** A user document; `password` holds the password hash. */
  datatype User = User(
    email: string,
    password: string,
    accountType: AccountType,
    isActive: bool,
    lastLogin: Option<Time>)

  /** `User.create({ email, password, accountType })` with the schema's
      validation (required texts non-empty, the account-type enum) and
      defaults (`isActive` true, no last login); None is a validation error. */
  function NewUser(email: string, passwordHash: string, accountType: string): (r: Option<User>)
    ensures r.Some? <==> email != "" && passwordHash != "" && ParseAccountType(accountType).Some?
    ensures r.Some? ==> r.value.email == email && r.value.password == passwordHash
    ensures r.Some? ==> Some(r.value.accountType) == ParseAccountType(accountType)
    ensures r.Some? ==> r.value.isActive && r.value.lastLogin.None?
  {
    var t := ParseAccountType(accountType);
    if email == "" || passwordHash == "" || t.None? then None
    else Some(User(email, passwordHash, t.value, true, None))
  }

  /** The checks `save` runs on a user: the required texts are non-empty. */
  predicate ValidUser(u: User) {
    u.email != "" && u.password != ""
  }

  /** The unique index on `email`. */
  predicate UniqueEmail(m: map<Id, User>) {
    forall i, j :: i in m && j in m && i != j ==> m[i].email != m[j].email
  }
}
