/** An audit-log entry. */
module SystemLogModel {
  import opened Common

  datatype UserType = StudentUser | DepartmentUser | AdminUser | SuperAdminUser | SystemUser

  function ParseUserType(s: string): (r: Option<UserType>)
    ensures r.Some? <==> s in {"student", "department", "admin", "superadmin", "system"}
  {
    match s
    case "student" => Some(StudentUser)
    case "department" => Some(DepartmentUser)
    case "admin" => Some(AdminUser)
    case "superadmin" => Some(SuperAdminUser)
    case "system" => Some(SystemUser)
    case _ => None
  }

  function UserTypeName(t: UserType): (s: string)
    ensures ParseUserType(s) == Some(t)
  {
    match t
    case StudentUser => "student"
    case DepartmentUser => "department"
    case AdminUser => "admin"
    case SuperAdminUser => "superadmin"
    case SystemUser => "system"
  }

  datatype Severity = Info | Warning | Error | Critical

  function ParseSeverity(s: string): (r: Option<Severity>)
    ensures r.Some? <==> s in {"info", "warning", "error", "critical"}
  {
    match s
    case "info" => Some(Info)
    case "warning" => Some(Warning)
    case "error" => Some(Error)
    case "critical" => Some(Critical)
    case _ => None
  }

  function SeverityName(v: Severity): (s: string)
    ensures ParseSeverity(s) == Some(v)
  {
    match v
    case Info => "info"
    case Warning => "warning"
    case Error => "error"
    case Critical => "critical"
  }

  /** A log entry. `metadata` is a schema-free value, held here as its JSON
      text. */
  datatype SystemLog = SystemLog(
    userId: Option<Id>,
    userEmail: Option<string>,
    userType: UserType,
    action: string,
    description: string,
    ipAddress: Option<string>,
    userAgent: Option<string>,
    metadata: Option<string>,
    severity: Severity,
    createdAt: Time)

  /** The body of a log POST; absent fields are None. */
  datatype LogFields = LogFields(
    userId: Option<Id>,
    userEmail: Option<string>,
    userType: Option<string>,
    action: Option<string>,
    description: Option<string>,
    ipAddress: Option<string>,
    userAgent: Option<string>,
    metadata: Option<string>,
    severity: Option<string>,
    createdAt: Option<Time>)

  /** `SystemLog.create(body)` at time `now`: `userType` is required and in
      its enum, `action` and `description` are required (non-empty), and
      `severity` is in its enum, defaulting to info. The entry stores the
      body's fields as given; the timestamps only fill a `createdAt` the
      body leaves unset, so a client may date its entry. None is a
      validation error. */
  function NewLog(b: LogFields, now: Time): (r: Option<SystemLog>)
    ensures r.Some? <==>
      b.userType.Some? && ParseUserType(b.userType.value).Some? &&
      b.action.GetOr("") != "" && b.description.GetOr("") != "" &&
      (b.severity.None? || ParseSeverity(b.severity.value).Some?)
    ensures r.Some? ==> r.value.createdAt == b.createdAt.GetOr(now) && r.value.action == b.action.value &&
                        r.value.description == b.description.value &&
                        UserTypeName(r.value.userType) == b.userType.value
    ensures r.Some? ==> r.value.userId == b.userId && r.value.userEmail == b.userEmail &&
                        r.value.ipAddress == b.ipAddress && r.value.userAgent == b.userAgent &&
                        r.value.metadata == b.metadata
    ensures r.Some? ==> r.value.severity == (if b.severity.None? then Info else ParseSeverity(b.severity.value).value)
  {
    var t := if b.userType.Some? then ParseUserType(b.userType.value) else None;
    var v := if b.severity.Some? then ParseSeverity(b.severity.value) else Some(Info);
    if t.None? || b.action.GetOr("") == "" || b.description.GetOr("") == "" || v.None? then None
    else Some(SystemLog(b.userId, b.userEmail, t.value, b.action.value, b.description.value,
                        b.ipAddress, b.userAgent, b.metadata, v.value, b.createdAt.GetOr(now)))
  }

  /** The body that describes an entry field for field. */
  function BodyOf(l: SystemLog): LogFields {
    LogFields(l.userId, l.userEmail, Some(UserTypeName(l.userType)), Some(l.action), Some(l.description),
              l.ipAddress, l.userAgent, l.metadata, Some(SeverityName(l.severity)), Some(l.createdAt))
  }

  /** Posting the body of an entry with an action and a description stores
      that same entry, whenever it is posted: nothing of the body is lost or
      altered. */
  lemma {:induction false} NewLogRoundTrip(l: SystemLog, now: Time)
    requires l.action != "" && l.description != ""
    ensures NewLog(BodyOf(l), now) == Some(l)
  {
    var b := BodyOf(l);
    assert ParseUserType(b.userType.value) == Some(l.userType);
    assert ParseSeverity(b.severity.value) == Some(l.severity);
  }
}
