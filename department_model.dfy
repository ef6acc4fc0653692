/** The host-department profile: name, code, advisor and the two approval
    flags. */
module DepartmentModel {
  import opened Common

  datatype Department = Department(
    userId: Id,
    departmentName: string,
    departmentCode: string,
    location: string,
    contactEmail: string,
    contactNumber: Option<string>,
    ojtAdvisorName: string,
    ojtAdvisorPosition: string,
    isActive: bool,
    isAccepted: bool)

  /** The fields a request body may carry for a department; absent is None.
      `userId` is among them: the registration's spread and `$set` copy it
      like any other field. */
  datatype DepartmentFields = DepartmentFields(
    userId: Option<Id>,
    departmentName: Option<string>,
    departmentCode: Option<string>,
    location: Option<string>,
    contactEmail: Option<string>,
    contactNumber: Option<string>,
    ojtAdvisorName: Option<string>,
    ojtAdvisorPosition: Option<string>,
    isActive: Option<bool>,
    isAccepted: Option<bool>)

  predicate ValidDepartment(d: Department) {
    d.departmentName != "" && d.departmentCode != "" && d.location != "" &&
    d.contactEmail != "" && d.ojtAdvisorName != "" && d.ojtAdvisorPosition != ""
  }

  /** `Department.create({ userId, ...data })`: required texts must be
      non-empty; `isActive` defaults to true and `isAccepted` to false unless
      the data carries them, and a `userId` in the data overrides the one
      given. None is a validation error. */
  function NewDepartment(userId: Id, data: DepartmentFields): (r: Option<Department>)
    ensures r.Some? <==>
      data.departmentName.GetOr("") != "" && data.departmentCode.GetOr("") != "" &&
      data.location.GetOr("") != "" && data.contactEmail.GetOr("") != "" &&
      data.ojtAdvisorName.GetOr("") != "" && data.ojtAdvisorPosition.GetOr("") != ""
    ensures r.Some? ==> ValidDepartment(r.value) && r.value.userId == data.userId.GetOr(userId)
    ensures r.Some? ==>
              r.value.departmentName == data.departmentName.value &&
              r.value.departmentCode == data.departmentCode.value && r.value.location == data.location.value &&
              r.value.contactEmail == data.contactEmail.value && r.value.contactNumber == data.contactNumber &&
              r.value.ojtAdvisorName == data.ojtAdvisorName.value &&
              r.value.ojtAdvisorPosition == data.ojtAdvisorPosition.value
    ensures r.Some? ==> r.value.isActive == data.isActive.GetOr(true)
    ensures r.Some? ==> r.value.isAccepted == data.isAccepted.GetOr(false)
  {
    if data.departmentName.GetOr("") == "" || data.departmentCode.GetOr("") == "" ||
       data.location.GetOr("") == "" || data.contactEmail.GetOr("") == "" ||
       data.ojtAdvisorName.GetOr("") == "" || data.ojtAdvisorPosition.GetOr("") == ""
    then None
    else Some(Department(data.userId.GetOr(userId), data.departmentName.value, data.departmentCode.value,
                         data.location.value, data.contactEmail.value, data.contactNumber,
                         data.ojtAdvisorName.value, data.ojtAdvisorPosition.value,
                         data.isActive.GetOr(true), data.isAccepted.GetOr(false)))
  }

  /** `$set` of the given fields, without validation: every field the data
      names is stored as given, the others keep their values. */
  function ApplyDepartmentFields(d: Department, p: DepartmentFields): (r: Department)
    ensures r.userId == p.userId.GetOr(d.userId)
    ensures r.departmentName == p.departmentName.GetOr(d.departmentName)
    ensures r.departmentCode == p.departmentCode.GetOr(d.departmentCode)
    ensures r.location == p.location.GetOr(d.location) && r.contactEmail == p.contactEmail.GetOr(d.contactEmail)
    ensures r.contactNumber == (if p.contactNumber.Some? then p.contactNumber else d.contactNumber)
    ensures r.ojtAdvisorName == p.ojtAdvisorName.GetOr(d.ojtAdvisorName)
    ensures r.ojtAdvisorPosition == p.ojtAdvisorPosition.GetOr(d.ojtAdvisorPosition)
    ensures r.isActive == p.isActive.GetOr(d.isActive) && r.isAccepted == p.isAccepted.GetOr(d.isAccepted)
  {
    Department(p.userId.GetOr(d.userId), p.departmentName.GetOr(d.departmentName),
               p.departmentCode.GetOr(d.departmentCode),
               p.location.GetOr(d.location), p.contactEmail.GetOr(d.contactEmail),
               if p.contactNumber.Some? then p.contactNumber else d.contactNumber,
               p.ojtAdvisorName.GetOr(d.ojtAdvisorName), p.ojtAdvisorPosition.GetOr(d.ojtAdvisorPosition),
               p.isActive.GetOr(d.isActive), p.isAccepted.GetOr(d.isAccepted))
  }

  /** The unique index on `departmentCode`. */
  predicate UniqueDepartmentCode(m: map<Id, Department>) {
    forall i, j :: i in m && j in m && i != j ==> m[i].departmentCode != m[j].departmentCode
  }
}
