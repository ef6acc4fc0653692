/** A student's request to change shift, and its review. */
module ScheduleRequestModel {
  import opened Common
  import opened StudentModel

  datatype RequestStatus = Pending | Approved | Rejected

  /** The schema's enum check on `status`. */
  function ParseRequestStatus(s: string): (r: Option<RequestStatus>)
    ensures r.Some? <==> s in {"pending", "approved", "rejected"}
  {
    match s
    case "pending" => Some(Pending)
    case "approved" => Some(Approved)
    case "rejected" => Some(Rejected)
    case _ => None
  }

  function RequestStatusName(s: RequestStatus): (r: string)
    ensures ParseRequestStatus(r) == Some(s)
  {
    match s
    case Pending => "pending"
    case Approved => "approved"
    case Rejected => "rejected"
  }

  /** A request. The shift types are free texts here: only the student
      schema checks them, when an approval copies them over. */
  datatype ScheduleRequest = ScheduleRequest(
    studentId: Id,
    departmentId: Id,
    currentShiftType: string,
    requestedShiftType: string,
    requestedShiftConfig: Option<ShiftConfig>,
    reason: string,
    status: RequestStatus,
    requestedAt: Time,
    reviewedAt: Option<Time>,
    reviewedBy: Option<Id>,
    comments: Option<string>)

  /** `ScheduleChangeRequest.create({ ..., status: 'pending' })` at time
      `now`: the three texts are required (non-empty); `requestedAt`
      defaults to `now`; nothing is reviewed yet. None is a validation error. */
  function NewRequest(studentId: Id, departmentId: Id, currentShiftType: Option<string>,
                      requestedShiftType: Option<string>, config: Option<ShiftConfig>,
                      reason: Option<string>, now: Time): (r: Option<ScheduleRequest>)
    ensures r.Some? <==> currentShiftType.GetOr("") != "" && requestedShiftType.GetOr("") != "" && reason.GetOr("") != ""
    ensures r.Some? ==> r.value.status == Pending && r.value.requestedAt == now
    ensures r.Some? ==> r.value.studentId == studentId && r.value.departmentId == departmentId
    ensures r.Some? ==> r.value.currentShiftType == currentShiftType.value &&
                        r.value.requestedShiftType == requestedShiftType.value &&
                        r.value.requestedShiftConfig == config && r.value.reason == reason.value
    ensures r.Some? ==> r.value.reviewedAt.None? && r.value.reviewedBy.None? && r.value.comments.None?
  {
    if currentShiftType.GetOr("") == "" || requestedShiftType.GetOr("") == "" || reason.GetOr("") == "" then None
    else Some(ScheduleRequest(studentId, departmentId, currentShiftType.value, requestedShiftType.value,
                              config, reason.value, Pending, now, None, None, None))
  }
}
