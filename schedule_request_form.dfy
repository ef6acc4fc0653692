/** The student's schedule-change panel: the request form, its submission
    and reset, the status badges of past requests and the label of the
    current schedule. */
module ScheduleChangeForm {
  import opened Common
  import opened Text
  import opened StudentModel
  import opened DepartmentModel
  import opened ScheduleRequestModel
  import opened ScheduleRequestsApi

  /** The form's fields; the shift type is the value of the select. */
  datatype FormData = FormData(requestedShiftType: string, eveningStart: string, eveningEnd: string, reason: string)

  /** The fields the form starts with and returns to after a submission. */
  const DefaultForm := FormData("custom", "19:00", "07:00", "")

  // ---------------------------------------------------------------------
  // The request body

  /** The browser submits the form only when its required inputs are
      filled: the reason always, and the two times when they are shown,
      that is when the select says custom. */
  predicate Submittable(f: FormData) {
    f.reason != "" && (f.requestedShiftType == "custom" ==> f.eveningStart != "" && f.eveningEnd != "")
  }

  /** The description the form writes for a shift from `start` to `end`. */
  function CustomDescription(start: string, end: string): string {
    "Custom shift: " + start + " to " + end
  }

  /** The requested configuration: whatever the select says, it is a custom
      evening shift between the two times of the form. */
  function RequestedConfig(f: FormData): (c: ShiftConfig)
    ensures ValidShiftConfig(c)
    ensures c.kind == Some(ShiftKindName(Custom))
    ensures c.morningStart.None? && c.morningEnd.None? && c.afternoonStart.None? && c.afternoonEnd.None?
  {
    ShiftConfig(Some("custom"), None, None, None, None, Some(f.eveningStart), Some(f.eveningEnd),
                Some(CustomDescription(f.eveningStart, f.eveningEnd)))
  }

  /** The POST body: the props of the panel and the form's fields. */
  datatype RequestBody = RequestBody(studentId: Id, currentShiftType: string, requestedShiftType: string,
                                     requestedShiftConfig: ShiftConfig, reason: string)

  function BodyOf(studentId: Id, currentShiftType: string, f: FormData): RequestBody {
    RequestBody(studentId, currentShiftType, f.requestedShiftType, RequestedConfig(f), f.reason)
  }

  /** The selected shift type does not reach the configuration: choosing
      graveyard or custom sends the same configuration. */
  lemma ConfigIgnoresSelection(f: FormData, t: string)
    ensures RequestedConfig(f.(requestedShiftType := t)) == RequestedConfig(f)
    ensures BodyOf(0, "", f.(requestedShiftType := t)).requestedShiftType == t
  {
  }

  /** The description names the two times as separate words, so they can be
      read back from it when neither contains a space. */
  lemma {:induction false} DescriptionReadsBack(start: string, end: string)
    requires ' ' !in start && ' ' !in end
    ensures Split(CustomDescription(start, end), ' ') == ["Custom", "shift:", start, "to", end]
  {
    var words := ["Custom", "shift:", start, "to", end];
    assert Join(words[4..], ' ') == end;
    assert Join(words[3..], ' ') == "to " + end;
    assert Join(words[2..], ' ') == start + " to " + end;
    assert Join(words[1..], ' ') == "shift: " + start + " to " + end;
    assert Join(words, ' ') == CustomDescription(start, end);
    SplitJoin(words, ' ');
  }

  /** What the server makes of the body: a stored request carries exactly the
      form's configuration, shift type and reason; an empty reason is
      refused and nothing is stored. */
  lemma {:induction false} SubmittedRequest(requests: map<Id, ScheduleRequest>, students: map<Id, Student>,
                                            departments: map<Id, Department>, n: nat, b: RequestBody, now: Time)
    ensures var o := Submit(requests, students, departments, n, Some(b.studentId), Some(b.currentShiftType),
                            Some(b.requestedShiftType), Some(b.requestedShiftConfig), Some(b.reason), now);
            (b.reason == "" ==> o.response.Fail? && o.docs == requests) &&
            (o.response.Ok? ==>
               o.response.value.requestedShiftConfig == Some(b.requestedShiftConfig) &&
               o.response.value.requestedShiftType == b.requestedShiftType &&
               o.response.value.currentShiftType == b.currentShiftType &&
               o.response.value.reason == b.reason && o.response.value.status == Pending &&
               o.docs == requests[n := o.response.value])
  {
    SubmitSpec(requests, students, departments, n, Some(b.studentId), Some(b.currentShiftType),
               Some(b.requestedShiftType), Some(b.requestedShiftConfig), Some(b.reason), now);
  }

  /** Approving a request the form made for the graveyard shift gives the
      student the graveyard shift type together with a configuration whose
      own type is custom, for the evening hours of the form. */
  lemma {:induction false} ApprovedGraveyardCarriesCustomConfig(requests: map<Id, ScheduleRequest>,
                                                                students: map<Id, Student>, id: Id, f: FormData,
                                                                comments: Option<string>, reviewedBy: Option<Id>,
                                                                now: Time)
    requires id in requests && requests[id].studentId in students && ValidStudent(students[requests[id].studentId])
    requires f.requestedShiftType == "graveyard"
    requires requests[id].requestedShiftType == f.requestedShiftType
    requires requests[id].requestedShiftConfig == Some(RequestedConfig(f))
    ensures var o := Review(requests, students, Some(id), Some("approved"), comments, reviewedBy, now);
            var s := o.students[requests[id].studentId];
            o.response.Ok? && s.shiftType == Graveyard &&
            s.shiftConfig == Some(RequestedConfig(f)) && s.shiftConfig.value.kind == Some("custom") &&
            s.shiftConfig.value.eveningStart == Some(f.eveningStart)
  {
    var r := Reviewed(requests[id], Approved, comments, reviewedBy, now);
    var st := students[requests[id].studentId];
    assert ValidStudent(st.(shiftType := Graveyard, shiftConfig := r.requestedShiftConfig));
  }

  // ---------------------------------------------------------------------
  // Texts

  /** `getStatusBadge`: the three known statuses in capitals, any other
      text as it is. */
  function StatusBadgeText(status: string): (badge: string)
    ensures ParseRequestStatus(status).None? ==> badge == status
    ensures ParseRequestStatus(status).Some? ==>
              badge != status && |badge| == |status| && badge[1..] == status[1..]
  {
    match status
    case "pending" => "Pending"
    case "approved" => "Approved"
    case "rejected" => "Rejected"
    case _ => status
  }

  /** The statuses a request can hold show three different badges. */
  lemma StoredStatusesDistinct(a: RequestStatus, b: RequestStatus)
    requires a != b
    ensures StatusBadgeText(RequestStatusName(a)) != StatusBadgeText(RequestStatusName(b))
  {
  }

  const RegularLabel := "Regular (7AM-12PM / 1PM-5PM)"
  const GraveyardLabel := "Graveyard (7PM-7AM)"

  /** The current-schedule line: Regular for `regular`, Graveyard for any
      other shift type. */
  function CurrentScheduleLabel(currentShiftType: string): (text: string)
    ensures text == RegularLabel <==> currentShiftType == "regular"
    ensures text == RegularLabel || text == GraveyardLabel
  {
    if currentShiftType == "regular" then RegularLabel else GraveyardLabel
  }

  /** A student on a custom or split regular shift is told they are on the
      graveyard shift; only the stored kind Regular reads as Regular. */
  lemma LabelOfStoredShift(k: ShiftKind)
    ensures CurrentScheduleLabel(ShiftKindName(k)) == (if k == Regular then RegularLabel else GraveyardLabel)
  {
  }

  // ---------------------------------------------------------------------
  // The panel's state

  datatype PanelState = PanelState(isLoading: bool, showForm: bool, formData: FormData,
                                   requests: seq<ScheduleRequest>)

  const Initial := PanelState(false, false, DefaultForm, [])

  /** The end of `handleSubmit`, once the server has answered (`succeeded`
      is a success status): a success hides the form and resets its fields;
      a failure keeps both; loading ends either way. */
  function Submitted(p: PanelState, succeeded: bool): (q: PanelState)
    ensures !q.isLoading && q.requests == p.requests
    ensures succeeded ==> !q.showForm && q.formData == DefaultForm
    ensures !succeeded ==> q.showForm == p.showForm && q.formData == p.formData
  {
    if succeeded then p.(isLoading := false, showForm := false, formData := DefaultForm)
    else p.(isLoading := false)
  }

  /** `fetchRequests`: the list of the reply replaces the shown one; a
      failed request (None) leaves it. */
  function Fetched(p: PanelState, found: Option<seq<ScheduleRequest>>): (q: PanelState)
    ensures q.requests == (if found.Some? then found.value else p.requests)
    ensures q.(requests := p.requests) == p
  {
    if found.Some? then p.(requests := found.value) else p
  }

  /** After a failed submission, submitting again sends the same request;
      after a successful one, the form holds the default custom 19:00-07:00
      shift with no reason, which the browser does not submit until the
      student writes one. */
  lemma {:induction false} ResubmitAfter(p: PanelState, studentId: Id, currentShiftType: string)
    ensures BodyOf(studentId, currentShiftType, Submitted(p, false).formData) ==
            BodyOf(studentId, currentShiftType, p.formData)
    ensures var b := BodyOf(studentId, currentShiftType, Submitted(p, true).formData);
            b.requestedShiftType == "custom" && b.reason == "" &&
            b.requestedShiftConfig.eveningStart == Some("19:00") &&
            b.requestedShiftConfig.eveningEnd == Some("07:00")
    ensures Submittable(Submitted(p, false).formData) == Submittable(p.formData)
    ensures !Submittable(Submitted(p, true).formData)
  {
  }

  /** The panel, with the props it is given. */
  class RequestPanel {
    const studentId: Id
    const currentShiftType: string
    var isLoading: bool
    var showForm: bool
    var formData: FormData
    var requests: seq<ScheduleRequest>

    function State(): PanelState
      reads this
    {
      PanelState(isLoading, showForm, formData, requests)
    }

    constructor(studentId: Id, currentShiftType: string)
      ensures this.studentId == studentId && this.currentShiftType == currentShiftType
      ensures State() == Initial
    {
      this.studentId := studentId;
      this.currentShiftType := currentShiftType;
      isLoading := false;
      showForm := false;
      formData := DefaultForm;
      requests := [];
    }

    /** The "Request Schedule Change" button and the Cancel button. */
    method SetShowForm(show: bool)
      modifies this
      ensures State() == old(State()).(showForm := show)
    {
      showForm := show;
    }

    /** An edit of one of the form's inputs. */
    method Edit(f: FormData)
      modifies this
      ensures State() == old(State()).(formData := f)
    {
      formData := f;
    }

    /** A submission of the form: when the browser lets it through
        (`Submittable`), `handleSubmit` sends the body and the state is the
        one once the server has answered; otherwise nothing is sent and
        nothing changes. */
    method HandleSubmit(succeeded: bool) returns (sent: Option<RequestBody>)
      modifies this
      ensures sent == (if Submittable(old(formData)) then Some(BodyOf(studentId, currentShiftType, old(formData)))
                       else None)
      ensures State() == (if Submittable(old(formData)) then Submitted(old(State()), succeeded) else old(State()))
    {
      if formData.reason == "" ||
         (formData.requestedShiftType == "custom" && (formData.eveningStart == "" || formData.eveningEnd == "")) {
        return None;
      }
      isLoading := true;
      var config := ShiftConfig(Some("custom"), None, None, None, None, Some(formData.eveningStart),
                                Some(formData.eveningEnd),
                                Some("Custom shift: " + formData.eveningStart + " to " + formData.eveningEnd));
      sent := Some(RequestBody(studentId, currentShiftType, formData.requestedShiftType, config, formData.reason));
      if succeeded {
        showForm := false;
        formData := DefaultForm;
      }
      isLoading := false;
    }

    method FetchRequests(found: Option<seq<ScheduleRequest>>)
      modifies this
      ensures State() == Fetched(old(State()), found)
    {
      if found.Some? {
        requests := found.value;
      }
    }
  }
}
