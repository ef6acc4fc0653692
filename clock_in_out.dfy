/** The student's clock panel: which clock buttons are offered and enabled,
    what a click sends, the ten-second pause after a recorded action, and
    the hours shown in the day's summary. */
module ClockInOut {
  import opened Common
  import opened Text
  import opened Calendar
  import opened AttendanceModel
  import opened AttendanceApi

  // ---------------------------------------------------------------------
  // Buttons

  /** `getClockButtonState`: whether today's record already holds the time
      of `action`. */
  function ClockButtonState(todayRecord: Option<Attendance>, action: string): (done: bool)
    ensures done <==> todayRecord.Some? && ParseSlot(action).Some? &&
                      TimeAt(todayRecord.value, ParseSlot(action).value).Some?
  {
    if todayRecord.None? then false
    else
      var r := todayRecord.value;
      match action
      case "morningIn" => r.morningIn.Some?
      case "morningOut" => r.morningOut.Some?
      case "afternoonIn" => r.afternoonIn.Some?
      case "afternoonOut" => r.afternoonOut.Some?
      case "eveningIn" => r.eveningIn.Some?
      case "eveningOut" => r.eveningOut.Some?
      case _ => false
  }

  predicate IsOut(s: Slot) {
    s.MorningOut? || s.AfternoonOut? || s.EveningOut?
  }

  predicate IsDaytime(s: Slot) {
    s.MorningIn? || s.MorningOut? || s.AfternoonIn? || s.AfternoonOut?
  }

  /** The In that opens the pair `s` belongs to. */
  function InOf(s: Slot): (i: Slot)
    ensures !IsOut(i) && IsDaytime(i) == IsDaytime(s)
  {
    match s
    case MorningIn => MorningIn
    case MorningOut => MorningIn
    case AfternoonIn => AfternoonIn
    case AfternoonOut => AfternoonIn
    case EveningIn => EveningIn
    case EveningOut => EveningIn
  }

  /** The buttons shown: morning and afternoon for the regular shift, evening
      for any other shift type. */
  function OfferedSlots(shiftType: string): seq<Slot> {
    if shiftType == "regular" then [MorningIn, MorningOut, AfternoonIn, AfternoonOut]
    else [EveningIn, EveningOut]
  }

  /** A slot is offered exactly when its time of day matches the shift, and
      every offered Out has its In offered beside it. */
  lemma OfferedSlotsSpec(shiftType: string, s: Slot)
    ensures s in OfferedSlots(shiftType) <==> (IsDaytime(s) <==> shiftType == "regular")
    ensures s in OfferedSlots(shiftType) ==> InOf(s) in OfferedSlots(shiftType)
  {
  }

  /** The panel's state. */
  datatype PanelState = PanelState(
    isLoading: bool,
    capturedImage: Option<string>,
    showCamera: bool,
    todayRecord: Option<Attendance>,
    countdown: int)

  const Initial := PanelState(false, None, false, None, 0)

  /** The `disabled` expression of the button for `s`. */
  predicate Disabled(p: PanelState, isAccepted: bool, s: Slot) {
    p.isLoading || p.countdown > 0 || ClockButtonState(p.todayRecord, SlotName(s)) ||
    !Truthy(p.capturedImage) || !isAccepted ||
    (IsOut(s) && !(p.todayRecord.Some? && TimeAt(p.todayRecord.value, InOf(s)).Some?))
  }

  /** A button is enabled exactly when nothing is loading, no countdown runs,
      a photo is captured, the account is accepted, its own time is not yet
      recorded today, and, for an Out, the matching In is. */
  lemma {:induction false} EnabledIff(p: PanelState, isAccepted: bool, s: Slot)
    ensures !Disabled(p, isAccepted, s) <==>
              !p.isLoading && p.countdown <= 0 && Truthy(p.capturedImage) && isAccepted &&
              (p.todayRecord.None? || TimeAt(p.todayRecord.value, s).None?) &&
              (IsOut(s) ==> p.todayRecord.Some? && TimeAt(p.todayRecord.value, InOf(s)).Some?)
  {
    assert ParseSlot(SlotName(s)) == Some(s);
  }

  /** An Out can never be pressed before its In is recorded. */
  lemma OutNeedsIn(p: PanelState, isAccepted: bool, s: Slot)
    requires IsOut(s) && (p.todayRecord.None? || TimeAt(p.todayRecord.value, InOf(s)).None?)
    ensures Disabled(p, isAccepted, s)
  {
  }

  // ---------------------------------------------------------------------
  // handleClockAction

  /** The JSON body of the clock POST. */
  datatype ClockRequest = ClockRequest(studentId: Id, action: string, imageData: string, shiftType: string)

  datatype ClickResult = ClickResult(state: PanelState, sent: Option<ClockRequest>)

  /** A click on `action`: nothing is sent without a photo or for an account
      pending approval; otherwise the request carries the photo, and when
      the server accepts it the photo is dropped, the camera closed and a
      ten-second countdown started. Loading ends either way. */
  function Click(p: PanelState, studentId: Id, shiftType: string, isAccepted: bool, action: string,
                 succeeded: bool): ClickResult
  {
    if !Truthy(p.capturedImage) || !isAccepted then ClickResult(p, None)
    else
      var req := ClockRequest(studentId, action, p.capturedImage.value, shiftType);
      if succeeded then ClickResult(p.(isLoading := false, capturedImage := None, showCamera := false, countdown := 10), Some(req))
      else ClickResult(p.(isLoading := false), Some(req))
  }

  lemma {:induction false} ClickSpec(p: PanelState, studentId: Id, shiftType: string, isAccepted: bool,
                                     action: string, succeeded: bool)
    ensures var c := Click(p, studentId, shiftType, isAccepted, action, succeeded);
            (c.sent.Some? <==> Truthy(p.capturedImage) && isAccepted) &&
            (c.sent.None? ==> c.state == p) &&
            (c.sent.Some? ==>
               c.sent.value.imageData == p.capturedImage.value && c.sent.value.action == action &&
               !c.state.isLoading && c.state.todayRecord == p.todayRecord) &&
            (c.sent.Some? && succeeded ==> c.state.capturedImage.None? && c.state.countdown == 10) &&
            (c.sent.Some? && !succeeded ==> c.state.capturedImage == p.capturedImage && c.state.countdown == p.countdown)
  {
  }

  /** After a recorded action every button is disabled: the photo is gone
      and the countdown runs. */
  lemma {:induction false} SuccessDisablesAll(p: PanelState, studentId: Id, shiftType: string, isAccepted: bool,
                                              action: string, s: Slot)
    requires Click(p, studentId, shiftType, isAccepted, action, true).sent.Some?
    ensures Disabled(Click(p, studentId, shiftType, isAccepted, action, true).state, isAccepted, s)
  {
  }

  /** Clicking again right after a recorded action sends nothing. */
  lemma {:induction false} NoDoubleClock(p: PanelState, studentId: Id, shiftType: string, isAccepted: bool,
                                         action: string, action2: string, succeeded2: bool)
    requires Click(p, studentId, shiftType, isAccepted, action, true).sent.Some?
    ensures var q := Click(p, studentId, shiftType, isAccepted, action, true).state;
            Click(q, studentId, shiftType, isAccepted, action2, succeeded2) == ClickResult(q, None)
  {
  }

  // ---------------------------------------------------------------------
  // The countdown

  /** One second of the countdown interval. */
  function Tick(p: PanelState): PanelState {
    if p.countdown > 0 then p.(countdown := p.countdown - 1) else p
  }

  function Ticks(p: PanelState, k: nat): PanelState {
    if k == 0 then p else Tick(Ticks(p, k - 1))
  }

  /** The countdown falls by one a second down to 0 and touches nothing else. */
  lemma {:induction false} TicksSpec(p: PanelState, k: nat)
    requires p.countdown >= 0
    ensures Ticks(p, k) == p.(countdown := if k <= p.countdown then p.countdown - k else 0)
  {
    if k > 0 {
      TicksSpec(p, k - 1);
    }
  }

  /** Ten seconds after a recorded action the countdown is over. */
  lemma {:induction false} PauseLastsTenSeconds(p: PanelState, studentId: Id, shiftType: string, isAccepted: bool,
                                                action: string, k: nat)
    requires Click(p, studentId, shiftType, isAccepted, action, true).sent.Some?
    ensures var q := Ticks(Click(p, studentId, shiftType, isAccepted, action, true).state, k);
            (q.countdown == 0 <==> k >= 10)
  {
    TicksSpec(Click(p, studentId, shiftType, isAccepted, action, true).state, k);
  }

  // ---------------------------------------------------------------------
  // fetchTodayRecord

  /** The reply to today's query: the first record found becomes today's
      record; an empty or failed reply keeps the one shown before. */
  function Refreshed(p: PanelState, found: Option<seq<Attendance>>): PanelState {
    if found.Some? && |found.value| > 0 then p.(todayRecord := Some(found.value[0])) else p
  }

  // ---------------------------------------------------------------------
  // The day's summary

  /** The hours of one pair, in hundredths, as the summary computes them:
      0 unless both ends are recorded. */
  function PairHundredths(start: Option<Time>, end: Option<Time>): int {
    if start.Some? && end.Some? then RoundHundredths(end.value - start.value) else 0
  }

  function PairHoursText(start: Option<Time>, end: Option<Time>): string {
    HundredthsText(PairHundredths(start, end))
  }

  /** A pair with a missing end shows "0.00". */
  lemma PairHoursBlank(start: Option<Time>, end: Option<Time>)
    requires start.None? || end.None?
    ensures PairHoursText(start, end) == "0.00"
  {
  }

  /** The summary's pair hours are the server's pair durations, rounded;
      their sum is within two hundredths of the stored total. */
  lemma {:induction false} PairHoursAgreeWithTotal(a: Attendance)
    ensures PairHundredths(a.morningIn, a.morningOut) == RoundHundredths(PairMs(a.morningIn, a.morningOut))
    ensures var sum := PairHundredths(a.morningIn, a.morningOut) + PairHundredths(a.afternoonIn, a.afternoonOut) +
                       PairHundredths(a.eveningIn, a.eveningOut);
            -2 <= sum - CalculateTotalHours(a) <= 2
  {
    var x, y, z := PairMs(a.morningIn, a.morningOut), PairMs(a.afternoonIn, a.afternoonOut),
                   PairMs(a.eveningIn, a.eveningOut);
    assert PairHundredths(a.morningIn, a.morningOut) == RoundHundredths(x);
    assert PairHundredths(a.afternoonIn, a.afternoonOut) == RoundHundredths(y);
    assert PairHundredths(a.eveningIn, a.eveningOut) == RoundHundredths(z);
    var d := RoundHundredths(x) + RoundHundredths(y) + RoundHundredths(z) - RoundHundredths(x + y + z);
    assert -72000 <= d * 36000 <= 72000;
  }

  // ---------------------------------------------------------------------
  // The component

  class ClockPanel {
    const studentId: Id
    const shiftType: string
    const isAccepted: bool
    var isLoading: bool
    var capturedImage: Option<string>
    var showCamera: bool
    var todayRecord: Option<Attendance>
    var countdown: int

    function State(): PanelState
      reads this
    {
      PanelState(isLoading, capturedImage, showCamera, todayRecord, countdown)
    }

    constructor(studentId: Id, shiftType: string, isAccepted: bool)
      ensures this.studentId == studentId && this.shiftType == shiftType && this.isAccepted == isAccepted
      ensures State() == Initial
    {
      this.studentId := studentId;
      this.shiftType := shiftType;
      this.isAccepted := isAccepted;
      isLoading := false;
      capturedImage := None;
      showCamera := false;
      todayRecord := None;
      countdown := 0;
    }

    /** `captureImage`: the camera frame becomes the photo to send. */
    method CaptureImage(imageData: string)
      modifies this
      ensures State() == old(State()).(capturedImage := Some(imageData))
    {
      capturedImage := Some(imageData);
    }

    /** `handleClockAction`; `succeeded` is whether the server answered with
        a success status. */
    method HandleClockAction(action: string, succeeded: bool) returns (sent: Option<ClockRequest>)
      modifies this
      ensures ClickResult(State(), sent) == Click(old(State()), studentId, shiftType, isAccepted, action, succeeded)
    {
      if !Truthy(capturedImage) {
        return None;
      }
      if !isAccepted {
        return None;
      }
      isLoading := true;
      sent := Some(ClockRequest(studentId, action, capturedImage.value, shiftType));
      if succeeded {
        capturedImage := None;
        showCamera := false;
        countdown := 10;
      }
      isLoading := false;
    }

    /** One second of the countdown interval. */
    method TickCountdown()
      modifies this
      ensures State() == Tick(old(State()))
    {
      if countdown > 0 {
        countdown := countdown - 1;
      }
    }

    /** `fetchTodayRecord`, with the records of the reply (None when the
        request failed). */
    method FetchTodayRecord(found: Option<seq<Attendance>>)
      modifies this
      ensures State() == Refreshed(old(State()), found)
    {
      if found.Some? && |found.value| > 0 {
        todayRecord := Some(found.value[0]);
      }
    }
  }
}
