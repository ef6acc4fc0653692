/** The student's profile panel: the editable contact fields and the
    password change, with the checks the form makes before it sends
    anything and the requests it sends to the users route. */
module ProfileForm {
  import opened Common
  import opened StudentModel
  import opened DepartmentModel
  import opened UserModel
  import opened UsersApi

  // ---------------------------------------------------------------------
  // The two forms

  /** The profile form's fields. */
  datatype ProfileFields = ProfileFields(contactNumber: string, address: string, hostEstablishment: string,
                                         location: string)

  /** The first values of the profile form: each field of the student, or
      "" when absent. The student schema has no `location`, so a stored
      student never brings one and that field starts empty. */
  function InitialProfile(s: Student): (f: ProfileFields)
    ensures f.location == ""
    ensures s.contactNumber.Some? ==> f.contactNumber == s.contactNumber.value
    ensures s.contactNumber.None? ==> f.contactNumber == ""
    ensures s.address.Some? ==> f.address == s.address.value
    ensures s.address.None? ==> f.address == ""
    ensures f.hostEstablishment == s.hostEstablishment
  {
    ProfileFields(s.contactNumber.GetOr(""), s.address.GetOr(""), s.hostEstablishment, "")
  }

  /** The password form's fields. */
  datatype PasswordFields = PasswordFields(currentPassword: string, newPassword: string, confirmPassword: string)

  const EmptyPasswords := PasswordFields("", "", "")

  const MinPasswordLength := 6

  /** What `handleUpdatePassword` decides before sending: the confirmation
      is compared first, the length second. */
  datatype PasswordCheck = Mismatch | TooShort | Passed

  function CheckPasswords(p: PasswordFields): (c: PasswordCheck)
    ensures c == Mismatch <==> p.newPassword != p.confirmPassword
    ensures c == TooShort <==> p.newPassword == p.confirmPassword && |p.newPassword| < MinPasswordLength
    ensures c == Passed <==> p.newPassword == p.confirmPassword && |p.newPassword| >= MinPasswordLength
  {
    if p.newPassword != p.confirmPassword then Mismatch
    else if |p.newPassword| < MinPasswordLength then TooShort
    else Passed
  }


  // ---------------------------------------------------------------------
  // The requests

  /** A PUT body for the users route. */
  datatype PutBody = PutBody(userId: Option<Id>, updates: Option<UserUpdates>, accountType: Option<string>,
                             profileData: Option<ProfileData>)

  /** The users route's answer to a body. */
  function Send(users: map<Id, User>, students: map<Id, Student>, departments: map<Id, Department>, n: nat,
                b: PutBody, hash: string -> string): UsersOutcome
  {
    UpdateUser(users, students, departments, n, b.userId, b.updates, b.accountType, b.profileData, hash)
  }

  /** The profile data: the three contact fields the student schema has;
      `location`, which it does not have, is dropped by the schema. */
  function ProfileDataOf(f: ProfileFields): (p: StudentFields)
    ensures p == NoStudentFields().(contactNumber := Some(f.contactNumber), address := Some(f.address),
                                    hostEstablishment := Some(f.hostEstablishment))
  {
    StudentFields(None, None, None, None, None, None, None, Some(f.hostEstablishment), Some(f.contactNumber), None, None,
                  Some(f.address), None, None, None, None, None)
  }

  /** Saving the profile changes the three contact fields and nothing else
      of the student. */
  lemma {:induction false} ProfileTouchesOnlyContact(s: Student, f: ProfileFields)
    ensures SetStudentFields(s, ProfileDataOf(f)) ==
            s.(contactNumber := Some(f.contactNumber), address := Some(f.address),
               hostEstablishment := f.hostEstablishment)
  {
  }

  /** Saving the form as it was first filled leaves the student as it was
      exactly when the student had a contact number and an address;
      otherwise the missing ones become "". */
  lemma {:induction false} UnchangedProfileRoundTrip(s: Student)
    ensures SetStudentFields(s, ProfileDataOf(InitialProfile(s))) == s <==>
            s.contactNumber.Some? && s.address.Some?
  {
    ProfileTouchesOnlyContact(s, InitialProfile(s));
    if s.contactNumber.None? {
      assert SetStudentFields(s, ProfileDataOf(InitialProfile(s))).contactNumber != s.contactNumber;
    }
    if s.address.None? {
      assert SetStudentFields(s, ProfileDataOf(InitialProfile(s))).address != s.address;
    }
  }

  /** The profile request as written: addressed by the student document's
      own id, and with no `updates` object. */
  function AsWrittenProfileBody(studentDocId: Id, f: ProfileFields): PutBody {
    PutBody(Some(studentDocId), None, Some("student"), Some(StudentProfile(ProfileDataOf(f))))
  }

  /** The password request as written: addressed by the student document's
      own id; only the new password is sent. */
  function AsWrittenPasswordBody(studentDocId: Id, p: PasswordFields): PutBody {
    PutBody(Some(studentDocId), Some(UserUpdates(None, None, Some(p.newPassword))), None, None)
  }

  /** The profile request as written never succeeds and changes nothing:
      the route fails on the missing `updates` object for any id that names
      a user, and answers 404 for any other. */
  lemma {:induction false} AsWrittenProfileNeverSaves(users: map<Id, User>, students: map<Id, Student>,
                                                      departments: map<Id, Department>, n: nat, studentDocId: Id,
                                                      f: ProfileFields, hash: string -> string)
    ensures var o := Send(users, students, departments, n, AsWrittenProfileBody(studentDocId, f), hash);
            o.response.Fail? && o.users == users && o.students == students && o.departments == departments
  {
  }

  /** A student document's id is not a user's id, so the password request as
      written is answered 404 and no password changes. */
  lemma {:induction false} AsWrittenPasswordMissesUser(users: map<Id, User>, students: map<Id, Student>,
                                                       departments: map<Id, Department>, n: nat, studentDocId: Id,
                                                       p: PasswordFields, hash: string -> string)
    requires studentDocId !in users
    ensures var o := Send(users, students, departments, n, AsWrittenPasswordBody(studentDocId, p), hash);
            o.response == Fail(404, "User not found") && o.users == users
  {
  }

  /** The smallest case: one user (id 0) and its student profile (id 1). A
      valid new password sent for the profile is refused with 404. */
  lemma AsWrittenPasswordExample(u: User, s: Student, hash: string -> string)
    requires s.userId == 0
    ensures var p := PasswordFields("old-secret", "new-secret", "new-secret");
            CheckPasswords(p) == Passed &&
            Send(map[0 := u], map[1 := s], map[], 2, AsWrittenPasswordBody(1, p), hash).response ==
              Fail(404, "User not found")
  {
    AsWrittenPasswordMissesUser(map[0 := u], map[1 := s], map[], 2, 1,
                                PasswordFields("old-secret", "new-secret", "new-secret"), hash);
  }

  /** The profile request, addressed by the student's user id and with an
      empty `updates` object. */
  function ProfileBody(s: Student, f: ProfileFields): PutBody {
    PutBody(Some(s.userId), Some(UserUpdates(None, None, None)), Some("student"), Some(StudentProfile(ProfileDataOf(f))))
  }

  /** The password request, addressed by the student's user id; the current
      password is not part of it. */
  function PasswordBody(s: Student, p: PasswordFields): (b: PutBody)
    ensures b.updates == Some(UserUpdates(None, None, Some(p.newPassword)))
    ensures b.accountType.None? && b.profileData.None?
    ensures b.userId == Some(s.userId)
  {
    PutBody(Some(s.userId), Some(UserUpdates(None, None, Some(p.newPassword))), None, None)
  }

  /** The current password plays no part: neither the check nor the
      request depends on it. */
  lemma CurrentPasswordUnused(s: Student, p: PasswordFields, current: string)
    ensures CheckPasswords(p.(currentPassword := current)) == CheckPasswords(p)
    ensures PasswordBody(s, p.(currentPassword := current)) == PasswordBody(s, p)
  {
  }

  /** For the user behind student `k`, a password that passed the form's
      checks becomes the user's new password hash; nothing else changes. */
  lemma {:induction false} PasswordUpdateApplies(users: map<Id, User>, students: map<Id, Student>,
                                                 departments: map<Id, Department>, n: nat, k: Id,
                                                 p: PasswordFields, hash: string -> string)
    requires UniqueEmail(users) && UniqueStudentId(students) && UniqueDepartmentCode(departments)
    requires k in students && students[k].userId in users && ValidUser(users[students[k].userId])
    requires CheckPasswords(p) == Passed && hash(p.newPassword) != ""
    ensures var id := students[k].userId;
            var o := Send(users, students, departments, n, PasswordBody(students[k], p), hash);
            o.response.Ok? && o.users == users[id := users[id].(password := hash(p.newPassword))] &&
            o.students == students && o.departments == departments
  {
    var id := students[k].userId;
    var u := ApplyUserUpdates(users[id], UserUpdates(None, None, Some(p.newPassword)), hash);
    assert u == users[id].(password := hash(p.newPassword));
    assert !EmailTaken(users, id, u);
  }

  /** For student `k`, the only profile of its user, saving the profile
      form sets the three contact fields of that student; the user itself
      is saved unchanged. */
  lemma {:induction false} ProfileUpdateApplies(users: map<Id, User>, students: map<Id, Student>,
                                                departments: map<Id, Department>, n: nat, k: Id,
                                                f: ProfileFields, hash: string -> string)
    requires UniqueEmail(users) && UniqueStudentId(students)
    requires k in students && k < n && students[k].userId in users && ValidUser(users[students[k].userId])
    requires forall j :: j in students && students[j].userId == students[k].userId ==> j == k
    ensures var o := Send(users, students, departments, n, ProfileBody(students[k], f), hash);
            o.response.Ok? && o.users == users && o.departments == departments &&
            o.students == students[k := students[k].(contactNumber := Some(f.contactNumber),
                                                      address := Some(f.address),
                                                      hostEstablishment := f.hostEstablishment)]
  {
    var id := students[k].userId;
    var u := ApplyUserUpdates(users[id], UserUpdates(None, None, None), hash);
    assert u == users[id];
    assert !EmailTaken(users, id, u);
    assert users[id := u] == users;
    var first := FindFirst(students, n, (s: Student) => s.userId == id);
    assert first == Some(k);
    ProfileTouchesOnlyContact(students[k], f);
  }

  // ---------------------------------------------------------------------
  // The panel's state

  datatype PanelState = PanelState(isLoading: bool, isPasswordLoading: bool, formData: ProfileFields,
                                   passwordData: PasswordFields)

  function InitialPanel(s: Student): PanelState {
    PanelState(false, false, InitialProfile(s), EmptyPasswords)
  }

  datatype SubmitResult = SubmitResult(state: PanelState, sent: Option<PutBody>)

  /** `handleUpdatePassword` for student `s`, once the server has answered
      (`succeeded` is a success status): a password the checks refuse sends
      nothing and changes nothing; otherwise the request is sent, a success
      clears the three fields and a failure keeps them. */
  function PasswordSubmitted(p: PanelState, s: Student, succeeded: bool): (r: SubmitResult)
    ensures r.sent.None? <==> CheckPasswords(p.passwordData) != Passed
    ensures r.sent.None? ==> r.state == p
    ensures r.sent.Some? ==> r.sent.value == PasswordBody(s, p.passwordData) && !r.state.isPasswordLoading
    ensures r.sent.Some? ==> r.state.passwordData == (if succeeded then EmptyPasswords else p.passwordData)
    ensures r.state.formData == p.formData && r.state.isLoading == p.isLoading
  {
    if CheckPasswords(p.passwordData) != Passed then SubmitResult(p, None)
    else
      var q := if succeeded then p.(passwordData := EmptyPasswords) else p;
      SubmitResult(q.(isPasswordLoading := false), Some(PasswordBody(s, p.passwordData)))
  }

  /** A successful change leaves a form that the checks refuse until it is
      filled again: the empty new password is too short. */
  lemma {:induction false} ClearedFormSendsNothing(p: PanelState, s: Student, succeeded: bool)
    requires PasswordSubmitted(p, s, true).sent.Some?
    ensures PasswordSubmitted(PasswordSubmitted(p, s, true).state, s, succeeded).sent.None?
  {
    assert CheckPasswords(EmptyPasswords) == TooShort;
  }

  /** `handleUpdateProfile` for student `s`: the request is always sent and
      the form keeps its values whatever the answer. */
  function ProfileSubmitted(p: PanelState, s: Student): (r: SubmitResult)
    ensures r.sent == Some(ProfileBody(s, p.formData))
    ensures r.state == p.(isLoading := false)
  {
    SubmitResult(p.(isLoading := false), Some(ProfileBody(s, p.formData)))
  }

  /** The panel for one student. */
  class ProfilePanel {
    const student: Student
    var isLoading: bool
    var isPasswordLoading: bool
    var formData: ProfileFields
    var passwordData: PasswordFields

    function State(): PanelState
      reads this
    {
      PanelState(isLoading, isPasswordLoading, formData, passwordData)
    }

    constructor(student: Student)
      ensures this.student == student
      ensures State() == InitialPanel(student)
    {
      this.student := student;
      isLoading := false;
      isPasswordLoading := false;
      formData := ProfileFields(student.contactNumber.GetOr(""), student.address.GetOr(""),
                                student.hostEstablishment, "");
      passwordData := EmptyPasswords;
    }

    /** An edit of the profile inputs. */
    method EditProfile(f: ProfileFields)
      modifies this
      ensures State() == old(State()).(formData := f)
    {
      formData := f;
    }

    /** An edit of the password inputs. */
    method EditPasswords(p: PasswordFields)
      modifies this
      ensures State() == old(State()).(passwordData := p)
    {
      passwordData := p;
    }

    method HandleUpdateProfile() returns (sent: PutBody)
      modifies this
      ensures SubmitResult(State(), Some(sent)) == ProfileSubmitted(old(State()), student)
    {
      isLoading := true;
      sent := PutBody(Some(student.userId), Some(UserUpdates(None, None, None)), Some("student"),
                      Some(StudentProfile(ProfileDataOf(formData))));
      isLoading := false;
    }

    method HandleUpdatePassword(succeeded: bool) returns (sent: Option<PutBody>)
      modifies this
      ensures SubmitResult(State(), sent) == PasswordSubmitted(old(State()), student, succeeded)
    {
      if passwordData.newPassword != passwordData.confirmPassword {
        return None;
      }
      if |passwordData.newPassword| < MinPasswordLength {
        return None;
      }
      isPasswordLoading := true;
      sent := Some(PutBody(Some(student.userId), Some(UserUpdates(None, None, Some(passwordData.newPassword))),
                           None, None));
      if succeeded {
        passwordData := EmptyPasswords;
      }
      isPasswordLoading := false;
    }
  }
}
