# SLSU OJT Tracking System — a verified Dafny model

This project models the server routes, data models and student-side
components of the SLSU OJT (on-the-job training) tracking system. Students
clock in and out with a photo. Departments and administrators accept
students and departments, review schedule-change requests, and manage
courses, announcements, Daily Time Record (Civil Service Form No. 48)
templates and the system log.

The model is written in Dafny and proved by its verifier. It has one
module per core source file, plus four helper modules: `Common`, `Text`,
`Calendar` and `Store`.

**The store.** `Store.Db` is a class holding one map per MongoDB
collection, plus one id counter shared by all of them. A new document gets
the next id, so "first stored" means "smallest id". `Db.Valid()` says that
every id is below the counter and that the unique indexes hold:

- user email;
- student ID;
- department code;
- course code;
- attendance (student, timestamp).

**The routes.** Each handler of a route is a pure function over the maps.
It returns the HTTP answer (`Ok` or `Fail(status, error)`), the new
collection and the new counter. Lemmas state what the handler promises. A
method on `Db` then performs the same steps imperatively and is proved to
give the function's result and to keep `Valid()`.

**The components.** Each component the model covers (the clock panel, the
profile form, the schedule-change panel) has two parts:

- a state datatype, with pure functions for its transitions;
- a class with the same fields, whose methods are proved to perform those
  transitions.

The pure renderings are functions, with lemmas about what they show:

- the DTR grid;
- the attendance log's badges, counts and CSV export;
- the badges and labels of the schedule-change panel.

**Modelling conventions.**

- **Time:** integer milliseconds.
- **Local time:** a fixed offset `tz`, in milliseconds east of UTC.
- **`totalHours`:** an integer number of hundredths of an hour. It is
  rounded half away from zero, as `toFixed(2)` rounds the exact quotient.
- **Foreign calls:** password hashing and comparison, the signed token, the
  random temporary password and the server clock are parameters of the
  functions that use them.

## Model

| member | source | states |
|---|---|---|
| AnnouncementModel.NewAnnouncement | src/lib/models/Announcement.ts:14-23 | an announcement is created exactly when title, content and poster are present; it stores that title, content and poster, the given audience and `isForAll`, is active by default and is stamped now |
| AnnouncementModel.ApplyAnnouncementFields | src/app/api/announcements/route.ts:80-84 | `$set` writes every field the update names (title, content, audience, poster, flags) with the given value and keeps the others; the creation time is never changed |
| CourseModel.ApplyCourseFields | src/app/api/courses/route.ts:101-105 | `$set` writes every field the update names (code, name, department, description, duration, activity) with the given value and keeps the others; an empty update leaves the course as it was |
| DepartmentModel.NewDepartment | src/lib/models/Department.ts:18-31 | a department is created exactly when every required text is non-empty; it stores every given field, belongs to the given user unless the data names another `userId`, and defaults `isActive` to true and `isAccepted` to false |
| DepartmentModel.ApplyDepartmentFields | src/app/api/users/route.ts:84-89 | `$set` writes every field the update names, the owning `userId` included, with the given value and keeps the others |
| UserModel.ParseAccountType | src/lib/models/User.ts:16-20 | the account-type enum admits exactly student, department, admin and superadmin |
| UserModel.AccountTypeName | src/lib/models/User.ts:16-20 | every account type's stored name is admitted by the enum and reads back as that type |
| UserModel.NewUser | src/lib/models/User.ts:13-25 | a user is created exactly when email and password hash are non-empty and the account type is in the enum; it starts active with no last login |
| StudentModel.ParseShiftKind | src/lib/models/Student.ts:62-66 | the shift enum admits exactly regular, regular-split, graveyard and custom |
| StudentModel.ShiftKindName | src/lib/models/Student.ts:62-66 | every shift kind's stored name reads back as that kind |
| StudentModel.NewStudent | src/lib/models/Student.ts:48-72 | creation fails exactly when a required text or the course is missing, the shift type is outside the enum or the shift configuration is invalid; a created student stores every given field, is valid, not accepted whatever the data says, active by default, on the named shift or regular, and belongs to the given user unless the data names another `userId` |
| StudentModel.ApplyStudentFields | src/app/api/students/route.ts:72-75 | the assignment step of the students route: every named field, `userId` included, takes the update's value, the rest are kept, and a named shift type is stored under that name; it fails exactly on a shift type outside the enum, which the record cannot hold. The other refusals of the save (validation, the unique student number) are stated by `StudentsApi.UpdateStudentSpec` and `StudentsApi.DuplicateStudentNumberRefused` |
| StudentModel.SetStudentFields | src/app/api/users/route.ts:78-83 | `$set` of profile data writes every field it names, `userId` and required texts included, with the given value and keeps the others; no validator runs |
| StudentModel.SetStudentFieldsIdempotent | src/app/api/users/route.ts:78-83 | writing the same profile data twice stores what writing it once does, and writing no field changes nothing |
| AttendanceModel.ParseShiftType | src/lib/models/Attendance.ts:42-46 | the attendance shift enum admits only regular and graveyard |
| AttendanceModel.ShiftTypeName | src/lib/models/Attendance.ts:42-46 | every attendance shift type's stored name reads back as that type |
| AttendanceModel.StatusName | src/lib/models/Attendance.ts:49-53 | the status names carry no comma, quote or line break |
| AttendanceModel.ParseStatus | src/lib/models/Attendance.ts:49-53 | a status text is accepted exactly when it is one of present, absent, late and half_day |
| AttendanceModel.ParseSlot | src/app/api/attendance/route.ts:92-118 | an action names a time slot exactly when it is one of the six slot names |
| AttendanceModel.SlotName | src/app/api/attendance/route.ts:92-118 | every slot's action name parses back to that slot |
| AttendanceModel.NewAttendance | src/app/api/attendance/route.ts:83-89 | a new record has the student, timestamp and shift type given, no times or images, zero hours and undertime, status present and no remarks |
| AttendanceModel.SetSlot | src/app/api/attendance/route.ts:92-116 | setting a slot gives it the time and image and leaves every other slot and field as it was |
| SystemLogModel.ParseUserType | src/lib/models/SystemLog.ts:19-23 | the user-type enum admits exactly the five user types |
| SystemLogModel.UserTypeName | src/lib/models/SystemLog.ts:19-23 | every user type's stored name reads back as that type |
| SystemLogModel.ParseSeverity | src/lib/models/SystemLog.ts:29-33 | the severity enum admits exactly info, warning, error and critical |
| SystemLogModel.SeverityName | src/lib/models/SystemLog.ts:29-33 | every severity's stored name reads back as that severity |
| SystemLogModel.NewLog | src/lib/models/SystemLog.ts:16-36 | a log is created exactly when the user type is in the enum, action and description are non-empty and a given severity is in the enum; it stores the body's user, email, type, action, description, address, agent and metadata, severity defaulting to info, and is dated by the body's `createdAt` when it gives one, now otherwise |
| SystemLogModel.NewLogRoundTrip | src/lib/models/SystemLog.ts:16-36 | any log with an action and a description is created back, unchanged, from the body that names its fields, whenever it is posted |
| DtrTemplateModel.ApplyTemplateFields | src/app/api/dtr-templates/route.ts:123-127 | an update writes every field it names (name, description, the file fields, the extracted data, the active flag) with the given value and keeps the others and the creation time |
| ScheduleRequestModel.ParseRequestStatus | src/lib/models/ScheduleChangeRequest.ts:42-46 | the status enum admits exactly pending, approved and rejected |
| ScheduleRequestModel.RequestStatusName | src/lib/models/ScheduleChangeRequest.ts:42-46 | every status's stored name reads back as that status |
| ScheduleRequestModel.NewRequest | src/lib/models/ScheduleChangeRequest.ts:26-53 | a request is created exactly when the current and requested shift types and the reason are non-empty; it stores those texts, the configuration, student and department, is pending, stamped now and not reviewed |
| AnnouncementsApi.ListAnnouncementsSpec | src/app/api/announcements/route.ts:14-39 | the list is newest first and holds exactly the stored announcements that meet the `isActive` filter when given and the audience rule: for a known student, for everyone or for the student's advisor department; for an unknown student, no rule; without a student, for everyone or for the given department, and no rule when none is given |
| AnnouncementsApi.UnknownStudentSeesAll | src/app/api/announcements/route.ts:21-28 | an unknown student id adds no audience condition, so every announcement passing the activity filter is listed |
| AnnouncementsApi.UnadvisedStudentSeesUndirected | src/app/api/announcements/route.ts:24-27 | a student with no advisor also sees the announcements that name no department |
| AnnouncementsApi.StudentOverridesDepartment | src/app/api/announcements/route.ts:21-34 | when a student id is given the department parameter makes no difference |
| AnnouncementsApi.PostAnnouncementSpec | src/app/api/announcements/route.ts:49-71 | creation succeeds exactly when title, content and poster are present; it stores one new active announcement under a fresh id with that title, content, poster and audience, `isForAll` defaulting to false; a failure stores nothing |
| AnnouncementsApi.PostedForAllReachesStudents | src/app/api/announcements/route.ts:21-39 | an announcement posted for everyone is then listed for every known student |
| AnnouncementsApi.PostAnnouncementRecord | src/app/api/announcements/route.ts:49-71 | the POST handler on the store gives the reply and new collection of the specification and keeps the store's invariants |
| AnnouncementsApi.UpdateAnnouncementSpec | src/app/api/announcements/route.ts:74-98 | an update succeeds exactly for a stored id and replaces only that announcement; every field the update names, poster included, takes the given value, the others and the creation time are kept; a failure changes nothing |
| AnnouncementsApi.UpdateAnnouncementRecord | src/app/api/announcements/route.ts:74-98 | the PUT handler on the store matches its specification |
| AnnouncementsApi.DeleteAnnouncementSpec | src/app/api/announcements/route.ts:101-125 | deletion succeeds exactly for a stored id and removes that announcement and no other |
| AnnouncementsApi.DeleteAnnouncementRecord | src/app/api/announcements/route.ts:101-125 | the DELETE handler on the store matches its specification |
| CoursesApi.ListCoursesSpec | src/app/api/courses/route.ts:14-23 | the list is sorted by course name and holds exactly the active courses, of the given department when one is named |
| CoursesApi.CreateCourseSpec | src/app/api/courses/route.ts:43-85 | creation succeeds exactly when code, name and department are given and no course has the code; a failure is a 400 that stores nothing; the stored course is active, with the given code, name, department and description, and the duration given or 4 years; course codes stay unique |
| CoursesApi.CreatedCourseListed | src/app/api/courses/route.ts:14-23 | a created course is listed, both for its department and unfiltered |
| CoursesApi.SecondCodeRefused | src/app/api/courses/route.ts:56-63 | a second course with the same code is refused with "Course code already exists" |
| CoursesApi.CreateCourseRecord | src/app/api/courses/route.ts:43-85 | the POST handler on the store matches its specification and keeps the store's invariants |
| CoursesApi.UpdateCourseSpec | src/app/api/courses/route.ts:88-126 | a missing id is a 400 and an unknown id a 404, both changing nothing; for a stored course, a 500 that changes nothing exactly when the updated code is another course's, and otherwise a success that replaces only that course by the course with the update's fields written onto it; codes stay unique |
| CoursesApi.DeactivatedCourseUnlisted | src/app/api/courses/route.ts:14-23 | a course updated to inactive is no longer listed |
| CoursesApi.UpdateCourseRecord | src/app/api/courses/route.ts:88-126 | the PUT handler on the store matches its specification |
| CoursesApi.DeleteCourseSpec | src/app/api/courses/route.ts:129-162 | deletion succeeds exactly for a stored id and removes that course and no other |
| CoursesApi.DeleteCourseRecord | src/app/api/courses/route.ts:129-162 | the DELETE handler on the store matches its specification |
| DepartmentsApi.ListDepartmentsSpec | src/app/api/departments/route.ts:15-29 | the list is sorted by name; for registration it holds exactly the accepted and active departments, for status approved exactly the accepted ones, for status pending exactly the unaccepted ones, and for any other status every stored department |
| DepartmentsApi.UpdateDepartmentSpec | src/app/api/departments/route.ts:65-95 | for a stored department an update succeeds, sets acceptance by the action and activity by a boolean `isActive` and nothing else; its user is deactivated on a rejection or deactivation, otherwise activated on an acceptance or activation, and with neither an action nor a boolean `isActive` no user changes; no other user changes, and a user changes only in its activity |
| DepartmentsApi.RejectButActiveSplits | src/app/api/departments/route.ts:67-95 | rejecting while activating leaves an active, unaccepted department whose user is deactivated |
| DepartmentsApi.DepartmentErrors | src/app/api/departments/route.ts:58-88 | a missing id is a 400 and an unknown id a 404, for update and delete alike, and nothing changes |
| DepartmentsApi.UpdateDepartmentRecord | src/app/api/departments/route.ts:52-127 | the PUT handler on the store matches its specification and keeps the store's invariants |
| DepartmentsApi.DeleteDepartmentSpec | src/app/api/departments/route.ts:143-156 | deleting a stored department removes exactly it and its user account |
| DepartmentsApi.DeleteDepartmentRecord | src/app/api/departments/route.ts:130-169 | the DELETE handler on the store matches its specification |
| StudentsApi.ListStudentsSpec | src/app/api/students/route.ts:17-27 | the list holds exactly the stored students meeting every supplied filter (department only when non-empty, each flag compared with the text "true"); with no filter, every student |
| StudentsApi.NonTrueFlagSelectsFalse | src/app/api/students/route.ts:20 | an `isAccepted` parameter other than exactly "true" lists only unaccepted students and no accepted one |
| StudentsApi.UpdateStudentSpec | src/app/api/students/route.ts:37-85 | an unknown or missing id is exactly the 404 case; a failure changes nothing; a success replaces only that student; applied updates store every named field, `userId` included, and keep the rest; an accepted or updated student is valid; with neither nothing changes; student numbers stay unique |
| StudentsApi.AcceptIgnoresUpdates | src/app/api/students/route.ts:48-70 | accepting sets the flag and, when given, the advisor, changes no other field, and answers the same whether or not `updates` is sent |
| StudentsApi.DuplicateStudentNumberRefused | src/app/api/students/route.ts:72-75 | an update giving a student another student's number fails with 500 and changes nothing |
| StudentsApi.UpdateStudentRecord | src/app/api/students/route.ts:37-85 | the PUT handler on the store matches its specification and keeps the store's invariants |
| StudentsApi.DeleteStudentErrors | src/app/api/students/route.ts:94-101 | a missing id is a 400 and an unknown id a 404, and nothing is removed |
| StudentsApi.DeleteStudentSpec | src/app/api/students/route.ts:98-107 | deleting a stored student removes exactly it and its user account; the unique indexes still hold |
| StudentsApi.DeleteStudentRecord | src/app/api/students/route.ts:88-117 | the DELETE handler on the store matches its specification |
| ScheduleRequestsApi.ListRequestsSpec | src/app/api/schedule-requests/route.ts:14-22 | the list is newest request first and holds exactly the stored requests matching each supplied filter (student, department, non-empty status) |
| ScheduleRequestsApi.SubmitSpec | src/app/api/schedule-requests/route.ts:35-75 | an unknown student is a 404, as is a student whose department name no department bears; a failure stores nothing; a created request is pending, stamped now, for that student, addressed to the first department bearing the student's department name, and stored under a fresh id |
| ScheduleRequestsApi.SubmitRequest | src/app/api/schedule-requests/route.ts:35-75 | the POST handler on the store matches its specification and keeps the store's invariants |
| ScheduleRequestsApi.WithRequestedShift | src/app/api/schedule-requests/route.ts:104-110 | approval copies the requested shift type and configuration onto the student and changes nothing else; the result is a valid student whose shift type is the requested one |
| ScheduleRequestsApi.ReviewSpec | src/app/api/schedule-requests/route.ts:78-125 | no id or status is a 400 and an unknown request a 404, both changing nothing; a status outside the enum is a 500 that changes nothing; otherwise the request is saved with the status, comments, reviewer and time; only an approval changes a student, and an approval of a stored student sets its shift type and configuration to the request's, keeping the rest, or, when the student schema refuses them, is the 500 with the request already saved |
| ScheduleRequestsApi.RejectAfterApprovalKeepsShift | src/app/api/schedule-requests/route.ts:96-111 | rejecting an already approved request succeeds and leaves the student's approved shift in place |
| ScheduleRequestsApi.ApprovalOfUnknownShiftHalfApplies | src/app/api/schedule-requests/route.ts:96-111 | approving a request for a shift type outside the student enum answers 500 although the request is already saved as approved, and the student is unchanged |
| ScheduleRequestsApi.ReviewRequest | src/app/api/schedule-requests/route.ts:78-125 | the PUT handler on the store matches its specification and keeps the store's invariants |
| ScheduleChangeForm.RequestedConfig | src/components/ScheduleChangeRequest.tsx:66-71 | the configuration sent is a valid shift configuration of type custom with no morning or afternoon times |
| ScheduleChangeForm.ConfigIgnoresSelection | src/components/ScheduleChangeRequest.tsx:66-81 | the selected shift type reaches the body's `requestedShiftType` but not the configuration: any selection sends the same configuration |
| ScheduleChangeForm.DescriptionReadsBack | src/components/ScheduleChangeRequest.tsx:70 | the description splits at spaces into "Custom", "shift:", the start time, "to" and the end time |
| ScheduleChangeForm.SubmittedRequest | src/components/ScheduleChangeRequest.tsx:73-83 | the server stores the form's configuration, shift types and reason unchanged in a pending request; an empty reason is refused and stores nothing |
| ScheduleChangeForm.ApprovedGraveyardCarriesCustomConfig | src/components/ScheduleChangeRequest.tsx:66-71 | approving a request the form made for the graveyard shift gives the student the graveyard shift type with a configuration of type custom |
| ScheduleChangeForm.StatusBadgeText | src/components/ScheduleChangeRequest.tsx:108-119 | the three stored statuses are shown capitalised, differing from the raw text only in the first letter; any other status is shown as it is |
| ScheduleChangeForm.StoredStatusesDistinct | src/components/ScheduleChangeRequest.tsx:108-119 | different stored statuses show different badges |
| ScheduleChangeForm.CurrentScheduleLabel | src/components/ScheduleChangeRequest.tsx:133 | the label is Regular exactly for the shift type "regular" and Graveyard otherwise |
| ScheduleChangeForm.LabelOfStoredShift | src/components/ScheduleChangeRequest.tsx:133 | of the four stored shift kinds only Regular is labelled Regular; regular-split and custom are labelled Graveyard |
| ScheduleChangeForm.Submitted | src/components/ScheduleChangeRequest.tsx:87-105 | after the answer loading has ended; a success hides the form and restores the default fields; a failure keeps both the fields and the form's visibility |
| ScheduleChangeForm.Fetched | src/components/ScheduleChangeRequest.tsx:49-59 | a successful fetch replaces the shown requests and nothing else; a failed one changes nothing |
| ScheduleChangeForm.ResubmitAfter | src/components/ScheduleChangeRequest.tsx:87-99 | after a failure a resubmission sends the same body and is submittable exactly when the first was; after a success the form holds the default custom 19:00 to 07:00 request with an empty reason, which the browser does not submit |
| ScheduleChangeForm.RequestPanel.constructor | src/components/ScheduleChangeRequest.tsx:34-42 | the panel starts not loading, with the form hidden, the default fields and no requests |
| ScheduleChangeForm.RequestPanel.SetShowForm | src/components/ScheduleChangeRequest.tsx:140 | showing or hiding the form changes only its visibility |
| ScheduleChangeForm.RequestPanel.Edit | src/components/ScheduleChangeRequest.tsx:178-223 | an edit replaces the form's fields and nothing else |
| ScheduleChangeForm.RequestPanel.HandleSubmit | src/components/ScheduleChangeRequest.tsx:61-106 | when the required reason, and for a custom request the two times, are filled, the body built from the props and the fields is sent and the new state is the specification's `Submitted`; otherwise nothing is sent and nothing changes |
| ScheduleChangeForm.RequestPanel.FetchRequests | src/components/ScheduleChangeRequest.tsx:49-59 | the new state is the specification's `Fetched` |
| UsersApi.MatchingIds | src/app/api/users/route.ts:16-26 | the ids selected are exactly the stored user ids meeting the account-type and activity filters, in ascending order |
| UsersApi.EnrichOneSpec | src/app/api/users/route.ts:30-48 | one user gives no entry exactly when it is skipped by the profile filter; otherwise one entry carrying the user's email, account type and activity, without the password |
| UsersApi.EnrichMembers | src/app/api/users/route.ts:30-49 | the loop keeps exactly the selected users not skipped by the `continue`, each with its own account data |
| UsersApi.ListUsersSpec | src/app/api/users/route.ts:16-50 | a user is listed exactly when it meets the account-type and activity filters and, for a student when a department or acceptance filter is given, some profile of it matches them |
| UsersApi.ListUserAccounts | src/app/api/users/route.ts:26-49 | the enrichment loop over the store produces the specification's list |
| UsersApi.ApplyUserUpdates | src/app/api/users/route.ts:69-72 | email and password change only when given non-empty, the password hashed; activity changes when given; account type and last login stay |
| UsersApi.SaveUserKeepsIndex | src/lib/models/User.ts:14 | saving a user whose email no other user holds keeps emails unique |
| UsersApi.UpdateProfileKeepsIndexes | src/app/api/users/route.ts:76-90 | a profile update that succeeds keeps student numbers and department codes unique and adds or removes no profile; naming no account type changes no profile |
| UsersApi.UpdateUserSpec | src/app/api/users/route.ts:58-100 | an unknown or missing user is exactly the 404 case; a missing `updates` object fails and changes nothing; a success changes only that user, by the rules of `ApplyUserUpdates`, and writes the profile data into the user's student profile for `accountType` student or its department for department, changing no other profile; a failure changes no profile; the unique indexes hold and no document is added or removed |
| UsersApi.ProfileWriteUnchecked | src/app/api/users/route.ts:77-91 | for a stored valid user, any student profile data that does not name a student number, even a shift type outside the enum or an empty required name, is answered with success and no department changes |
| UsersApi.ProfileNeedsNamedType | src/app/api/users/route.ts:77-90 | without an account type in the request no profile changes, whatever profile data is sent |
| UsersApi.UpdateUserAccount | src/app/api/users/route.ts:58-100 | the PUT handler on the store matches its specification and keeps the store's invariants |
| UsersApi.DeleteUserSpec | src/app/api/users/route.ts:103-141 | the configured superadmin is refused with 403 and nothing changes; deletion succeeds exactly for any other stored user, removes it and, for a student or department account, the first profile of that type belonging to it, and no other document |
| UsersApi.UnconfiguredSuperAdminDeletable | src/app/api/users/route.ts:119-121 | a superadmin whose email is not the configured one, or any superadmin when none is configured, is deleted |
| UsersApi.DeleteUserAccount | src/app/api/users/route.ts:103-141 | the DELETE handler on the store matches its specification and keeps the store's invariants |
| AuthApi.ProfileOf | src/app/api/auth/route.ts:110-116 | the details returned with a login are a student profile only for a student account and a department profile only for a department account, and each belongs to the logged-in user |
| AuthApi.LoginOrder | src/app/api/auth/route.ts:82-97 | outside the super-admin path, an email no user has is refused 401 "Invalid credentials", and "Account is deactivated" is answered exactly when the first user with that email is inactive; for an active first user, a wrong password is 401 "Invalid credentials" and a right one logs that user in with its profile (a 500 when the stored user fails validation on save); a success changes only that user's last login |
| AuthApi.LoginErrors | src/app/api/auth/route.ts:85-131 | every refusal of a login is one of "Invalid credentials", "Account is deactivated" or "Login failed" |
| AuthApi.SuperAdminSkipsActiveCheck | src/app/api/auth/route.ts:37-79 | the configured super-admin credentials log in even a deactivated super-admin user, whose token carries its id, email and type, and whose last login is set |
| AuthApi.SuperAdminUpgrades | src/app/api/auth/route.ts:51-61 | the configured super-admin credentials on a user of another type turn it into a super admin whose password becomes the hash of the configured password |
| AuthApi.LoginKeepsStore | src/app/api/auth/route.ts:37-101 | a login keeps ids below the counter and the unique email index, and changes no user's email |
| AuthApi.LoginUser | src/app/api/auth/route.ts:31-131 | the login handler on the store gives the specification's answer and new users, and keeps the store valid |
| AuthApi.RegisterErrors | src/app/api/auth/route.ts:148-202 | every refusal of a registration is one of the four messages of the route |
| AuthApi.FreshEmailKeepsIndex | src/app/api/auth/route.ts:148-178 | adding a user under a fresh id with an email no user has keeps the email index unique |
| AuthApi.AddProfileShape | src/app/api/auth/route.ts:180-198 | the profile step never changes users; a failure is 500 "Registration failed" and stores no profile; a profile is stored under the next id exactly as the creation rules build it from the data, so with every given field; a student's is not accepted, and it belongs to the new user unless the data names another `userId` |
| AuthApi.AddProfileKeepsIndexes | src/app/api/auth/route.ts:154-192 | with the student ID and department code checked beforehand, the profile step keeps both unique indexes |
| AuthApi.RegisterKeepsStore | src/app/api/auth/route.ts:134-203 | a registration keeps every id below the counter and the three unique indexes |
| AuthApi.RegisterRefusesTaken | src/app/api/auth/route.ts:148-152 | a registered email is refused 400 "Email already registered"; with a free email, a taken student number is refused 400 "Student ID already registered" and a taken department code 400 "Department code already exists"; every 400 leaves the store as it was |
| AuthApi.DuplicateErrorOrder | src/app/api/auth/route.ts:148-168 | the duplicate checks answer the taken email first, then, with a free email, the taken student number or department code, each with its own message |
| AuthApi.NoDuplicateIsFresh | src/app/api/auth/route.ts:148-168 | when none of the three duplicate checks answers, no stored user has the email and no stored student or department has the student number or code the data names |
| AuthApi.RegisterStoresUser | src/app/api/auth/route.ts:170-198 | a successful registration adds exactly one user, under a fresh id, active, with the email, the password's hash and the requested type, and for a student or department also a new profile built from the data, belonging to the new user unless the data names another `userId` |
| AuthApi.RegisterLeavesOrphanUser | src/app/api/auth/route.ts:174-202 | when the student profile fails validation after the user was created, the answer is 500 "Registration failed" but the user stays stored without a profile |
| AuthApi.RegisterAdmitsSuperAdmin | src/app/api/auth/route.ts:173-178 | the route lets anyone register an active super-admin account |
| AuthApi.RegisterThenLogin | src/app/api/auth/route.ts:82-198 | after a successful registration, logging in with the same email and password succeeds for the new user with the registered account type |
| AuthApi.RegisterUser | src/app/api/auth/route.ts:134-203 | the registration handler on the store gives the specification's answer and new collections, and keeps the store valid |
| AuthApi.CreateProfile | src/app/api/auth/route.ts:180-192 | the profile step on the store gives the specification's answer and new collections |
| AuthApi.ResetThenLogin | src/app/api/auth/route.ts:82-232 | after a successful reset the temporary password logs in, and the logged-in user's password is its hash |
| AuthApi.ForgotPasswordSpec | src/app/api/auth/route.ts:205-237 | a reset answers 404 "Email not found", changing nothing, exactly when no user has the email; a success replaces only that user's password by the temporary password's hash, and it succeeds whenever that user is valid and the hash non-empty; any failure changes nothing; the email index holds |
| AuthApi.ResetPassword | src/app/api/auth/route.ts:205-237 | the forgot-password handler on the store gives the specification's answer and new users, and keeps the store valid |
| AuthApi.DispatchSpec | src/app/api/auth/route.ts:9-28 | "Invalid action" is answered exactly for an action other than the three; a login answer comes only from `login`, a registration only from `register`; only a registration changes profiles |
| AuthApi.Authenticate | src/app/api/auth/route.ts:9-28 | the route on the store gives the dispatcher's answer and new collections, and keeps the store valid |
| AttendanceApi.RoundHundredths | src/app/api/attendance/route.ts:188 | the stored total is the millisecond duration rounded to the nearest hundredth of an hour, half away from zero |
| AttendanceApi.RoundMonotone | src/app/api/attendance/route.ts:188 | rounding to hundredths never reverses the order of two durations |
| AttendanceApi.RoundOdd | src/app/api/attendance/route.ts:188 | rounding a negated duration gives the negated rounding |
| AttendanceApi.NoCompletePairNoHours | src/app/api/attendance/route.ts:167-189 | a record with no complete In/Out pair has a total of 0 |
| AttendanceApi.TotalHoursClose | src/app/api/attendance/route.ts:167-189 | the total is within half a hundredth of an hour of the sum of the complete pairs' durations |
| AttendanceApi.NoClamp | src/app/api/attendance/route.ts:171-174 | an Out recorded an hour or more before its In gives a negative total: nothing clamps it |
| AttendanceApi.CompletingPairAddsHours | src/app/api/attendance/route.ts:171-174 | completing the morning pair with an Out not before its In never lowers the total |
| AttendanceApi.ClockAction | src/app/api/attendance/route.ts:60-134 | the clock POST on the store gives the specification's answer and new records, and keeps the store valid |
| AttendanceApi.ClockKeepsIndex | src/app/api/attendance/route.ts:74-89 | clocking keeps at most one record per student and date, and every id below the counter |
| AttendanceApi.ClockSetsSlot | src/app/api/attendance/route.ts:92-122 | a successful clock writes the server time and the photo into the named slot, leaves every other slot of today's record (or the new one) as it was, and its total agrees with its clock fields |
| AttendanceApi.ClockReusesToday | src/app/api/attendance/route.ts:74-89 | when the student already has a record in the local day of the server time, no record is created and at most that one record changes |
| AttendanceApi.ClockCreatesRecord | src/app/api/attendance/route.ts:83-89 | without a record for today, exactly one record is added under the next id, for the student, dated now, with the posted shift type or regular |
| AttendanceApi.InvalidActionLeavesEmptyRecord | src/app/api/attendance/route.ts:83-118 | an unknown action is refused 400 "Invalid action" after an empty record for today has already been created |
| AttendanceApi.InvalidActionOnExistingDay | src/app/api/attendance/route.ts:117-118 | an unknown action on a day that already has a record is refused 400 and changes nothing |
| AttendanceApi.UnknownShiftFails | src/app/api/attendance/route.ts:83-133 | a first clock of the day with a shift type the schema does not know fails with 500 and stores nothing |
| AttendanceApi.SameDayNoSecondRecord | src/app/api/attendance/route.ts:74-89 | a second clock in the same local day creates no record |
| AttendanceApi.RepeatOverwrites | src/app/api/attendance/route.ts:92-116 | repeating an action in the same day succeeds and overwrites the slot with the later time and photo |
| AttendanceApi.ApplyPatch | src/app/api/attendance/route.ts:143-147 | `$set` writes every field the patch names: student, date, each of the six times and six photos (a null clears it), hours, undertime and remarks take the given values, and an enum text inside the enum is stored under that name; the other fields are kept |
| AttendanceApi.CorrectSpec | src/app/api/attendance/route.ts:137-165 | a correction answers 404 exactly for an absent or unknown id, changing nothing; a clash with another record of the same student and date is a 500 that changes nothing; a shift type or status outside its enum is a 500 after the patch was written; otherwise it succeeds, replacing only that record with the patched one whose total is recomputed from its clock fields; the unique index survives |
| AttendanceApi.CorrectAttendance | src/app/api/attendance/route.ts:137-165 | the PUT handler on the store gives the specification's answer and records, and keeps the store valid |
| AttendanceApi.GetAttendance | src/app/api/attendance/route.ts:16-43 | the query built field by field returns the specification's records |
| AttendanceApi.MonthReplacesDate | src/app/api/attendance/route.ts:22-39 | with month and year given, the date parameter makes no difference |
| AttendanceApi.FindSpec | src/app/api/attendance/route.ts:41-43 | the records returned are exactly the stored ones matching the query, newest first |
| AttendanceApi.DayQueryIsLocalDay | src/app/api/attendance/route.ts:18-28 | a day query returns exactly the student's records whose local day is the requested date's |
| DtrTemplatesApi.ListTemplatesSpec | src/app/api/dtr-templates/route.ts:17-27 | the templates listed are exactly the stored ones meeting the `isActive` filter, newest first |
| DtrTemplatesApi.Sanitize | src/app/api/dtr-templates/route.ts:81 | the cleaned name has the original's length, keeps every letter, digit, dot and hyphen in place, and puts `_` for every other character |
| DtrTemplatesApi.SanitizeSpec | src/app/api/dtr-templates/route.ts:81 | the cleaned name holds only safe characters and underscores, never a path separator; cleaning is idempotent and leaves a name unchanged exactly when it is already clean |
| DtrTemplatesApi.FileNamesDiffer | src/app/api/dtr-templates/route.ts:80-82 | uploads at different times get different stored file names, whatever their original names |
| DtrTemplatesApi.UploadSpec | src/app/api/dtr-templates/route.ts:43-114 | an upload is accepted exactly when the file and template name are present, the type is allowed and the size at most 10 MB; a refusal stores nothing; an acceptance stores one active template under the next id, with the original name and size, in the uploads directory under a name without a separator |
| DtrTemplatesApi.SizeBoundary | src/app/api/dtr-templates/route.ts:10-73 | a file of exactly 10 MB is accepted and one byte more is refused with the size message |
| DtrTemplatesApi.UploadTemplate | src/app/api/dtr-templates/route.ts:43-114 | the POST handler on the store gives the specification's answer and templates, and keeps the store valid |
| DtrTemplatesApi.UpdateTemplateSpec | src/app/api/dtr-templates/route.ts:117-148 | an update succeeds exactly for a stored id; a failure changes nothing; a success replaces only that template with the update's fields written onto it, and the stored file and extracted data are kept unless the update names them |
| DtrTemplatesApi.UpdateTemplateRecord | src/app/api/dtr-templates/route.ts:117-148 | the PUT handler on the store gives the specification's answer and templates, and keeps the store valid |
| DtrTemplatesApi.DeleteTemplateSpec | src/app/api/dtr-templates/route.ts:151-184 | a deletion succeeds exactly for a stored id and removes that template and nothing else |
| DtrTemplatesApi.DeleteTemplateRecord | src/app/api/dtr-templates/route.ts:151-184 | the DELETE handler on the store gives the specification's answer and templates, and keeps the store valid |
| DtrProcessApi.SampleDaysSpec | src/app/api/dtr-templates/process/route.ts:79-97 | the first `count` rows are numbered 1 to `count`, each the sample row of its day |
| DtrProcessApi.ExtractionSpec | src/app/api/dtr-templates/process/route.ts:79-104 | the extraction has exactly 31 rows numbered 1 to 31; a row is empty exactly on a weekend and otherwise holds 8:03, 12:03, 1:00 and 5:00; no row has an undertime |
| DtrProcessApi.OverflowRowsFollowNextMonth | src/app/api/dtr-templates/process/route.ts:84-86 | a row past the end of a short month takes the weekday of the matching day of the next month, as the date constructor rolls over |
| DtrProcessApi.PerformOcrExtraction | src/app/api/dtr-templates/process/route.ts:68-105 | the loop over days 1 to 31 builds the specification's extraction |
| DtrProcessApi.AsWrittenNamedStudentFails | src/app/api/dtr-templates/process/route.ts:29-41 | as written, naming a stored student makes processing a valid template answer 500 and save nothing, while the corrected handler succeeds with that student's name |
| DtrProcessApi.ProcessSpec | src/app/api/dtr-templates/process/route.ts:6-65 | (the corrected handler, see Findings) processing succeeds exactly for a stored template that still validates; a failure changes nothing; a success replaces only that template's extracted data, for the current month, with 31 rows and the student's full name when a known student is named, the placeholder otherwise |
| DtrProcessApi.ProcessTemplate | src/app/api/dtr-templates/process/route.ts:6-65 | the corrected POST handler on the store gives the specification's answer and templates, and keeps the store valid |
| DtrProcessApi.ProcessThenRead | src/app/api/dtr-templates/process/route.ts:46-133 | after a successful processing, the GET handler returns exactly the extraction just made |
| SystemLogsApi.ListLogsSpec | src/app/api/system-logs/route.ts:19-48 | a page holds only stored logs matching the filters, newest first, and its total counts every matching log; a page is refused exactly when its skip is negative, and otherwise is the slice of the full listing starting at the skip with at most the limit's magnitude of logs (all the rest for a limit of 0), empty past the end |
| SystemLogsApi.WindowSlice | src/app/api/system-logs/route.ts:31-37 | `skip` then `limit` takes the slice that starts at the skip and is at most the limit's magnitude long (the whole rest for 0), and nothing past the end |
| SystemLogsApi.WindowSorted | src/app/api/system-logs/route.ts:33-36 | skipping and limiting a sorted list keeps it sorted and adds nothing |
| SystemLogsApi.TotalPagesBounds | src/app/api/system-logs/route.ts:48 | `totalPages` is the least number of pages of `limit` logs that hold them all |
| SystemLogsApi.PageOfIndex | src/app/api/system-logs/route.ts:31-48 | the log at position `i` falls on page `i / limit + 1`, at offset `i % limit`, and that page is within `totalPages` |
| SystemLogsApi.WindowAt | src/app/api/system-logs/route.ts:35-36 | the window starting at `skip` shows the log at position `i` at offset `i - skip` |
| SystemLogsApi.EveryLogOnItsPage | src/app/api/system-logs/route.ts:31-48 | every matching log is shown on its page, at its offset, and that page is counted by `totalPages` |
| SystemLogsApi.NonPositivePageRefused | src/app/api/system-logs/route.ts:31-60 | a page of 0 or less gives a negative skip, which the query refuses, and the answer is 500 |
| SystemLogsApi.ZeroLimitListsAll | src/app/api/system-logs/route.ts:36-48 | a limit of 0 lists every matching log, and `totalPages` is not a number |
| SystemLogsApi.CreateLogSpec | src/app/api/system-logs/route.ts:65-83 | a log is stored exactly when its user type is known, its action and description are present and its severity, when given, is known; a refusal stores nothing; an acceptance adds one log under the next id, dated by the body when it gives a date and now otherwise, whose fields read back as the body with the severity defaulted to info |
| SystemLogsApi.CreateLogRecord | src/app/api/system-logs/route.ts:65-83 | the POST handler on the store gives the specification's answer and logs, and keeps the store valid |
| SystemLogsApi.ClearLogsSpec | src/app/api/system-logs/route.ts:86-102 | clearing keeps exactly the logs created at or after the cutoff, unchanged, counts the others in its message, and a second clear deletes nothing |
| SystemLogsApi.ClearAgainKeepsAll | src/app/api/system-logs/route.ts:86-102 | logs all created at or after the cutoff are all kept by a clearing, which deletes none |
| SystemLogsApi.BackdatedLogCleared | src/app/api/system-logs/route.ts:65-102 | a log posted with its own `createdAt` before the retention cutoff is stored, and the next clearing at the same moment deletes it |
| SystemLogsApi.ClearLogRecords | src/app/api/system-logs/route.ts:86-102 | the DELETE handler on the store gives the specification's message and logs, and keeps the store valid |
| ClockInOut.ClockButtonState | src/components/ClockInOut.tsx:145-156 | an action counts as done exactly when today's record exists, the action names a slot, and that slot's time is recorded |
| ClockInOut.InOf | src/components/ClockInOut.tsx:262-327 | the In that an Out's button waits for is an In of the same time of day |
| ClockInOut.OfferedSlotsSpec | src/components/ClockInOut.tsx:237-338 | a slot's button is shown exactly when its time of day matches the shift (daytime for `regular`, evening for any other), and every shown Out has its In shown beside it |
| ClockInOut.EnabledIff | src/components/ClockInOut.tsx:246-327 | a button is enabled exactly when nothing loads, no countdown runs, a photo is captured, the account is accepted, its own time is not yet recorded today and, for an Out, its In is |
| ClockInOut.OutNeedsIn | src/components/ClockInOut.tsx:262-327 | an Out button is disabled until its In is recorded |
| ClockInOut.ClickSpec | src/components/ClockInOut.tsx:102-143 | a click sends a request exactly when a photo is captured and the account accepted, carrying that photo and the action; without one nothing changes; a success drops the photo and starts a 10-second countdown; a failure keeps the photo; loading ends either way |
| ClockInOut.SuccessDisablesAll | src/components/ClockInOut.tsx:129-327 | right after a recorded action every button is disabled |
| ClockInOut.NoDoubleClock | src/components/ClockInOut.tsx:102-133 | a second click right after a recorded action sends nothing and changes nothing |
| ClockInOut.TicksSpec | src/components/ClockInOut.tsx:43-51 | each second lowers the countdown by one down to 0 and touches nothing else |
| ClockInOut.PauseLastsTenSeconds | src/components/ClockInOut.tsx:43-132 | after a recorded action the countdown is over exactly once ten seconds have passed |
| ClockInOut.PairHoursBlank | src/components/ClockInOut.tsx:361-379 | a pair with a missing end shows "0.00" |
| ClockInOut.PairHoursAgreeWithTotal | src/components/ClockInOut.tsx:361-385 | the summary's pair hours are the pair durations rounded to hundredths, and their sum is within two hundredths of the stored total |
| ClockInOut.ClockPanel.constructor | src/components/ClockInOut.tsx:29-34 | the panel starts with nothing loading, no photo, the camera closed, no record and no countdown |
| ClockInOut.ClockPanel.CaptureImage | src/components/ClockInOut.tsx:79-92 | the captured frame becomes the photo and nothing else changes |
| ClockInOut.ClockPanel.HandleClockAction | src/components/ClockInOut.tsx:102-143 | the handler's request and new state are the specification's |
| ClockInOut.ClockPanel.TickCountdown | src/components/ClockInOut.tsx:43-51 | one interval tick is the specification's tick |
| ClockInOut.ClockPanel.FetchTodayRecord | src/components/ClockInOut.tsx:53-65 | the first record of the reply becomes today's record; an empty or failed reply keeps the shown one |
| DtrGrid.NextDay | src/components/DTRTemplate.tsx:83 | the day after a date of the month is the next day number, also past the month's end |
| DtrGrid.AsWrittenShiftsRows | src/components/DTRTemplate.tsx:82-85 | east of UTC, a record stamped at or after `tz` past local midnight of day `d` (the UTC midnight of day `d`, 08:00 local at UTC+8) belongs to day `d`, but the row lookup as written misses it on row `d` and shows it on row `d + 1` |
| DtrGrid.AsWrittenAgreesAtUtc | src/components/DTRTemplate.tsx:82-85 | at UTC the lookup as written and the local-day lookup agree |
| DtrGrid.UndertimeSplit | src/components/DTRTemplate.tsx:282-285 | the undertime cells are blank exactly for 0 minutes; a positive undertime splits into hours and minutes below 60 that add back up; a negative one not a multiple of 60 does not add back up |
| DtrGrid.GridTime | src/components/DTRTemplate.tsx:62-66 | a time cell is empty exactly when the time is absent |
| DtrGrid.RowIgnoresEvening | src/components/DTRTemplate.tsx:262-290 | the evening times never reach the grid |
| DtrGrid.RowsSpec | src/components/DTRTemplate.tsx:78-85 | the grid has one row per day of the month, 28 to 31, numbered from 1; a day without a record is a blank row; a day shows the first record of its local day |
| DtrGrid.TotalCoversEachRecord | src/components/DTRTemplate.tsx:296 | with no negative totals, the footer's sum is at least each record's total |
| DtrGrid.SumNonNegative | src/components/DTRTemplate.tsx:296 | with no negative totals, the footer's sum is not negative |
| DtrGrid.FullNameWords | src/components/DTRTemplate.tsx:158 | the full name reads back as first name, the middle name when present, and last name |
| DtrGrid.FullNameMatchesExtraction | src/components/DTRTemplate.tsx:158 | for a student without a middle name, the grid's name is the name the extraction writes |
| DtrGrid.MonthLabelMatchesExtraction | src/components/DTRTemplate.tsx:73-76 | the month label is the extraction's month and year, separated by a space |
| AttendanceLogs.StatusBadge | src/components/AttendanceLogs.tsx:70-83 | the badge reads "Unknown" exactly for a status other than the four |
| AttendanceLogs.BadgesDistinct | src/components/AttendanceLogs.tsx:70-83 | each stored status has its own badge, never "Unknown" |
| AttendanceLogs.CountStatusStep | src/components/AttendanceLogs.tsx:233-239 | counting a status counts the first record and then the rest |
| AttendanceLogs.CountsPartition | src/components/AttendanceLogs.tsx:226-240 | the counts of the four statuses add up to the number of records, so present and late days never exceed the total records |
| AttendanceLogs.CountAppend | src/components/AttendanceLogs.tsx:233-239 | one more record adds one to its own status's count only |
| AttendanceLogs.RowFields | src/components/AttendanceLogs.tsx:89-99 | a record gives one value per header |
| AttendanceLogs.AsWrittenLines | src/components/AttendanceLogs.tsx:89-99 | the export as written has one line per record, in order |
| AttendanceLogs.DateHasOneComma | src/components/AttendanceLogs.tsx:65-68 | the date text holds exactly one comma, between the month and day and the year, and no newline or quote |
| AttendanceLogs.FieldsPlain | src/components/AttendanceLogs.tsx:89-99 | every value but the date is free of commas, and no value holds a newline or quote |
| AttendanceLogs.SplitExtraField | src/components/AttendanceLogs.tsx:99 | a first value with one separator inside splits into two fields, the rest staying as they are |
| AttendanceLogs.HeaderHasNineFields | src/components/AttendanceLogs.tsx:86-88 | the header line splits back into its nine names |
| AttendanceLogs.AsWrittenLineHasTenFields | src/components/AttendanceLogs.tsx:86-100 | each record line as written splits into ten fields under nine headers: the date's comma cuts it in two |
| AttendanceLogs.QuoteAll | src/components/AttendanceLogs.tsx:89-99 | every value is quoted, in order |
| AttendanceLogs.Lines | src/components/AttendanceLogs.tsx:89-99 | the corrected export has one quoted line per record, in order |
| AttendanceLogs.ReadQuotedJoin | src/components/AttendanceLogs.tsx:89-99 | values without quotes, quoted and joined with commas, read back as the same values |
| AttendanceLogs.LinesHaveNoNewline | src/components/AttendanceLogs.tsx:89-99 | no record line holds a newline |
| AttendanceLogs.HeaderLineReadsBack | src/components/AttendanceLogs.tsx:86-88 | the quoted header line reads back as the nine headers |
| AttendanceLogs.LinesSplit | src/components/AttendanceLogs.tsx:87-100 | the file splits at newlines into the header line and the record lines |
| AttendanceLogs.CsvLines | src/components/AttendanceLogs.tsx:87-100 | the corrected file splits into the header line followed by one line per record |
| AttendanceLogs.LineReadsBack | src/components/AttendanceLogs.tsx:89-99 | each corrected record line reads back as the record's nine values |
| AttendanceLogs.CsvReadsBack | src/components/AttendanceLogs.tsx:85-100 | the corrected file has one line more than there are records; the first reads back as the headers and each other as its record's nine values, the date whole in the first |
| ProfileForm.InitialProfile | src/components/ProfileForm.tsx:33-38 | the form starts with the student's contact number, address and host establishment, "" for an absent one, and an empty location |
| ProfileForm.CheckPasswords | src/components/ProfileForm.tsx:83-91 | a mismatch is reported exactly when the two new passwords differ; "too short" exactly when they agree and have fewer than 6 characters; the request goes ahead exactly when they agree and have at least 6 |
| ProfileForm.ProfileDataOf | src/components/ProfileForm.tsx:33-38 | the profile data carries the contact number, address and host establishment and no other student field |
| ProfileForm.ProfileTouchesOnlyContact | src/components/ProfileForm.tsx:58-62 | saving the profile data changes the three contact fields of the student and nothing else |
| ProfileForm.UnchangedProfileRoundTrip | src/components/ProfileForm.tsx:33-38 | saving the form as first filled leaves the student unchanged exactly when it had a contact number and an address |
| ProfileForm.AsWrittenProfileNeverSaves | src/components/ProfileForm.tsx:58-62 | the profile request as written, with no `updates` object, always fails and changes no collection |
| ProfileForm.AsWrittenPasswordMissesUser | src/components/ProfileForm.tsx:103-106 | the password request as written, addressed by an id that names no user, is answered 404 and changes no password |
| ProfileForm.AsWrittenPasswordExample | src/components/ProfileForm.tsx:103-106 | with one user and its student profile, a new password that passes the form's checks is refused 404 |
| ProfileForm.PasswordBody | src/components/ProfileForm.tsx:103-106 | the password request is addressed by the student's user id and updates only the password, to the new one |
| ProfileForm.CurrentPasswordUnused | src/components/ProfileForm.tsx:40-106 | the current password plays no part in the checks or in the request |
| ProfileForm.PasswordUpdateApplies | src/components/ProfileForm.tsx:80-113 | a password that passed the checks becomes, hashed, the password of the student's user, and nothing else changes |
| ProfileForm.ProfileUpdateApplies | src/components/ProfileForm.tsx:46-78 | for a user with one student profile, saving the form sets that student's three contact fields and changes no user and no department |
| ProfileForm.PasswordSubmitted | src/components/ProfileForm.tsx:80-123 | a password the checks refuse sends nothing and changes nothing; otherwise the request is sent, a success clears the three fields, a failure keeps them, and loading ends; the profile form is untouched |
| ProfileForm.ClearedFormSendsNothing | src/components/ProfileForm.tsx:111-113 | after a successful change the cleared form sends nothing until it is filled again |
| ProfileForm.ProfileSubmitted | src/components/ProfileForm.tsx:46-78 | the profile request is always sent, and the form keeps its values whatever the answer |
| ProfileForm.ProfilePanel.constructor | src/components/ProfileForm.tsx:30-44 | the panel starts with nothing loading, the student's profile and empty password fields |
| ProfileForm.ProfilePanel.EditProfile | src/components/ProfileForm.tsx:192-222 | an edit of the profile inputs replaces the profile form and nothing else |
| ProfileForm.ProfilePanel.EditPasswords | src/components/ProfileForm.tsx:255-267 | an edit of the password inputs replaces the password form and nothing else |
| ProfileForm.ProfilePanel.HandleUpdateProfile | src/components/ProfileForm.tsx:46-78 | the handler's request and new state are the specification's |
| ProfileForm.ProfilePanel.HandleUpdatePassword | src/components/ProfileForm.tsx:80-123 | the handler's request and new state are the specification's |
| Calendar.StartOfDay | src/app/api/attendance/route.ts:24-27 | the start of a day is at most the given time, less than a day before it, and in the same local day |
| Calendar.DayWindow | src/app/api/attendance/route.ts:22-28 | a time lies between the start and the end of a day exactly when it falls in that local day |
| Calendar.DaysInMonth | src/components/DTRTemplate.tsx:78-80 | a month has 28 to 31 days, and 29 exactly for February of a leap year |
| Calendar.MonthLength | src/components/DTRTemplate.tsx:78-80 | the first day of the next month comes exactly the month's number of days after the first of this one |
| Calendar.FormatTime | src/components/AttendanceLogs.tsx:59-63 | an absent time shows "--:--", and no shown time holds a comma, a newline or a quote |
| Calendar.TimeTextReadsBack | src/components/AttendanceLogs.tsx:59-63 | the "hh:mm AM" text reads back as an hour of the day and a minute, and the instant's local time of day lies within that minute: the text shows the local time cut to the minute |
| Calendar.FormatTimeReadsBack | src/components/AttendanceLogs.tsx:59-63 | a present time is shown as its local clock time, cut to the minute; the placeholder of a missing time reads as no time |
| Text.HundredthsText | src/components/AttendanceLogs.tsx:97 | a number with two decimals is written with digits, a point and a sign only |
| Text.HundredthsTextReadsBack | src/components/AttendanceLogs.tsx:97 | the `toFixed(2)` text reads back as exactly the value shown, in hundredths, and starts with '-' exactly when the value is negative |
| Text.NatTextRoundTrip | src/app/api/system-logs/route.ts:101 | a count written in decimal reads back as the same count |
| Text.SplitJoin | src/components/AttendanceLogs.tsx:87-100 | parts without the separator, joined with it, split back into the same parts |
| Common.FindFirst | src/app/api/auth/route.ts:83 | `findOne` gives the first stored document matching the filter, or none exactly when none matches |
| Common.Select | src/app/api/system-logs/route.ts:39 | the documents selected are exactly the stored ones matching the filter |
| Common.Filter | src/components/AttendanceLogs.tsx:233-239 | filtering keeps every matching element as often as it occurs and drops every other |
| Common.SortBySorted | src/app/api/attendance/route.ts:43 | sorting by a total order gives a sorted list |
| Common.QuerySpec | src/app/api/attendance/route.ts:41-43 | a query returns exactly the stored documents matching the filter, each once per document, sorted |
| Common.SumAppend | src/components/DTRTemplate.tsx:296 | the sum over two lists one after the other is the sum of their sums |

## Left out

- Database connection, network I/O, `fetch`, toasts, rendering, the camera and canvas, `window.open`/`print`, and the CSV download link and its file name: no rule is stated there.
- The file written by a template upload: the template record is modelled, the file system is not.
- Sending email: the password-reset and approval emails are no-ops. The routes ignore their failures.
- Password hashing and comparison, token signing and the random temporary password: these are the parameters `hash`, `verify` and `temp`. Nothing is assumed of them beyond what each lemma requires.
- Environment variables: the super-admin email and password are one configuration value, and each may be absent. When they are absent, `undefined === undefined` would let a login with no email and no password through the super-admin branch. This case is not modelled: such a login takes the regular path.
- Floating point: `totalHours` and the hours shown are exact hundredths. A negative value that rounds to zero is shown as "0.00", not "-0.00".
- Locale formatting: `toLocaleTimeString` is fixed as the en-US "hh:mm AM" form and `toLocaleDateString` as "Mon d, yyyy". `toUpperCase` of the full name on the printed form is not modelled.
- Time zones: one fixed offset with no daylight-saving changes.
- `parseInt` and `NaN`: numeric query parameters are modelled as already-parsed numbers or as absent. Malformed ids (Mongoose `CastError`) are not modelled.
- `$regex` with the `i` option: it is modelled as a case-insensitive substring match on ASCII letters. Patterns with regular-expression metacharacters are not modelled.
- `populate`: the referenced documents are not joined into the answers. The DTR process route's population of `departmentId`, a path the student schema lacks, is modelled only as the finding below.
- Concurrency: two requests interleaving on the same record are not modelled. Every handler runs alone.
- The month select of the DTR grid and the attendance log: only months 1 to 12 are modelled.
- Password length: it is counted in characters, not in UTF-16 code units.
- DtrTemplatesApi.Sanitize: the model's characters are Unicode scalar values. The regular expression has no `u` flag, so it replaces each UTF-16 code unit, and a character outside the Basic Multilingual Plane (an emoji, say) becomes two underscores, not one. The length the contract keeps is the length in code units only for names within that plane.
- `location` in the profile form: the student schema has no such field, and Mongoose's strict mode drops it. The model's profile data has no `location`.
- Ids: all collections share one counter. The model does not state that a student's id can never equal a user's id. `ProfileForm.AsWrittenPasswordMissesUser` takes this as its precondition.
- `ProfileForm.ProfilePanel`: the class sends the corrected requests of the profile-form findings below, not the requests as written. The requests as written are modelled by `ProfileForm.AsWrittenProfileBody` and `ProfileForm.AsWrittenPasswordBody`.
- AttendanceApi.ClockReusesToday: it states that at most one existing record changes, not which one. `AttendanceApi.ClockSetsSlot` says what happens to that record.
- AttendanceApi.ApplyPatch: `$set` writes a shift type or status outside its enum into the database as text. The record datatype holds only enum values, so the model keeps the stored value there. `AttendanceApi.CorrectSpec` states the 500 that follows, with every other patched field written.
- StudentModel.SetStudentFields: the users route writes a shift type outside the enum into the database as text, and answers 200. The model answers 200 too (`UsersApi.ProfileWriteUnchecked`) but keeps the stored shift kind, since the student datatype holds only enum values. `UsersApi.UpdateUserSpec` inherits this.
- StudentModel.ApplyStudentFields, StudentModel.SetStudentFields, DepartmentModel.ApplyDepartmentFields: a student or department patch cannot hold `null`. Clearing an optional field, or writing `null` into a required one, is not modelled. The attendance patch does model `null` for the clock times, photos and remarks, the announcement patch for the department, and the template patch for the description and the extracted data; `null` in any other field, and in the course patch, is not modelled.
- UsersApi.UpdateUserSpec: the profile data is typed as student or department fields. Data of the other shape than `accountType` names is modelled as writing nothing, while the database would still write the fields the two schemas share.
- ClockInOut.PairHoursAgreeWithTotal: it bounds the difference between the summary's pair hours and the stored total by two hundredths, because each of the three roundings may differ by one. It does not state equality.
- src/app/page.tsx, src/components/Logo.tsx and src/components/Announcements.tsx are presentation only, and src/lib/models/PasswordReset.ts is not used by any route. None of them is part of this model.

## Findings

| source | as written | input that shows it | evidently intended | confidence | as-written member | corrected member |
|---|---|---|---|---|---|---|
| src/components/AttendanceLogs.tsx:85-100 | each CSV line joins its nine values with bare commas, and the en-US date ("Jan 5, 2025") holds a comma | any record: its line splits into ten fields under nine headers, so every column after Date is shifted by one | one field per header, e.g. by quoting every value | not executed | AttendanceLogs.AsWrittenLineHasTenFields | AttendanceLogs.CsvReadsBack |
| src/components/DTRTemplate.tsx:82-85 | the row key is the UTC date (`toISOString`) of local midnight, while a record's key is its own UTC date | at UTC+8, a record stamped 08:00 local on day 5 has UTC date 5, but row 5's key is UTC date 4: row 5 is blank and row 6 shows it | row `d` shows the record of local day `d` | not executed | DtrGrid.AsWrittenShiftsRows | DtrGrid.RowsSpec |
| src/components/ProfileForm.tsx:103-106 | the password request sends the student document's `_id` as `userId` | one user (id 0) with its student profile (id 1), new password "new-secret" twice: the users route answers 404 "User not found" | the student's user id, so that the user's password changes | not executed | ProfileForm.AsWrittenPasswordExample | ProfileForm.PasswordUpdateApplies |
| src/components/ProfileForm.tsx:58-62 | the profile request has no `updates` object and sends the student document's `_id` as `userId` | any student: the users route fails (500 when the id names a user, 404 otherwise) and nothing is saved | the user id and an empty `updates` object, so that the profile fields are saved | not executed | ProfileForm.AsWrittenProfileNeverSaves | ProfileForm.ProfileUpdateApplies |
| src/app/api/dtr-templates/process/route.ts:29-41 | the student query populates `departmentId`, which the student schema does not have; with Mongoose's strict population (on by default since version 6) that query throws when it finds the student | a stored template and a `studentId` naming a stored student: the catch answers 500 "Failed to process DTR template" and the extraction is not saved | the student's department joined through a path the schema has (or no department), so that the student's name is filled in | not executed; assumes Mongoose 6 or later, whose version the source does not pin | DtrProcessApi.AsWrittenNamedStudentFails | DtrProcessApi.ProcessSpec |
