/** A notice posted for every student or for one department's students. */
module AnnouncementModel {
  import opened Common

  datatype Announcement = Announcement(
    title: string,
    content: string,
    department: Option<Id>,
    postedBy: Id,
    isForAll: bool,
    isActive: bool,
    createdAt: Time)

  /** The `updates` of a PUT; an absent field is None. `department` may be
      sent as null, which clears it: Some(None). */
  datatype AnnouncementFields = AnnouncementFields(
    title: Option<string>,
    content: Option<string>,
    department: Option<Option<Id>>,
    postedBy: Option<Id>,
    isForAll: Option<bool>,
    isActive: Option<bool>)

  /** `Announcement.create(...)` at time `now`: title and content must be
      non-empty and the poster given; `isActive` defaults to true. None is a
      validation error. */
  function NewAnnouncement(title: Option<string>, content: Option<string>, department: Option<Id>,
                           postedBy: Option<Id>, isForAll: bool, now: Time): (r: Option<Announcement>)
    ensures r.Some? <==> title.GetOr("") != "" && content.GetOr("") != "" && postedBy.Some?
    ensures r.Some? ==> r.value.title == title.value && r.value.content == content.value &&
                        r.value.postedBy == postedBy.value
    ensures r.Some? ==> r.value.isActive && r.value.isForAll == isForAll &&
                        r.value.department == department && r.value.createdAt == now
  {
    if title.GetOr("") == "" || content.GetOr("") == "" || postedBy.None? then None
    else Some(Announcement(title.value, content.value, department, postedBy.value, isForAll, true, now))
  }

  /** `$set` of the given fields, without validation: each field the update
      names is stored as given. `createdAt` is a timestamp Mongoose keeps
      out of updates, so it stays. */
  function ApplyAnnouncementFields(a: Announcement, p: AnnouncementFields): (r: Announcement)
    ensures r.title == p.title.GetOr(a.title) && r.content == p.content.GetOr(a.content)
    ensures r.department == p.department.GetOr(a.department) && r.postedBy == p.postedBy.GetOr(a.postedBy)
    ensures r.isActive == p.isActive.GetOr(a.isActive) && r.isForAll == p.isForAll.GetOr(a.isForAll)
    ensures r.createdAt == a.createdAt
  {
    Announcement(p.title.GetOr(a.title), p.content.GetOr(a.content), p.department.GetOr(a.department),
                 p.postedBy.GetOr(a.postedBy), p.isForAll.GetOr(a.isForAll), p.isActive.GetOr(a.isActive),
                 a.createdAt)
  }
}
