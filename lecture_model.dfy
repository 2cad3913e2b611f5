/** The Lecture document: its fields, the status enumeration with its default,
    the schema's required fields and the automatic timestamps. */
module LectureModel {
  import opened Basics

  type LectureId = nat

  datatype Status = Pending | Live | Completed | Cancelled

  /** The stored spelling of each status. */
  function StatusName(st: Status): string {
    match st
    case Pending => "pending"
    case Live => "live"
    case Completed => "completed"
    case Cancelled => "cancelled"
  }

  /** Reads a status sent by a client; only the four enumerated spellings are accepted. */
  function ParseStatus(s: Option<string>): (r: Option<Status>)
    ensures r.Some? <==> s.Some? && s.value in {"pending", "live", "completed", "cancelled"}
    ensures r.Some? ==> StatusName(r.value) == s.value
  {
    if s == Some("pending") then Some(Pending)
    else if s == Some("live") then Some(Live)
    else if s == Some("completed") then Some(Completed)
    else if s == Some("cancelled") then Some(Cancelled)
    else None
  }

  /** A status from which the controller refuses every change. */
  predicate Closed(st: Status) {
    st == Completed || st == Cancelled
  }

  /** An optional text path of the document, which has three states: absent (`None`),
      stored as null (`Some(None)`) or holding a text (`Some(Some(s))`). */
  type Nullable = Option<Option<string>>

  /** The stored form of a text that is either given or absent. */
  function Stored(s: Option<string>): Nullable {
    if s.Some? then Some(Some(s.value)) else None
  }

  /** A stored lecture. There is no duration field: the schema does not declare one,
      so a duration sent by a client is never stored. Timestamps are opaque instants. */
  datatype Lecture = Lecture(
    id: LectureId,
    teacherId: UserId,
    topic: string,
    subject: string,
    description: Nullable,
    date: Nullable,
    time: Nullable,
    status: Status,
    createdAt: int,
    updatedAt: int)

  /** The schema's `required` validators: a required text field must be non-empty
      (the teacher reference is always present in this model). */
  predicate Conforms(l: Lecture) {
    l.topic != "" && l.subject != ""
  }

  /** Building and validating a new document: it exists exactly when the required
      fields are given; the status defaults to pending; both timestamps are `now`. */
  function Construct(
    id: LectureId, teacherId: UserId, topic: Option<string>, subject: Option<string>,
    description: Nullable, date: Nullable, time: Nullable,
    status: Option<Status>, now: int): (r: Option<Lecture>)
    ensures r.Some? <==> Given(topic) && Given(subject)
    ensures r.Some? ==> Conforms(r.value)
    ensures r.Some? ==> r.value.id == id && r.value.teacherId == teacherId
    ensures r.Some? ==> r.value.topic == topic.value && r.value.subject == subject.value
    ensures r.Some? ==> r.value.description == description && r.value.date == date && r.value.time == time
    ensures r.Some? ==> r.value.status == (if status.None? then Pending else status.value)
    ensures r.Some? ==> r.value.createdAt == now && r.value.updatedAt == now
  {
    if Given(topic) && Given(subject) then
      Some(Lecture(id, teacherId, topic.value, subject.value, description, date, time,
                   if status.Some? then status.value else Pending, now, now))
    else None
  }
}
