/** The lecture controller as a store of Lecture documents keyed by id, with the
    create / change-status / edit / list / delete handlers. Every mutating handler
    is reachable only by a teacher (the routes put `authorize('teacher')` in front
    of them), which the handlers here take as a precondition. The current instant
    and the lecture's scheduled start are passed in as integers. */
module LectureStore {
  import opened Basics
  import opened LectureModel
  import Sorting

  const FieldsRequired := "All fields (topic, subject, date, time, duration) are required"
  const DuplicatePending := "A pending class for this topic, subject, and time already exists."
  const StatusRequired := "Status required: pending, live, completed, or cancelled."
  const LectureNotFound := "Lecture not found"
  const NotAuthorisedToUpdate := "Not authorised to update this class"
  const CannotCancel := "Cannot cancel a class that has already started or passed."
  const NotAuthorisedToEdit := "Not authorised to edit this class"
  const OnlyPendingEditable := "Only pending classes can be edited."
  const CannotEditStarted := "Cannot edit class that has started or passed."
  const NotAuthorisedToDelete := "Not authorised to delete this class"
  const InternalError := "Internal server error"

  function AlreadyClosed(st: Status): string {
    "Class is already " + StatusName(st) + ", can't update."
  }

  /** The body of a create request; a missing field is None. Only the description can
      usefully be sent as null (`Some(None)`): the other fields must be truthy. */
  datatype CreateRequest = CreateRequest(
    topic: Option<string>, subject: Option<string>, description: Nullable,
    date: Option<string>, time: Option<string>, duration: Option<int>)

  /** Every field the create handler insists on is truthy (a zero duration is falsy). */
  predicate Complete(req: CreateRequest) {
    Given(req.topic) && Given(req.subject) && Given(req.date) && Given(req.time)
    && req.duration.Some? && req.duration.value != 0
  }

  /** `l` is a pending lecture of `teacher` with the request's topic, subject, date and time. */
  predicate PendingTwin(l: Lecture, teacher: UserId, req: CreateRequest) {
    && l.status == Pending && l.teacherId == teacher
    && req.topic == Some(l.topic) && req.subject == Some(l.subject)
    && l.date == Stored(req.date) && l.time == Stored(req.time)
  }

  /** The moves the status handler lets an owner make: none out of a closed status,
      and a cancellation only before the scheduled start. */
  predicate CanMove(from: Status, to: Status, now: int, startAt: int) {
    !Closed(from) && (to == Cancelled ==> now < startAt)
  }

  /** Completed and cancelled are absorbing. */
  lemma ClosedIsAbsorbing(from: Status, to: Status, now: int, startAt: int)
    requires Closed(from)
    ensures !CanMove(from, to, now, startAt)
  {
  }

  /** Moves are not forward-only: an open lecture may go back to pending, and may go
      to completed without having been live. */
  lemma MovesAreNotForwardOnly(now: int, startAt: int)
    ensures CanMove(Live, Pending, now, startAt)
    ensures CanMove(Pending, Completed, now, startAt)
    ensures CanMove(Live, Cancelled, now, startAt) <==> now < startAt
  {
  }

  /** The body of an edit request: a field that is None was not sent, and `Some(None)`
      is a field sent as null. */
  datatype EditRequest = EditRequest(
    topic: Option<Option<string>>, subject: Option<Option<string>>, description: Option<Option<string>>,
    date: Option<Option<string>>, time: Option<Option<string>>, duration: Option<Option<int>>)

  /** A required text field sent as null or as "", which the schema's validator refuses. */
  predicate Blanked(f: Option<Option<string>>) {
    f == Some(None) || f == Some(Some(""))
  }

  /** The timestamp a save leaves: the save time when some path changed, else the old one.
      Paths are compared as stored, so a null written over an absent path is a change. */
  function Touched(o: Lecture, n: Lecture, now: int): int {
    if n.(updatedAt := o.updatedAt) == o then o.updatedAt else now
  }

  /** A save that changes no path keeps the old stamp, whatever stamp the new document
      carried; a save that changes one stamps the save time; with a clock that does not go
      back, `updatedAt` never decreases and never passes the save time. */
  lemma TouchedStamps(o: Lecture, n: Lecture, x: int, now: int)
    ensures Touched(o, o.(updatedAt := x), now) == o.updatedAt
    ensures n.(updatedAt := o.updatedAt) != o ==> Touched(o, n, now) == now
    ensures o.updatedAt <= now ==> o.updatedAt <= Touched(o, n, now) <= now
  {
  }

  /** Writing null over an absent description is a change, so it stamps the save time;
      writing null over a stored null is not. */
  lemma NullOverAbsentIsAChange(o: Lecture, now: int)
    requires o.description.None?
    ensures Touched(o, o.(description := Some(None)), now) == now
    ensures Touched(o.(description := Some(None)), o.(description := Some(None)), now) == o.updatedAt
  {
  }

  /** Which lectures the listing handler selects for `caller`. */
  predicate Visible(caller: User, teacherQuery: Option<UserId>, l: Lecture) {
    match caller.role
    case Teacher => l.teacherId == caller.id
    case Student => teacherQuery.None? || l.teacherId == teacherQuery.value
    case OtherRole => true
  }

  function NewestKey(l: Lecture): (int, int) {
    (l.createdAt, 0)
  }

  class LectureStore {
    var lectures: map<LectureId, Lecture>
    var nextId: LectureId

    /** Every record sits under its own id, ids below `nextId` are the ones handed
        out, and every record satisfies the schema. */
    ghost predicate Valid()
      reads this
    {
      forall id :: id in lectures ==> lectures[id].id == id && id < nextId && Conforms(lectures[id])
    }

    constructor ()
      ensures Valid() && lectures == map[] && nextId == 0
    {
      lectures := map[];
      nextId := 0;
    }

    /** createLecture: all fields required, no pending twin, then one new pending record. */
    method CreateLecture(caller: User, req: CreateRequest, now: int) returns (resp: Response<Lecture>)
      requires Valid() && caller.role == Teacher
      modifies this
      ensures Valid()
      ensures !Complete(req) ==> resp == Failed(400, FieldsRequired)
      ensures Complete(req) && (exists id :: id in old(lectures) && PendingTwin(old(lectures)[id], caller.id, req))
        ==> resp == Failed(400, DuplicatePending)
      ensures resp.Done? <==> Complete(req) && !(exists id :: id in old(lectures) && PendingTwin(old(lectures)[id], caller.id, req))
      ensures resp.Failed? ==> lectures == old(lectures) && nextId == old(nextId)
      ensures resp.Done? ==>
        && resp.code == 201
        && old(nextId) !in old(lectures)
        && lectures == old(lectures)[old(nextId) := resp.value]
        && nextId == old(nextId) + 1
        && Some(resp.value) == Construct(old(nextId), caller.id, req.topic, req.subject, req.description,
                                         Stored(req.date), Stored(req.time), Some(Pending), now)
        && resp.value.status == Pending
    {
      if !Complete(req) {
        return Failed(400, FieldsRequired);
      }
      var duplicate := exists id | id in lectures :: PendingTwin(lectures[id], caller.id, req);
      if duplicate {
        return Failed(400, DuplicatePending);
      }
      var created := Construct(nextId, caller.id, req.topic, req.subject, req.description,
                               Stored(req.date), Stored(req.time), Some(Pending), now);
      var lecture := created.value;
      lectures := lectures[nextId := lecture];
      nextId := nextId + 1;
      resp := Done(201, lecture);
    }

    /** changeLectureStatus: the checks run in the order 400 (bad status), 404, 403,
        400 (closed), 400 (cancel too late); any other move is allowed, including
        moves back to pending and from pending straight to completed. */
    method ChangeLectureStatus(caller: User, id: LectureId, status: Option<string>, now: int, startAt: int)
      returns (resp: Response<Lecture>)
      requires Valid() && caller.role == Teacher
      modifies this
      ensures Valid() && nextId == old(nextId)
      ensures ParseStatus(status).None? ==> resp == Failed(400, StatusRequired)
      ensures ParseStatus(status).Some? && id !in old(lectures) ==> resp == Failed(404, LectureNotFound)
      ensures ParseStatus(status).Some? && id in old(lectures) && old(lectures)[id].teacherId != caller.id
        ==> resp == Failed(403, NotAuthorisedToUpdate)
      ensures ParseStatus(status).Some? && id in old(lectures) && old(lectures)[id].teacherId == caller.id
        && Closed(old(lectures)[id].status)
        ==> resp == Failed(400, AlreadyClosed(old(lectures)[id].status))
      ensures ParseStatus(status).Some? && id in old(lectures) && old(lectures)[id].teacherId == caller.id
        && !Closed(old(lectures)[id].status) && ParseStatus(status).value == Cancelled && now >= startAt
        ==> resp == Failed(400, CannotCancel)
      ensures resp.Done? <==>
        && ParseStatus(status).Some? && id in old(lectures) && old(lectures)[id].teacherId == caller.id
        && CanMove(old(lectures)[id].status, ParseStatus(status).value, now, startAt)
      ensures resp.Failed? ==> lectures == old(lectures)
      ensures resp.Done? ==>
        var o := old(lectures)[id];
        && resp.code == 200
        && resp.value == o.(status := ParseStatus(status).value,
                            updatedAt := if ParseStatus(status).value == o.status then o.updatedAt else now)
        && lectures == old(lectures)[id := resp.value]
    {
      var target := ParseStatus(status);
      if target.None? {
        return Failed(400, StatusRequired);
      }
      if id !in lectures {
        return Failed(404, LectureNotFound);
      }
      var lecture := lectures[id];
      if lecture.teacherId != caller.id {
        return Failed(403, NotAuthorisedToUpdate);
      }
      if Closed(lecture.status) {
        return Failed(400, AlreadyClosed(lecture.status));
      }
      if target.value == Cancelled {
        if now >= startAt {
          return Failed(400, CannotCancel);
        }
      }
      var saved := lecture.(status := target.value);
      saved := saved.(updatedAt := Touched(lecture, saved, now));
      lecture := saved;
      lectures := lectures[id := lecture];
      resp := Done(200, lecture);
    }

    /** updateLecture: 404, 403, 400 (not pending), 400 (already started); then only
        the whitelisted fields that were sent are copied. A duration is accepted but
        not stored (the schema has no such path). A save that would leave a required
        field null or empty fails its validator with 500 and changes nothing. */
    method UpdateLecture(caller: User, id: LectureId, req: EditRequest, now: int, startAt: int)
      returns (resp: Response<Lecture>)
      requires Valid() && caller.role == Teacher
      modifies this
      ensures Valid() && nextId == old(nextId)
      ensures id !in old(lectures) ==> resp == Failed(404, LectureNotFound)
      ensures id in old(lectures) && old(lectures)[id].teacherId != caller.id ==> resp == Failed(403, NotAuthorisedToEdit)
      ensures id in old(lectures) && old(lectures)[id].teacherId == caller.id && old(lectures)[id].status != Pending
        ==> resp == Failed(400, OnlyPendingEditable)
      ensures id in old(lectures) && old(lectures)[id].teacherId == caller.id && old(lectures)[id].status == Pending
        && now >= startAt
        ==> resp == Failed(400, CannotEditStarted)
      ensures id in old(lectures) && old(lectures)[id].teacherId == caller.id && old(lectures)[id].status == Pending
        && now < startAt && (Blanked(req.topic) || Blanked(req.subject))
        ==> resp == Failed(500, InternalError)
      ensures resp.Failed? ==> lectures == old(lectures)
      ensures resp.Done? <==>
        && id in old(lectures) && old(lectures)[id].teacherId == caller.id && old(lectures)[id].status == Pending
        && now < startAt && !Blanked(req.topic) && !Blanked(req.subject)
      ensures resp.Done? ==>
        var o := old(lectures)[id];
        var n := resp.value;
        && resp.code == 200
        && lectures == old(lectures)[id := n]
        && n.topic == (if req.topic.Some? then req.topic.value.value else o.topic)
        && n.subject == (if req.subject.Some? then req.subject.value.value else o.subject)
        && n.description == (if req.description.Some? then req.description else o.description)
        && n.date == (if req.date.Some? then req.date else o.date)
        && n.time == (if req.time.Some? then req.time else o.time)
        && n.(topic := o.topic, subject := o.subject, description := o.description,
              date := o.date, time := o.time, updatedAt := o.updatedAt) == o
        && n.updatedAt == Touched(o, n, now)
    {
      if id !in lectures {
        return Failed(404, LectureNotFound);
      }
      var lecture := lectures[id];
      if lecture.teacherId != caller.id {
        return Failed(403, NotAuthorisedToEdit);
      }
      if lecture.status != Pending {
        return Failed(400, OnlyPendingEditable);
      }
      if now >= startAt {
        return Failed(400, CannotEditStarted);
      }
      var edited := lecture;
      var nulled := false;
      if req.topic.Some? {
        if req.topic.value.Some? { edited := edited.(topic := req.topic.value.value); } else { nulled := true; }
      }
      if req.subject.Some? {
        if req.subject.value.Some? { edited := edited.(subject := req.subject.value.value); } else { nulled := true; }
      }
      if req.description.Some? { edited := edited.(description := req.description); }
      if req.date.Some? { edited := edited.(date := req.date); }
      if req.time.Some? { edited := edited.(time := req.time); }
      // `duration` is assigned on the document too, but is not a schema path and is not saved.
      if nulled || !Conforms(edited) {
        return Failed(500, InternalError);
      }
      edited := edited.(updatedAt := Touched(lecture, edited, now));
      lectures := lectures[id := edited];
      resp := Done(200, edited);
    }

    /** deleteLecture: 404, 403, then the record is removed whatever its status. */
    method DeleteLecture(caller: User, id: LectureId) returns (resp: Response<LectureId>)
      requires Valid() && caller.role == Teacher
      modifies this
      ensures Valid() && nextId == old(nextId)
      ensures id !in old(lectures) ==> resp == Failed(404, LectureNotFound)
      ensures id in old(lectures) && old(lectures)[id].teacherId != caller.id ==> resp == Failed(403, NotAuthorisedToDelete)
      ensures resp.Done? <==> id in old(lectures) && old(lectures)[id].teacherId == caller.id
      ensures resp.Failed? ==> lectures == old(lectures)
      ensures resp.Done? ==> resp == Done(200, id) && lectures == old(lectures) - {id}
    {
      if id !in lectures {
        return Failed(404, LectureNotFound);
      }
      if lectures[id].teacherId != caller.id {
        return Failed(403, NotAuthorisedToDelete);
      }
      lectures := lectures - {id};
      resp := Done(200, id);
    }

    /** getLectures: a teacher gets exactly their own lectures (the query is ignored),
        a student all lectures or those of the queried teacher; newest first. */
    function ListLectures(caller: User, teacherQuery: Option<UserId>): (r: seq<Lecture>)
      reads this
      requires Valid()
      ensures forall i :: 0 <= i < |r| ==>
        r[i].id in lectures && lectures[r[i].id] == r[i] && Visible(caller, teacherQuery, r[i])
      ensures forall id :: id in lectures && Visible(caller, teacherQuery, lectures[id]) ==> lectures[id] in r
      ensures Sorting.Distinct(r)
      ensures forall i, j :: 0 <= i < j < |r| ==> r[i].createdAt >= r[j].createdAt
    {
      var r := Sorting.Listing(lectures, nextId, (l: Lecture) => Visible(caller, teacherQuery, l),
                               (l: Lecture) => l.id, NewestKey);
      assert forall i, j :: 0 <= i < j < |r| ==> Sorting.Ahead(NewestKey(r[i]), NewestKey(r[j]));
      r
    }
  }
}
