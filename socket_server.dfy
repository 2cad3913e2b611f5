/** The Socket.IO handlers of the question controller: room membership keyed by
    lecture id, and the ask and answer events, which write to the same question
    store as the HTTP handlers and emit to a room, to every socket, or back to the
    sender. */
module SocketServer {
  import opened Basics
  import opened QuestionModel
  import opened QuestionStore
  import opened Protocol

  const MissingData := "Missing data"
  const FailedToCreate := "Failed to create question"
  const FailedToAnswer := "Failed to answer question"

  /** A room registry is a set of (socket, lecture) memberships. */
  type Rooms = set<(SocketId, nat)>

  /** The sockets in the room of lecture `l`. */
  function Members(rooms: Rooms, l: nat): (r: set<SocketId>)
    ensures forall s :: s in r <==> (s, l) in rooms
  {
    set p | p in rooms && p.1 == l :: p.0
  }

  /** `if (lectureId) socket.join(lectureId)`. */
  function Joined(rooms: Rooms, s: SocketId, lectureId: Option<nat>): Rooms {
    if HasId(lectureId) then rooms + {(s, lectureId.value)} else rooms
  }

  /** `if (lectureId) socket.leave(lectureId)`. */
  function Left(rooms: Rooms, s: SocketId, lectureId: Option<nat>): Rooms {
    if HasId(lectureId) then rooms - {(s, lectureId.value)} else rooms
  }

  /** Joining puts the socket in exactly that room and touches no other membership;
      a falsy lecture id changes nothing. */
  lemma JoinedRoom(rooms: Rooms, s: SocketId, lectureId: Option<nat>, t: SocketId, l: nat)
    ensures lectureId.None? ==> Joined(rooms, s, lectureId) == rooms
    ensures lectureId.Some? ==>
      (t in Members(Joined(rooms, s, lectureId), l) <==> t in Members(rooms, l) || (t == s && l == lectureId.value))
  {
  }

  /** Leaving takes the socket out of exactly that room and touches no other membership;
      a falsy lecture id changes nothing. */
  lemma LeftRoom(rooms: Rooms, s: SocketId, lectureId: Option<nat>, t: SocketId, l: nat)
    ensures lectureId.None? ==> Left(rooms, s, lectureId) == rooms
    ensures lectureId.Some? ==>
      (t in Members(Left(rooms, s, lectureId), l) <==> t in Members(rooms, l) && !(t == s && l == lectureId.value))
  {
  }

  /** Joining or leaving twice is the same as doing it once. */
  lemma MembershipIdempotent(rooms: Rooms, s: SocketId, lectureId: Option<nat>)
    ensures Joined(Joined(rooms, s, lectureId), s, lectureId) == Joined(rooms, s, lectureId)
    ensures Left(Left(rooms, s, lectureId), s, lectureId) == Left(rooms, s, lectureId)
  {
  }

  /** The events the server registers a handler for. */
  predicate Handled(ev: ClientEvent) {
    ev.JoinLecture? || ev.LeaveLecture? || ev.AskQuestion? || ev.AnswerQuestion?
  }

  class Server {
    var connected: set<SocketId>
    var rooms: Rooms
    /** Every emission so far, oldest first. */
    var sent: seq<Delivery>
    const store: QuestionStore

    /** Only connected sockets are in rooms, and the store is well formed. */
    ghost predicate Valid()
      reads this, store
    {
      && store.Valid()
      && forall p :: p in rooms ==> p.0 in connected
    }

    constructor (store: QuestionStore)
      requires store.Valid()
      ensures Valid() && this.store == store
      ensures connected == {} && rooms == {} && sent == []
    {
      this.store := store;
      connected := {};
      rooms := {};
      sent := [];
    }

    /** A socket connects; it is in no room yet. */
    method Connect(s: SocketId)
      requires Valid() && s !in connected
      modifies this
      ensures Valid()
      ensures connected == old(connected) + {s} && rooms == old(rooms) && sent == old(sent)
      ensures forall l :: s !in Members(rooms, l)
    {
      connected := connected + {s};
    }

    /** A socket disconnects and Socket.IO drops it from every room. */
    method Disconnect(s: SocketId)
      requires Valid() && s in connected
      modifies this
      ensures Valid()
      ensures connected == old(connected) - {s} && sent == old(sent)
      ensures forall l :: Members(rooms, l) == Members(old(rooms), l) - {s}
    {
      rooms := set p | p in rooms && p.0 != s;
      connected := connected - {s};
    }

    /** join_lecture. */
    method JoinLecture(from: SocketId, lectureId: Option<nat>)
      requires Valid() && from in connected
      modifies this
      ensures Valid()
      ensures rooms == Joined(old(rooms), from, lectureId)
      ensures connected == old(connected) && sent == old(sent)
    {
      if HasId(lectureId) {
        rooms := rooms + {(from, lectureId.value)};
      }
    }

    /** leave_lecture. */
    method LeaveLecture(from: SocketId, lectureId: Option<nat>)
      requires Valid() && from in connected
      modifies this
      ensures Valid()
      ensures rooms == Left(old(rooms), from, lectureId)
      ensures connected == old(connected) && sent == old(sent)
    {
      if HasId(lectureId) {
        rooms := rooms - {(from, lectureId.value)};
      }
    }

    /** ask_question: only the presence of the three fields is checked (no role,
        lecture or duplicate check). `stored` says whether the store write succeeds. */
    method AskQuestion(from: SocketId, question: Option<string>, lectureId: Option<nat>,
                       studentId: Option<UserId>, isIMP: Option<bool>, stored: bool, now: int)
      requires Valid() && from in connected
      modifies this, store
      ensures Valid()
      ensures connected == old(connected) && rooms == old(rooms)
      ensures !Given(question) || !HasId(lectureId) || !HasId(studentId) ==>
        && sent == old(sent) + [Delivery({from}, QuestionError(MissingData))]
        && store.questions == old(store.questions) && store.nextId == old(store.nextId)
      ensures Given(question) && HasId(lectureId) && HasId(studentId) && !stored ==>
        && sent == old(sent) + [Delivery({from}, QuestionError(FailedToCreate))]
        && store.questions == old(store.questions) && store.nextId == old(store.nextId)
      ensures Given(question) && HasId(lectureId) && HasId(studentId) && stored ==>
        var q := NewQuestion(old(store.nextId), question.value, studentId.value, lectureId.value, isIMP, now);
        && old(store.nextId) !in old(store.questions)
        && store.questions == old(store.questions)[q.id := q]
        && sent == old(sent) + [Delivery(Members(rooms, lectureId.value), QuestionCreated(q))]
    {
      if !Given(question) || !HasId(lectureId) || !HasId(studentId) {
        sent := sent + [Delivery({from}, QuestionError(MissingData))];
        return;
      }
      if !stored {
        sent := sent + [Delivery({from}, QuestionError(FailedToCreate))];
        return;
      }
      var q := store.Add(question.value, studentId.value, lectureId.value, isIMP, now);
      sent := sent + [Delivery(Members(rooms, lectureId.value), QuestionCreated(q))];
    }

    /** answer_question: the question gets the answer, the answered status and the
        answer time, and the result goes to the lecture's room, or to every socket
        when no lecture id is sent. `stored` says whether the store write succeeds. */
    method AnswerQuestion(from: SocketId, questionId: Option<QuestionId>, answer: Option<string>,
                          lectureId: Option<nat>, stored: bool, now: int)
      requires Valid() && from in connected
      modifies this, store
      ensures Valid()
      ensures connected == old(connected) && rooms == old(rooms) && store.nextId == old(store.nextId)
      ensures !HasId(questionId) || !Given(answer) ==>
        sent == old(sent) + [Delivery({from}, AnswerError(MissingData))] && store.questions == old(store.questions)
      ensures HasId(questionId) && Given(answer) && !stored ==>
        sent == old(sent) + [Delivery({from}, AnswerError(FailedToAnswer))] && store.questions == old(store.questions)
      ensures HasId(questionId) && Given(answer) && stored && questionId.value !in old(store.questions) ==>
        sent == old(sent) + [Delivery({from}, AnswerError(QuestionNotFound))] && store.questions == old(store.questions)
      ensures HasId(questionId) && Given(answer) && stored && questionId.value in old(store.questions) ==>
        var id := questionId.value;
        var q := old(store.questions)[id].(answer := answer, status := Answered, answeredAt := Some(now));
        && AnsweredAtAgrees(q)
        && store.questions == old(store.questions)[id := q]
        && sent == old(sent) + [Delivery(if HasId(lectureId) then Members(rooms, lectureId.value) else connected,
                                         QuestionAnswered(q))]
    {
      if !HasId(questionId) || !Given(answer) {
        sent := sent + [Delivery({from}, AnswerError(MissingData))];
        return;
      }
      if !stored {
        sent := sent + [Delivery({from}, AnswerError(FailedToAnswer))];
        return;
      }
      var updated := store.Answer(questionId.value, answer.value, now);
      if updated.None? {
        sent := sent + [Delivery({from}, AnswerError(QuestionNotFound))];
      } else if HasId(lectureId) {
        sent := sent + [Delivery(Members(rooms, lectureId.value), QuestionAnswered(updated.value))];
      } else {
        sent := sent + [Delivery(connected, QuestionAnswered(updated.value))];
      }
    }

    /** Dispatch of one client event. The server has no handler for the events the
        teacher's view emits, so those change nothing and reach no one. */
    method Receive(from: SocketId, ev: ClientEvent, stored: bool, now: int)
      requires Valid() && from in connected
      modifies this, store
      ensures Valid()
      ensures connected == old(connected)
      ensures !Handled(ev) ==>
        && rooms == old(rooms) && sent == old(sent)
        && store.questions == old(store.questions) && store.nextId == old(store.nextId)
      ensures ev.JoinLecture? ==> rooms == Joined(old(rooms), from, ev.lectureId) && sent == old(sent)
      ensures ev.LeaveLecture? ==> rooms == Left(old(rooms), from, ev.lectureId) && sent == old(sent)
      ensures ev.AskQuestion? || ev.AnswerQuestion? ==> rooms == old(rooms) && |sent| == |old(sent)| + 1
    {
      match ev
      case JoinLecture(l) => JoinLecture(from, l);
      case LeaveLecture(l) => LeaveLecture(from, l);
      case AskQuestion(question, l, student, isIMP) => AskQuestion(from, question, l, student, isIMP, stored, now);
      case AnswerQuestion(id, answer, l) => AnswerQuestion(from, id, answer, l, stored, now);
      case ClassEnded(_) =>
      case QuestionStarred(_, _) =>
      case QuestionAnsweredNotice(_, _, _) =>
    }
  }
}
