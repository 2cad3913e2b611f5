/** The request handlers of the question controller over a store of Question
    documents keyed by id. None of these handlers broadcasts anything. */
module QuestionStore {
  import opened Basics
  import opened QuestionModel
  import Sorting

  const StudentsOnly := "Forbidden: Access allowed only for students"
  const QuestionAndLectureRequired := "question and lectureId are required"
  const LectureNotFound := "Lecture not found"
  const QuestionExists := "Question already exists in this lecture."
  const StatusIsRequired := "status is required"
  const StatusMustBeOneOf := "Status must be one of: answered, unanswered"
  const QuestionNotFound := "Question not found"
  const FilterRequired := "Provide at least studentId or lectureId"

  /** The body of a create request. */
  datatype AskRequest = AskRequest(question: Option<string>, lectureId: Option<nat>, isIMP: Option<bool>)

  /** The body of a generic patch: each field that is not None is written as given
      (`answer` and `answeredAt` may be written as null, which is `Some(None)`). The
      author and the lecture are writable too; the id and the creation time are not. */
  datatype QuestionPatch = QuestionPatch(
    text: Option<string>, studentId: Option<UserId>, lectureId: Option<nat>,
    answer: Option<Option<string>>, status: Option<QStatus>, answeredAt: Option<Option<int>>,
    isIMP: Option<bool>, isValid: Option<bool>)

  /** The patch that carries no field. */
  const EmptyPatch := QuestionPatch(None, None, None, None, None, None, None, None)

  function NewestKey(q: Question): (int, int) {
    (q.createdAt, 0)
  }

  /** The selection of the listing handler: valid questions matching every given filter. */
  predicate Listed(studentId: Option<UserId>, lectureId: Option<nat>, q: Question) {
    && q.isValid
    && (studentId.Some? ==> q.studentId == studentId.value)
    && (lectureId.Some? ==> q.lectureId == lectureId.value)
  }

  class QuestionStore {
    var questions: map<QuestionId, Question>
    var nextId: QuestionId

    /** Every record sits under its own id, and ids below `nextId` are the ones handed out. */
    ghost predicate Valid()
      reads this
    {
      forall id :: id in questions ==> questions[id].id == id && id < nextId
    }

    constructor ()
      ensures Valid() && questions == map[] && nextId == 0
    {
      questions := map[];
      nextId := 0;
    }

    /** `Question.create(...)`: one new record under a fresh id, with the defaults. */
    method Add(text: string, studentId: UserId, lectureId: nat, isIMP: Option<bool>, now: int)
      returns (q: Question)
      requires Valid()
      modifies this
      ensures Valid()
      ensures q == NewQuestion(old(nextId), text, studentId, lectureId, isIMP, now)
      ensures old(nextId) !in old(questions)
      ensures questions == old(questions)[q.id := q] && nextId == old(nextId) + 1
    {
      q := NewQuestion(nextId, text, studentId, lectureId, isIMP, now);
      questions := questions[nextId := q];
      nextId := nextId + 1;
    }

    /** createQuestion: 403 unless the caller is a student, then 400 (missing text or
        lecture), 404 (unknown lecture), 409 (duplicate text in that lecture); otherwise
        one new question. `lectures` is the set of existing lecture ids. */
    method CreateQuestion(caller: User, req: AskRequest, lectures: set<nat>, now: int)
      returns (resp: Response<Question>)
      requires Valid()
      modifies this
      ensures Valid()
      ensures caller.role != Student ==> resp == Failed(403, StudentsOnly)
      ensures caller.role == Student && (!Given(req.question) || !HasId(req.lectureId))
        ==> resp == Failed(400, QuestionAndLectureRequired)
      ensures caller.role == Student && Given(req.question) && HasId(req.lectureId)
        && req.lectureId.value !in lectures
        ==> resp == Failed(404, LectureNotFound)
      ensures caller.role == Student && Given(req.question) && HasId(req.lectureId)
        && req.lectureId.value in lectures && IsDuplicate(old(questions), req.lectureId.value, req.question.value)
        ==> resp == Failed(409, QuestionExists)
      ensures resp.Done? <==>
        && caller.role == Student && Given(req.question) && HasId(req.lectureId)
        && req.lectureId.value in lectures && !IsDuplicate(old(questions), req.lectureId.value, req.question.value)
      ensures resp.Failed? ==> questions == old(questions) && nextId == old(nextId)
      ensures resp.Done? ==>
        && resp.code == 201
        && resp.value == NewQuestion(old(nextId), req.question.value, caller.id, req.lectureId.value, req.isIMP, now)
        && old(nextId) !in old(questions)
        && questions == old(questions)[old(nextId) := resp.value]
    {
      if caller.role != Student {
        return Failed(403, StudentsOnly);
      }
      if !Given(req.question) || !HasId(req.lectureId) {
        return Failed(400, QuestionAndLectureRequired);
      }
      var lectureId := req.lectureId.value;
      if lectureId !in lectures {
        return Failed(404, LectureNotFound);
      }
      var escaped := Escape(req.question.value);
      var duplicate := exists id | id in questions ::
        questions[id].lectureId == lectureId && AnchoredMatch(escaped, questions[id].text);
      if duplicate {
        return Failed(409, QuestionExists);
      }
      var q := Add(req.question.value, caller.id, lectureId, req.isIMP, now);
      resp := Done(201, q);
    }

    /** updateQuestionStatus: 400 (missing status), 400 (not answered/unanswered) before
        the store is looked at, then 404; the status is set, the answer time is set
        exactly for an answered question, and the answer is replaced only when the
        request carries one (null included). */
    method UpdateQuestionStatus(id: QuestionId, status: Option<string>, answer: Option<Option<string>>, now: int)
      returns (resp: Response<Question>)
      requires Valid()
      modifies this
      ensures Valid() && nextId == old(nextId)
      ensures !Given(status) ==> resp == Failed(400, StatusIsRequired)
      ensures Given(status) && ParseQStatus(status).None? ==> resp == Failed(400, StatusMustBeOneOf)
      ensures ParseQStatus(status).Some? && id !in old(questions) ==> resp == Failed(404, QuestionNotFound)
      ensures resp.Done? <==> ParseQStatus(status).Some? && id in old(questions)
      ensures resp.Failed? ==> questions == old(questions)
      ensures resp.Done? ==>
        var o := old(questions)[id];
        var n := resp.value;
        && resp.code == 200
        && questions == old(questions)[id := n]
        && n.status == ParseQStatus(status).value
        && AnsweredAtAgrees(n)
        && (n.answeredAt.Some? ==> n.answeredAt.value == now)
        && n.answer == (if answer.Some? then answer.value else o.answer)
        && n.(status := o.status, answeredAt := o.answeredAt, answer := o.answer) == o
    {
      if !Given(status) {
        return Failed(400, StatusIsRequired);
      }
      var target := ParseQStatus(status);
      if target.None? {
        return Failed(400, StatusMustBeOneOf);
      }
      if id !in questions {
        return Failed(404, QuestionNotFound);
      }
      var q := questions[id];
      q := q.(status := target.value);
      q := q.(answeredAt := if target.value == Answered then Some(now) else None);
      if answer.Some? {
        q := q.(answer := answer.value);
      }
      questions := questions[id := q];
      resp := Done(200, q);
    }

    /** clearQuestion: a soft delete that clears `isValid` and nothing else; 404 if absent. */
    method ClearQuestion(id: QuestionId) returns (resp: Response<Question>)
      requires Valid()
      modifies this
      ensures Valid() && nextId == old(nextId)
      ensures id !in old(questions) ==> resp == Failed(404, QuestionNotFound) && questions == old(questions)
      ensures id in old(questions) ==>
        && resp == Done(200, old(questions)[id].(isValid := false))
        && questions == old(questions)[id := resp.value]
    {
      if id !in questions {
        return Failed(404, QuestionNotFound);
      }
      var q := questions[id].(isValid := false);
      questions := questions[id := q];
      resp := Done(200, q);
    }

    /** updateQuestion: the generic patch writes every field the body carries; 404 if absent.
        It does not maintain `AnsweredAtAgrees` (see `PatchCanBreakAnsweredAt`). */
    method UpdateQuestion(id: QuestionId, patch: QuestionPatch) returns (resp: Response<Question>)
      requires Valid()
      modifies this
      ensures Valid() && nextId == old(nextId)
      ensures id !in old(questions) ==> resp == Failed(404, QuestionNotFound) && questions == old(questions)
      ensures id in old(questions) ==>
        && resp.Done? && resp.code == 200
        && resp.value == Patched(old(questions)[id], patch)
        && questions == old(questions)[id := resp.value]
    {
      if id !in questions {
        return Failed(404, QuestionNotFound);
      }
      var q := Patched(questions[id], patch);
      questions := questions[id := q];
      resp := Done(200, q);
    }

    /** The update of the socket answer handler (`findByIdAndUpdate` with the answer,
        status answered and the answer time); None when the id is absent. */
    method Answer(id: QuestionId, answer: string, now: int) returns (updated: Option<Question>)
      requires Valid()
      modifies this
      ensures Valid() && nextId == old(nextId)
      ensures id !in old(questions) ==> updated.None? && questions == old(questions)
      ensures id in old(questions) ==>
        && updated == Some(old(questions)[id].(answer := Some(answer), status := Answered, answeredAt := Some(now)))
        && questions == old(questions)[id := updated.value]
        && AnsweredAtAgrees(updated.value)
    {
      if id !in questions {
        return None;
      }
      var q := questions[id].(answer := Some(answer), status := Answered, answeredAt := Some(now));
      questions := questions[id := q];
      updated := Some(q);
    }

    /** The valid questions matching every given filter, each once, newest first. */
    function Selected(studentId: Option<UserId>, lectureId: Option<nat>): (r: seq<Question>)
      reads this
      requires Valid()
      ensures forall i :: 0 <= i < |r| ==> r[i].id in questions && questions[r[i].id] == r[i] && Listed(studentId, lectureId, r[i])
      ensures forall id :: id in questions && Listed(studentId, lectureId, questions[id]) ==> questions[id] in r
      ensures Sorting.Distinct(r)
      ensures forall i, j :: 0 <= i < j < |r| ==> r[i].createdAt >= r[j].createdAt
    {
      var r := Sorting.Listing(questions, nextId, (q: Question) => Listed(studentId, lectureId, q),
                               (q: Question) => q.id, NewestKey);
      assert forall i, j :: 0 <= i < j < |r| ==> Sorting.Ahead(NewestKey(r[i]), NewestKey(r[j]));
      r
    }

    /** getQuestions: 400 without any filter; otherwise exactly the valid questions that
        match every given filter, each once, newest first. */
    function GetQuestions(studentId: Option<UserId>, lectureId: Option<nat>): (resp: Response<seq<Question>>)
      reads this
      requires Valid()
      ensures studentId.None? && lectureId.None? <==> resp == Failed(400, FilterRequired)
      ensures resp.Done? ==> var r := resp.value;
        && resp.code == 200
        && (forall i :: 0 <= i < |r| ==> r[i].id in questions && questions[r[i].id] == r[i] && Listed(studentId, lectureId, r[i]))
        && (forall id :: id in questions && Listed(studentId, lectureId, questions[id]) ==> questions[id] in r)
        && Sorting.Distinct(r)
        && (forall i, j :: 0 <= i < j < |r| ==> r[i].createdAt >= r[j].createdAt)
    {
      if studentId.None? && lectureId.None? then Failed(400, FilterRequired)
      else Done(200, Selected(studentId, lectureId))
    }
  }

  /** The record a generic patch produces: every field the patch carries takes the
      sent value, and every other field, the id and the creation time keep theirs. */
  function Patched(q: Question, patch: QuestionPatch): (r: Question)
    ensures r.id == q.id && r.createdAt == q.createdAt
    ensures patch.text.None? ==> r.text == q.text
    ensures patch.studentId.None? ==> r.studentId == q.studentId
    ensures patch.lectureId.None? ==> r.lectureId == q.lectureId
    ensures patch.answer.None? ==> r.answer == q.answer
    ensures patch.status.None? ==> r.status == q.status
    ensures patch.answeredAt.None? ==> r.answeredAt == q.answeredAt
    ensures patch.isIMP.None? ==> r.isIMP == q.isIMP
    ensures patch.isValid.None? ==> r.isValid == q.isValid
    ensures patch.text.Some? ==> r.text == patch.text.value
    ensures patch.studentId.Some? ==> r.studentId == patch.studentId.value
    ensures patch.lectureId.Some? ==> r.lectureId == patch.lectureId.value
    ensures patch.answer.Some? ==> r.answer == patch.answer.value
    ensures patch.status.Some? ==> r.status == patch.status.value
    ensures patch.answeredAt.Some? ==> r.answeredAt == patch.answeredAt.value
    ensures patch.isIMP.Some? ==> r.isIMP == patch.isIMP.value
    ensures patch.isValid.Some? ==> r.isValid == patch.isValid.value
  {
    Question(q.id, Pick(patch.text, q.text), Pick(patch.studentId, q.studentId), Pick(patch.lectureId, q.lectureId),
             Pick(patch.answer, q.answer), Pick(patch.status, q.status), Pick(patch.answeredAt, q.answeredAt),
             Pick(patch.isIMP, q.isIMP), Pick(patch.isValid, q.isValid), q.createdAt)
  }

  /** An empty patch changes nothing, and applying a patch twice is applying it once. */
  lemma PatchIdentityAndIdempotence(q: Question, patch: QuestionPatch)
    ensures Patched(q, EmptyPatch) == q
    ensures Patched(Patched(q, patch), patch) == Patched(q, patch)
  {
  }

  /** A patch may move a question to another lecture: it then leaves the listing of
      its old lecture. */
  lemma PatchCanMoveQuestion(q: Question, other: nat)
    requires q.isValid && q.lectureId != other
    ensures Listed(None, Some(q.lectureId), q)
    ensures !Listed(None, Some(q.lectureId), Patched(q, EmptyPatch.(lectureId := Some(other))))
  {
  }

  /** A patch that only sets the status leaves the answer time alone, so an unanswered
      question patched to answered has no answer time. */
  lemma PatchCanBreakAnsweredAt(q: Question)
    requires q.status == Unanswered && AnsweredAtAgrees(q)
    ensures !AnsweredAtAgrees(Patched(q, EmptyPatch.(status := Some(Answered))))
  {
  }
}
