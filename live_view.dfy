/** The teacher's live-class view: the cookie reader behind its requests, and the
    component state its handlers and socket listeners update. Each handler runs as
    one step; whether its request succeeds is a parameter. */
module LiveView {
  import opened Basics
  import opened QuestionModel
  import opened ClientCache
  import opened Protocol

  const NoLectureId := "No lecture ID provided"
  const LoadFailed := "Failed to load questions. Please try again."
  const ConnectionLost := "Connection lost. Reconnecting..."

  // ---------------------------------------------------------------------------
  // getCookie.

  /** The segment with its leading spaces (only U+0020) removed. */
  function DropSpaces(c: string): (r: string)
    ensures r == [] || r[0] != ' '
    ensures |r| <= |c|
  {
    if c != [] && c[0] == ' ' then DropSpaces(c[1..]) else c
  }

  /** What is dropped is exactly a run of leading spaces: the result is the suffix of
      the segment after it. */
  lemma {:induction false} DropSpacesIsSuffix(c: string)
    ensures DropSpaces(c) == c[|c| - |DropSpaces(c)|..]
    ensures forall i :: 0 <= i < |c| - |DropSpaces(c)| ==> c[i] == ' '
  {
    if c != [] && c[0] == ' ' {
      DropSpacesIsSuffix(c[1..]);
      assert forall i :: 1 <= i < |c| - |DropSpaces(c)| ==> c[i] == c[1..][i - 1];
    }
  }

  /** The segment, once its leading spaces are dropped, starts with `key`. */
  predicate Carries(segment: string, key: string) {
    StartsWith(DropSpaces(segment), key)
  }

  /** The value of the first segment that carries `key`, or None. */
  function FirstCookie(segments: seq<string>, key: string): Option<string> {
    if segments == [] then None
    else if Carries(segments[0], key) then Some(DropSpaces(segments[0])[|key|..])
    else FirstCookie(segments[1..], key)
  }

  /** The cookie found is the value of the first carrying segment, and there is none
      exactly when no segment carries the key. */
  lemma {:induction false} FirstCookieFinds(segments: seq<string>, key: string)
    ensures FirstCookie(segments, key).None? <==> forall i :: 0 <= i < |segments| ==> !Carries(segments[i], key)
    ensures FirstCookie(segments, key).Some? ==>
      exists i ::
        && 0 <= i < |segments| && Carries(segments[i], key)
        && FirstCookie(segments, key).value == DropSpaces(segments[i])[|key|..]
        && forall j :: 0 <= j < i ==> !Carries(segments[j], key)
  {
    if segments != [] && !Carries(segments[0], key) {
      var tail := segments[1..];
      FirstCookieFinds(tail, key);
      assert forall i :: 1 <= i < |segments| ==> tail[i - 1] == segments[i];
      if FirstCookie(tail, key).Some? {
        var i :| 0 <= i < |tail| && Carries(tail[i], key)
          && FirstCookie(tail, key).value == DropSpaces(tail[i])[|key|..]
          && forall j :: 0 <= j < i ==> !Carries(tail[j], key);
        assert segments[i + 1] == tail[i];
        assert forall j :: 0 <= j < i + 1 ==> !Carries(segments[j], key) by {
          forall j | 0 <= j < i + 1 ensures !Carries(segments[j], key) {
            if j > 0 {
              assert segments[j] == tail[j - 1];
            }
          }
        }
      }
    }
  }

  /** What `getCookie(name)` returns for the cookie string `cookie`. */
  function CookieValue(cookie: string, name: string): Option<string> {
    FirstCookie(Split(cookie, ';'), name + "=")
  }

  /** getCookie: scan the `;`-separated segments, strip leading spaces, and return the
      rest of the first one that starts with `name=`. */
  method GetCookie(cookie: string, name: string) returns (r: Option<string>)
    ensures r == CookieValue(cookie, name)
  {
    var nameEQ := name + "=";
    var ca := Split(cookie, ';');
    for i := 0 to |ca|
      invariant FirstCookie(ca, nameEQ) == FirstCookie(ca[i..], nameEQ)
    {
      var c := ca[i];
      while |c| > 0 && c[0] == ' '
        invariant DropSpaces(c) == DropSpaces(ca[i])
      {
        c := c[1..];
      }
      assert ca[i..][1..] == ca[i + 1..];
      if StartsWith(c, nameEQ) {
        assert Carries(ca[i], nameEQ);
        return Some(c[|nameEQ|..]);
      }
    }
    assert ca[|ca|..] == [];
    return None;
  }

  /** A cookie string that begins with `name=value;` yields that value. */
  lemma CookieOfFirstPair(name: string, value: string, rest: string)
    requires ';' !in name && ';' !in value && (name == [] || name[0] != ' ')
    ensures CookieValue(name + "=" + value + ";" + rest, name) == Some(value)
  {
    var p := name + "=" + value;
    assert ';' !in p;
    assert p + ";" + rest == p + [';'] + rest;
    SplitAtSep(p, rest, ';');
    assert DropSpaces(p) == p;
    assert p[..|name + "="|] == name + "=";
    assert p[|name + "="|..] == value;
  }

  /** A segment that does not carry the name is passed over. */
  lemma CookieSkipsSegment(segment: string, rest: string, name: string)
    requires ';' !in segment && !Carries(segment, name + "=")
    ensures CookieValue(segment + ";" + rest, name) == CookieValue(rest, name)
  {
    assert segment + ";" + rest == segment + [';'] + rest;
    SplitAtSep(segment, rest, ';');
    var s := Split(segment + ";" + rest, ';');
    assert s[1..] == Split(rest, ';');
  }

  // ---------------------------------------------------------------------------
  // The local updates of the handlers.

  /** The first card with that id (`questions.find`). */
  function Find(l: seq<View>, id: QuestionId): (r: Option<View>)
    ensures r.None? <==> !Has(l, id)
    ensures r.Some? ==> r.value in l && r.value.id == id
  {
    if l == [] then None
    else if l[0].id == id then Some(l[0])
    else
      assert forall i :: 1 <= i < |l| ==> l[1..][i - 1] == l[i];
      Find(l[1..], id)
  }

  /** The card found precedes every other card with that id. */
  lemma {:induction false} FindIsFirst(l: seq<View>, id: QuestionId)
    requires Has(l, id)
    ensures exists i ::
      && 0 <= i < |l| && l[i] == Find(l, id).value
      && forall j :: 0 <= j < i ==> l[j].id != id
  {
    if l[0].id != id {
      var tail := l[1..];
      assert Has(tail, id) by {
        var k :| 0 <= k < |l| && l[k].id == id;
        assert tail[k - 1] == l[k];
      }
      FindIsFirst(tail, id);
      var i :| 0 <= i < |tail| && tail[i] == Find(tail, id).value && forall j :: 0 <= j < i ==> tail[j].id != id;
      assert l[i + 1] == tail[i];
      assert forall j :: 0 <= j < i + 1 ==> l[j].id != id by {
        forall j | 0 <= j < i + 1 ensures l[j].id != id {
          if j > 0 {
            assert l[j] == tail[j - 1];
          }
        }
      }
    } else {
      assert l[0] == Find(l, id).value;
    }
  }

  /** The star handler's local update: every card with that id flips its star. */
  function ToggleStarred(l: seq<View>, id: QuestionId): (r: seq<View>)
    ensures |r| == |l|
    ensures forall i :: 0 <= i < |l| ==> r[i] == if l[i].id == id then l[i].(isStarred := !l[i].isStarred) else l[i]
  {
    seq(|l|, i requires 0 <= i < |l| => if l[i].id == id then l[i].(isStarred := !l[i].isStarred) else l[i])
  }

  /** The mark-answered handler's local update: every card with that id flips its
      answered flag and takes `answer`. */
  function ToggleAnswered(l: seq<View>, id: QuestionId, answer: Option<string>): (r: seq<View>)
    ensures |r| == |l|
    ensures forall i :: 0 <= i < |l| ==>
      r[i] == if l[i].id == id then l[i].(isAnswered := !l[i].isAnswered, answer := answer) else l[i]
  {
    seq(|l|, i requires 0 <= i < |l| =>
      if l[i].id == id then l[i].(isAnswered := !l[i].isAnswered, answer := answer) else l[i])
  }

  /** The submit handler's local update: every card with that id is answered with `text`. */
  function SetAnswered(l: seq<View>, id: QuestionId, text: string): (r: seq<View>)
    ensures |r| == |l|
    ensures forall i :: 0 <= i < |l| ==>
      r[i] == if l[i].id == id then l[i].(isAnswered := true, answer := Some(text)) else l[i]
  {
    seq(|l|, i requires 0 <= i < |l| =>
      if l[i].id == id then l[i].(isAnswered := true, answer := Some(text)) else l[i])
  }

  /** Starring twice restores the list. */
  lemma ToggleStarredTwice(l: seq<View>, id: QuestionId)
    ensures ToggleStarred(ToggleStarred(l, id), id) == l
  {
  }

  /** With unique ids, the local star toggle is the update the star event describes. */
  lemma LocalStarIsStarEvent(l: seq<View>, id: QuestionId)
    requires UniqueIds(l) && Has(l, id)
    ensures ToggleStarred(l, id) == OnStarred(l, id, !Find(l, id).value.isStarred)
  {
  }

  /** The mark-answered update is the update a `question_answered` event describes
      when the event flips the card's answered status and carries the same answer. */
  lemma LocalMarkIsAnsweredEvent(l: seq<View>, id: QuestionId, answer: Option<string>, q: Question)
    requires UniqueIds(l) && Has(l, id)
    requires q.id == id && (q.status == Answered) == !Find(l, id).value.isAnswered && q.answer == answer
    ensures ToggleAnswered(l, id, answer) == OnAnswered(l, q)
  {
    FindIsFirst(l, id);
  }

  /** The submit update is the update a `question_answered` event for the same answer
      describes. */
  lemma SubmitIsAnsweredEvent(l: seq<View>, q: Question, text: string)
    requires q.status == Answered && q.answer == Some(text)
    ensures SetAnswered(l, q.id, text) == OnAnswered(l, q)
  {
  }

  // ---------------------------------------------------------------------------
  // The component.

  /** The requests the view makes. */
  datatype ApiRequest =
    | FetchQuestions(forLecture: nat)
    | SetImportance(importanceOf: QuestionId, isIMP: bool)
    | SetStatus(statusOf: QuestionId, status: string, answer: Option<string>)
    | EndLecture(endLecture: nat)

  /** What the view's socket delivers to it. */
  datatype Incoming =
    | Connected
    | Disconnected
    /** The `reconnect` listener's event. Version 3 and later of the Socket.IO client
        emit `reconnect` on the connection manager, not on the socket, so this listener
        never runs there: a reconnection arrives as `Connected`, which rejoins the
        room but neither clears the connection error nor refetches. */
    | Reconnected(refetch: Option<seq<Payload>>)
    | Created(payload: Payload)
    | AnsweredEvent(answered: Question)
    | StarredEvent(starredId: QuestionId, starred: bool)
    | DeletedEvent(deletedId: QuestionId)
    | UpdatedEvent(updated: Question)
    | EndedEvent(ended: nat)

  class LiveClass {
    const lectureId: Option<nat>
    var questions: seq<View>
    /** Ids with a star or status request in flight. */
    var updating: set<QuestionId>
    var isLoading: bool
    var error: Option<string>
    var isClassEnded: bool
    var isEndingClass: bool
    var showEndClassDialog: bool
    var showAnswerModal: bool
    var selectedQuestion: Option<View>
    var answerText: string
    var isSubmittingAnswer: bool
    /** Every request made so far, oldest first. */
    var requests: seq<ApiRequest>
    /** Every socket event emitted so far, oldest first; the view has a socket exactly
        when it has a lecture id. */
    var emitted: seq<ClientEvent>

    constructor (lectureId: Option<nat>)
      ensures this.lectureId == lectureId
      ensures questions == [] && updating == {} && isLoading && error.None?
      ensures !isClassEnded && !isEndingClass && !showEndClassDialog
      ensures !showAnswerModal && selectedQuestion.None? && answerText == "" && !isSubmittingAnswer
      ensures requests == [] && emitted == []
    {
      this.lectureId := lectureId;
      questions := [];
      updating := {};
      isLoading := true;
      error := None;
      isClassEnded := false;
      isEndingClass := false;
      showEndClassDialog := false;
      showAnswerModal := false;
      selectedQuestion := None;
      answerText := "";
      isSubmittingAnswer := false;
      requests := [];
      emitted := [];
    }

    /** fetchQuestions: without a lecture id only the error (and, in the foreground,
        the loading flag) is set; otherwise a successful fetch replaces the list
        wholesale and a failed one keeps it. A background fetch leaves the loading
        flag alone and reports no failure. */
    method Fetch(background: bool, result: Option<seq<Payload>>)
      modifies this
      ensures unchanged(this`updating, this`isClassEnded, this`isEndingClass, this`showEndClassDialog)
      ensures unchanged(this`showAnswerModal, this`selectedQuestion, this`answerText, this`isSubmittingAnswer)
      ensures unchanged(this`emitted)
      ensures isLoading == if background then old(isLoading) else false
      ensures !HasId(lectureId) ==>
        error == Some(NoLectureId) && questions == old(questions) && requests == old(requests)
      ensures HasId(lectureId) ==>
        && questions == (if result.Some? then Transform(result.value) else old(questions))
        && error == (if result.None? && !background then Some(LoadFailed) else None)
        && requests == old(requests) + [FetchQuestions(lectureId.value)]
    {
      if !HasId(lectureId) {
        error := Some(NoLectureId);
        if !background {
          isLoading := false;
        }
        return;
      }
      if !background {
        isLoading := true;
      }
      error := None;
      requests := requests + [FetchQuestions(lectureId.value)];
      if result.Some? {
        questions := Transform(result.value);
      } else if !background {
        error := Some(LoadFailed);
      }
      if !background {
        isLoading := false;
      }
    }

    /** handleStarQuestion: a no-op for a busy or unlisted id; otherwise one request,
        and only when it succeeds the local toggle and the notice. The id is busy only
        while the request runs. */
    method StarQuestion(id: QuestionId, ok: bool)
      modifies this
      ensures unchanged(this`isLoading, this`error, this`isClassEnded, this`isEndingClass, this`showEndClassDialog)
      ensures unchanged(this`showAnswerModal, this`selectedQuestion, this`answerText, this`isSubmittingAnswer)
      ensures updating == old(updating)
      ensures id in old(updating) || !Has(old(questions), id) ==>
        questions == old(questions) && requests == old(requests) && emitted == old(emitted)
      ensures id !in old(updating) && Has(old(questions), id) ==>
        var starred := !Find(old(questions), id).value.isStarred;
        && questions == (if ok then ToggleStarred(old(questions), id) else old(questions))
        && requests == old(requests) + [SetImportance(id, starred)]
        && emitted == (if ok && HasId(lectureId) then old(emitted) + [QuestionStarred(id, starred)] else old(emitted))
    {
      if id in updating {
        return;
      }
      var question := Find(questions, id);
      if question.None? {
        return;
      }
      var starred := !question.value.isStarred;
      updating := updating + {id};
      requests := requests + [SetImportance(id, starred)];
      if ok {
        questions := ToggleStarred(questions, id);
        if HasId(lectureId) {
          emitted := emitted + [QuestionStarred(id, starred)];
        }
      }
      updating := updating - {id};
      assert updating == old(updating);
    }

    /** handleMarkAnswered: like the star handler, flipping the answered flag; marking
        answered sends the default answer, marking unanswered sends null. */
    method MarkAnswered(id: QuestionId, ok: bool)
      modifies this
      ensures unchanged(this`isLoading, this`error, this`isClassEnded, this`isEndingClass, this`showEndClassDialog)
      ensures unchanged(this`showAnswerModal, this`selectedQuestion, this`answerText, this`isSubmittingAnswer)
      ensures updating == old(updating)
      ensures id in old(updating) || !Has(old(questions), id) ==>
        questions == old(questions) && requests == old(requests) && emitted == old(emitted)
      ensures id !in old(updating) && Has(old(questions), id) ==>
        var wasAnswered := Find(old(questions), id).value.isAnswered;
        var status := if wasAnswered then "unanswered" else "answered";
        var answer := if wasAnswered then None else Some(DefaultAnswer);
        && questions == (if ok then ToggleAnswered(old(questions), id, answer) else old(questions))
        && requests == old(requests) + [SetStatus(id, status, answer)]
        && emitted == (if ok && HasId(lectureId) then old(emitted) + [QuestionAnsweredNotice(id, status, answer)]
                       else old(emitted))
    {
      if id in updating {
        return;
      }
      var question := Find(questions, id);
      if question.None? {
        return;
      }
      updating := updating + {id};
      var status := if question.value.isAnswered then "unanswered" else "answered";
      var answer := if question.value.isAnswered then None else Some(DefaultAnswer);
      requests := requests + [SetStatus(id, status, answer)];
      if ok {
        questions := ToggleAnswered(questions, id, answer);
        if HasId(lectureId) {
          emitted := emitted + [QuestionAnsweredNotice(id, status, answer)];
        }
      }
      updating := updating - {id};
      assert updating == old(updating);
    }

    /** handleQuestionClick: opens the answer dialog, pre-filled with the card's answer. */
    method OpenAnswer(v: View)
      modifies this
      ensures unchanged(this`questions, this`updating, this`requests, this`emitted, this`isSubmittingAnswer)
      ensures unchanged(this`isLoading, this`error, this`isClassEnded, this`isEndingClass, this`showEndClassDialog)
      ensures selectedQuestion == Some(v) && answerText == OrElse(v.answer, "") && showAnswerModal
    {
      selectedQuestion := Some(v);
      answerText := OrElse(v.answer, "");
      showAnswerModal := true;
    }

    /** handleSubmitAnswer: a no-op without a selected card or with a blank answer;
        otherwise one request with the trimmed text, and on success the local update,
        the notice and a closed, cleared dialog. The busy set is not consulted. */
    method SubmitAnswer(ok: bool)
      modifies this
      ensures unchanged(this`updating, this`isLoading, this`error, this`isClassEnded, this`isEndingClass)
      ensures unchanged(this`showEndClassDialog)
      ensures old(selectedQuestion).None? || Trim(old(answerText)) == "" ==> unchanged(this)
      ensures old(selectedQuestion).Some? && Trim(old(answerText)) != "" ==>
        var id := old(selectedQuestion).value.id;
        var text := Trim(old(answerText));
        && requests == old(requests) + [SetStatus(id, "answered", Some(text))]
        && !isSubmittingAnswer
        && (ok ==>
          && questions == SetAnswered(old(questions), id, text)
          && emitted == (if HasId(lectureId) then old(emitted) + [QuestionAnsweredNotice(id, "answered", Some(text))]
                         else old(emitted))
          && !showAnswerModal && selectedQuestion.None? && answerText == "")
        && (!ok ==>
          && questions == old(questions) && emitted == old(emitted)
          && showAnswerModal == old(showAnswerModal) && selectedQuestion == old(selectedQuestion)
          && answerText == old(answerText))
    {
      var text := Trim(answerText);
      if selectedQuestion.None? || text == "" {
        return;
      }
      var id := selectedQuestion.value.id;
      isSubmittingAnswer := true;
      requests := requests + [SetStatus(id, "answered", Some(text))];
      if ok {
        questions := SetAnswered(questions, id, text);
        if HasId(lectureId) {
          emitted := emitted + [QuestionAnsweredNotice(id, "answered", Some(text))];
        }
        showAnswerModal := false;
        selectedQuestion := None;
        answerText := "";
      }
      isSubmittingAnswer := false;
    }

    /** handleEndClass: without a lecture id nothing happens; otherwise the lecture is
        marked completed, and on success the notice is emitted and the class is over,
        while on failure the ending flag is reset. */
    method EndClass(ok: bool)
      modifies this
      ensures unchanged(this`questions, this`updating, this`isLoading, this`error)
      ensures unchanged(this`showAnswerModal, this`selectedQuestion, this`answerText, this`isSubmittingAnswer)
      ensures !HasId(lectureId) ==> unchanged(this)
      ensures HasId(lectureId) ==>
        && !showEndClassDialog
        && requests == old(requests) + [EndLecture(lectureId.value)]
        && isEndingClass == ok
        && isClassEnded == (old(isClassEnded) || ok)
        && emitted == (if ok then old(emitted) + [ClassEnded(lectureId.value)] else old(emitted))
    {
      if !HasId(lectureId) {
        return;
      }
      isEndingClass := true;
      showEndClassDialog := false;
      requests := requests + [EndLecture(lectureId.value)];
      if ok {
        emitted := emitted + [ClassEnded(lectureId.value)];
        isClassEnded := true;
      } else {
        isEndingClass := false;
      }
    }

    /** The socket listeners. `Connected` also stands for a reconnection, which leaves
        the connection error in place. */
    method OnEvent(ev: Incoming)
      requires HasId(lectureId)
      modifies this
      ensures unchanged(this`updating, this`isEndingClass, this`showEndClassDialog, this`isLoading)
      ensures unchanged(this`showAnswerModal, this`selectedQuestion, this`answerText, this`isSubmittingAnswer)
      ensures !ev.Reconnected? ==> requests == old(requests)
      ensures !ev.Connected? ==> emitted == old(emitted)
      ensures !ev.EndedEvent? ==> isClassEnded == old(isClassEnded)
      ensures !ev.Disconnected? && !ev.Reconnected? ==> error == old(error)
      ensures ev.Connected? ==> questions == old(questions) && emitted == old(emitted) + [JoinLecture(lectureId)]
      ensures ev.Disconnected? ==> questions == old(questions) && error == Some(ConnectionLost)
      ensures ev.Reconnected? ==>
        && questions == (if ev.refetch.Some? then Transform(ev.refetch.value) else old(questions))
        && error.None?
        && requests == old(requests) + [FetchQuestions(lectureId.value)]
      ensures ev.Created? ==> questions == OnCreated(old(questions), ev.payload)
      ensures ev.AnsweredEvent? ==> questions == OnAnswered(old(questions), ev.answered)
      ensures ev.StarredEvent? ==> questions == OnStarred(old(questions), ev.starredId, ev.starred)
      ensures ev.DeletedEvent? ==> questions == OnDeleted(old(questions), ev.deletedId)
      ensures ev.UpdatedEvent? ==> questions == OnUpdated(old(questions), ev.updated)
      ensures ev.EndedEvent? ==>
        questions == old(questions) && isClassEnded == (old(isClassEnded) || Some(ev.ended) == lectureId)
    {
      match ev
      case Connected =>
        emitted := emitted + [JoinLecture(lectureId)];
      case Disconnected =>
        error := Some(ConnectionLost);
      case Reconnected(result) =>
        error := None;
        Fetch(true, result);
      case Created(p) =>
        questions := OnCreated(questions, p);
      case AnsweredEvent(q) =>
        questions := OnAnswered(questions, q);
      case StarredEvent(id, starred) =>
        questions := OnStarred(questions, id, starred);
      case DeletedEvent(id) =>
        questions := OnDeleted(questions, id);
      case UpdatedEvent(q) =>
        questions := OnUpdated(questions, q);
      case EndedEvent(l) =>
        if Some(l) == lectureId {
          isClassEnded := true;
        }
    }
  }
}
