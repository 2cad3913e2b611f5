/** The Socket.IO events exchanged between the live-class clients and the server. */
module Protocol {
  import opened Basics
  import opened QuestionModel

  type SocketId = nat

  /** Events a client emits. The first four have server handlers; the last three are
      emitted by the teacher's view after a successful request. */
  datatype ClientEvent =
    | JoinLecture(lectureId: Option<nat>)
    | LeaveLecture(lectureId: Option<nat>)
    | AskQuestion(question: Option<string>, lectureId: Option<nat>, studentId: Option<UserId>, isIMP: Option<bool>)
    | AnswerQuestion(questionId: Option<QuestionId>, answer: Option<string>, lectureId: Option<nat>)
    | ClassEnded(endedLecture: nat)
    | QuestionStarred(starredId: QuestionId, starred: bool)
    | QuestionAnsweredNotice(noticeId: QuestionId, noticeStatus: string, noticeAnswer: Option<string>)

  /** Events the server emits. */
  datatype ServerEvent =
    | QuestionCreated(created: Question)
    | QuestionAnswered(answered: Question)
    | QuestionError(questionError: string)
    | AnswerError(answerError: string)

  /** One emission: the sockets it reaches and the event. */
  datatype Delivery = Delivery(to: set<SocketId>, event: ServerEvent)
}
