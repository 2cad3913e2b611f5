# Live classroom Q&A — a Dafny model

The system lets a teacher schedule a class (a *lecture*) and run it live. Students ask short
text questions during the class. The teacher stars them, marks them answered or answers them
in writing, and everyone sees the changes through Socket.IO rooms keyed by lecture id.

This project models the core of that system:

- **The lecture controller and the Lecture document** (`lecture_model.dfy`, `lecture_store.dfy`).
  The store is a class holding the documents keyed by id. It has five handlers: create,
  change status, edit, list and delete. Each handler checks in the same order as the code and
  replies with the same status code and error text.
- **The question controller's HTTP handlers** (`question_model.dfy`, `question_store.dfy`).
  - Create, with its duplicate check: the text is regex-escaped and matched with `^…$` and the
    `i` flag, where `$` also matches before a final line feed, as in the database's PCRE engine.
  - Status update, soft delete (clear), the generic patch, and listing.
  - The Question document, with its invariant that an answer time exists exactly for an
    answered question.
- **The question controller's Socket.IO handlers** (`protocol.dfy`, `socket_server.dfy`).
  - A server class holding the connected sockets, the room memberships and the log of
    emissions.
  - Joining and leaving rooms, `ask_question` and `answer_question`.
  - These write to the same question store as the HTTP handlers.
- **The teacher's live-class view** (`client_cache.dfy`, `live_view.dfy`).
  - `getCookie`, proved against a specification of the first matching segment.
  - The fetch transform and the socket-event reducers as functions over the card list.
  - Lemmas about duplicate deliveries, deletion and absent ids.
  - The two display sections (starred first, then newest first), proved to partition the
    list.
  - The component as a class whose handlers update its fields.
- **The sidebar** (`sidebar.dfy`): the avatar initials, and the change-password form's
  validation, submission and reset.
- **Shared modules.**
  - `basics.dfy` holds the JavaScript value rules the handlers rely on: truthiness, `||`,
    `split`, `trim`, and ASCII case.
  - `sorting.dfy` holds a descending sort and the filtered, newest-first listing of a
    store.

Modelling conventions:

- The clock, the database, the network and the lecture's scheduled start (`new Date(date T time)`)
  are parameters: `now`, `startAt`, and whether a request or store write succeeds (`ok`, `stored`,
  `result`, `outcome`).
- Each handler runs as one atomic step. An asynchronous handler's request outcome is therefore
  a parameter, and the view's set of ids with a request in flight is empty again when the step
  ends.
- Ids are natural numbers handed out in increasing order.
- A JSON field that may be absent is an `Option`. A field that may also be sent or stored as `null` is an
  `Option<Option<…>>`: `None` is absent and `Some(None)` is `null`.

## Where the code departs from the intended design

The model follows the code in each of these cases:

- **Duplicate pending lecture.** Creating a second pending lecture with the same teacher, topic,
  subject, date and time is refused with status 400, not with a conflict status.
- **Status moves are not forward-only.** The status handler refuses only three things: moves out
  of `completed`/`cancelled`, and a cancellation at or after the start. An open lecture may
  therefore go back to `pending`, or go from `pending` straight to `completed`
  (`MovesAreNotForwardOnly`).
- **No duration.** The Lecture schema has no duration field. The create handler requires a
  non-zero `duration`, but it is never stored, and an edit's `duration` is dropped.
- **Editing is not re-checked.** An edit is checked only against the stored status and start.
  It can move the start into the past, or create a second pending twin.
- **`ask_question` skips the create checks.** It checks no role, no lecture and no duplicate.
  It trusts the `studentId` it is sent.
- **No broadcasts from the HTTP handlers.** They broadcast nothing. Only the two socket handlers
  emit, so changes made over HTTP are broadcast only if a client announces them itself.
- **Client notices go nowhere.** The events the teacher's view emits after its own changes
  (`question_starred`, `question_answered`, `class_ended`) have no handler on the server, so
  they reach nobody. The view's listeners for `question_starred`, `question_deleted`,
  `question_updated` and `class_ended` are modelled even though the server never sends them.
- **The generic patch can break the answer-time invariant.** It can set `status` without
  `answeredAt` (`PatchCanBreakAnsweredAt`).
- **The `reconnect` listener never runs.** The view imports the named export `io`, which the
  Socket.IO client has from version 3 on. From that version, `reconnect` is emitted on the
  connection manager, not on the socket. The listener registered on the socket therefore never
  runs. A reconnection arrives as another `connect`: the view rejoins the room, but the
  "Connection lost. Reconnecting..." error stays and no refetch happens.
- **Refresh and Retry fetch in the background.** Both buttons pass `fetchQuestions` itself as
  the click handler, so the click event arrives as `isBackground`, which is truthy. A retry
  therefore shows no spinner, clears the error first, and sets no error if it fails again:
  this is `LiveView.LiveClass.Fetch` with `background` true.
- **The submit handler ignores the busy set.** Submitting an answer does not consult or mark the
  view's set of ids with requests in flight.

## Model

| member | source | states |
|---|---|---|
| Basics.Split | frontend/src/components/LiveClassView.jsx:27 | Splitting at a one-character separator gives at least one piece. No piece holds the separator, and joining the pieces gives back the input. |
| Basics.SplitJoin | frontend/src/components/LiveClassView.jsx:27 | Splitting undoes joining when no piece holds the separator. |
| Basics.Trim | frontend/src/components/LiveClassView.jsx:432 | `trim` gives "" exactly for an all-white-space text; otherwise its result neither starts nor ends with white space. |
| Basics.TrimStripsEnds | frontend/src/components/LiveClassView.jsx:432 | The trimmed text is a slice of the input with only white space before and after it. Together with the contract of `Trim`, this says exactly the leading and trailing white space is removed. |
| Basics.TrimIdempotent | frontend/src/components/LiveClassView.jsx:441 | Trimming a trimmed answer changes nothing. |
| Basics.Upper | frontend/src/components/Sidebar.jsx:160 | Upper-casing keeps the length and maps every character through the ASCII upper-case map. |
| Sorting.SortDesc | frontend/src/components/LiveClassView.jsx:607-613 | The result holds the same elements, as a multiset, with keys in non-increasing order. |
| Sorting.SortDescIsStable | frontend/src/components/LiveClassView.jsx:607-613 | The sort is stable: the elements with any given key appear in the result in their input order, as `Array.prototype.sort` keeps them. |
| Sorting.Listing | backend/src/controller/lectureController.js:114-116 | A filtered, newest-first store listing returns exactly the kept records, each as stored under its id and each once, in non-increasing key order. |
| LectureModel.ParseStatus | backend/src/models/lectureModel.js:11 | A status is accepted exactly when it is one of the four enumerated spellings, and it reads back to that spelling. |
| LectureModel.Construct | backend/src/models/lectureModel.js:3-12 | A document is built exactly when topic and subject are given. It then satisfies the schema, copies the fields, defaults the status to pending, and stamps both timestamps with the save time. |
| LectureStore.ClosedIsAbsorbing | backend/src/controller/lectureController.js:42-45 | No move is allowed out of completed or cancelled. |
| LectureStore.MovesAreNotForwardOnly | backend/src/controller/lectureController.js:34-53 | Live→pending and pending→completed are allowed. Cancelling is allowed exactly before the start. |
| LectureStore.TouchedStamps | backend/src/models/lectureModel.js:12 | A save that changes no path keeps the old `updatedAt`, whatever stamp the new document carries. A save that changes a path stamps the save time. With a clock that does not go back, `updatedAt` never decreases and never passes the save time. |
| LectureStore.NullOverAbsentIsAChange | backend/src/models/lectureModel.js:6 | Example: writing null over an absent description is a change and stamps the save time, while writing null over a stored null is not. |
| LectureStore.LectureStore.CreateLecture | backend/src/controller/lectureController.js:4-27 | Missing or falsy fields give 400. A pending twin of the same teacher gives 400. Otherwise one new pending document is stored under a fresh id with 201, and the store stays well formed. Success holds exactly when neither check fails, and a failure changes nothing. |
| LectureStore.LectureStore.ChangeLectureStatus | backend/src/controller/lectureController.js:29-60 | The checks come in order: 400 bad status, 404, 403 not the owner, 400 already closed, 400 cancelling too late. Success holds exactly for an owner's allowed move. Only the status changes, and `updatedAt` changes only when the status does. |
| LectureStore.LectureStore.UpdateLecture | backend/src/controller/lectureController.js:62-92 | 404, 403, 400 not pending, 400 already started. Topic or subject sent as null or "" gives 500. Otherwise exactly the sent fields are replaced, a description, date or time sent as null is stored as null (distinct from absent), the duration is dropped, and every other field is kept. `updatedAt` is the result of `Touched`, so it moves exactly when a stored path changes. |
| LectureStore.LectureStore.DeleteLecture | backend/src/controller/lectureController.js:129-150 | 404, 403, then the owner's lecture is removed whatever its status and its id is returned. A failure changes nothing. |
| LectureStore.LectureStore.ListLectures | backend/src/controller/lectureController.js:95-127 | A teacher gets exactly their own lectures. A student gets all lectures, or those of the queried teacher. Any other role gets all. Each lecture appears once, newest first. |
| QuestionModel.ParseQStatus | backend/src/controller/questionController.js:64-67 | Only "answered" and "unanswered" are accepted, and "answered" reads as Answered. |
| QuestionModel.NewQuestion | backend/src/controller/questionController.js:38-43 | A new question is unanswered, has no answer, is valid, is stamped now and keeps the answer-time invariant. It is important exactly when `isIMP` is true. |
| QuestionModel.Escape | backend/src/controller/questionController.js:24 | Escaping never shortens the text and keeps the empty text empty. |
| QuestionModel.LiteralOfEscape | backend/src/controller/questionController.js:24-28 | Reading an escaped text back as a regular-expression literal gives the original text. |
| QuestionModel.EscapedMatch | backend/src/controller/questionController.js:24-29 | The anchored case-insensitive match of the escaped text holds exactly for texts equal to it up to case, or equal to it plus a final line feed (PCRE's `$` also matches before a final newline). |
| QuestionModel.DollarMatchesBeforeFinalNewline | backend/src/controller/questionController.js:28 | Example: "hello" matches a stored "Hello\n" but not "Hello\n\n". |
| QuestionModel.UnescapedDotIsNotLiteral | backend/src/controller/questionController.js:24 | Example: without escaping, "a.b" is not a literal pattern; escaped, it reads back as "a.b". |
| QuestionModel.DuplicateIsCaseInsensitiveEquality | backend/src/controller/questionController.js:26-35 | The duplicate check holds exactly when some question of the same lecture, whatever its status or validity, equals the text up to case, or equals the text plus a final line feed up to case. |
| QuestionStore.QuestionStore.Add | backend/src/controller/questionController.js:200-205 | `Question.create` stores one new question with the defaults under a fresh id. |
| QuestionStore.QuestionStore.CreateQuestion | backend/src/controller/questionController.js:6-53 | 403 for a non-student, 400 for a missing text or lecture, 404 for an unknown lecture, 409 for a duplicate text. Success holds exactly when none applies, and then one new question is stored with 201. |
| QuestionStore.QuestionStore.UpdateQuestionStatus | backend/src/controller/questionController.js:55-96 | 400 missing status, 400 bad status, 404. On success the status is set and the answer time is present exactly for answered. The answer is replaced only when sent (null included), and nothing else changes. |
| QuestionStore.QuestionStore.ClearQuestion | backend/src/controller/questionController.js:98-122 | 404 when absent. Otherwise only `isValid` is cleared. |
| QuestionStore.QuestionStore.UpdateQuestion | backend/src/controller/questionController.js:151-166 | 404 when absent. Otherwise the stored question becomes the patched one and no other question changes. |
| QuestionStore.QuestionStore.Answer | backend/src/controller/questionController.js:229-235 | The socket update sets the answer, the answered status and the answer time, keeps the invariant, and yields None for an absent id. |
| QuestionStore.QuestionStore.GetQuestions | backend/src/controller/questionController.js:125-149 | 400 exactly when neither filter is given. Otherwise exactly the valid questions matching every given filter, each once, newest first. |
| QuestionStore.Patched | backend/src/controller/questionController.js:153-157 | Every field the body carries (text, author, lecture, answer, status, answer time, importance, validity) takes the sent value. Every absent field, the id and the creation time keep theirs. |
| QuestionStore.PatchIdentityAndIdempotence | backend/src/controller/questionController.js:153-157 | An empty body changes nothing, and applying the same body twice is applying it once. |
| QuestionStore.PatchCanMoveQuestion | backend/src/controller/questionController.js:153-157 | A body carrying another lecture id moves a question out of its old lecture's listing. |
| QuestionStore.PatchCanBreakAnsweredAt | backend/src/controller/questionController.js:153-157 | Patching only the status of an unanswered question to answered leaves it with no answer time. |
| SocketServer.Members | backend/src/controller/questionController.js:212 | A room's members are exactly the sockets joined to that lecture. |
| SocketServer.JoinedRoom | backend/src/controller/questionController.js:174-179 | `join_lecture` adds the socket to exactly that room. A falsy id changes nothing. |
| SocketServer.LeftRoom | backend/src/controller/questionController.js:182-187 | `leave_lecture` removes the socket from exactly that room. A falsy id changes nothing. |
| SocketServer.MembershipIdempotent | backend/src/controller/questionController.js:174-187 | Joining or leaving twice is the same as once. |
| SocketServer.Server.Connect | backend/src/controller/questionController.js:170 | A newly connected socket is in no room, and the rooms hold only connected sockets. |
| SocketServer.Server.Disconnect | backend/src/controller/questionController.js:170-171 | A disconnected socket leaves every room and nothing else changes. |
| SocketServer.Server.JoinLecture | backend/src/controller/questionController.js:174-179 | The rooms become the joined rooms. Nothing is emitted. |
| SocketServer.Server.LeaveLecture | backend/src/controller/questionController.js:182-187 | The rooms become the left rooms. Nothing is emitted. |
| SocketServer.Server.AskQuestion | backend/src/controller/questionController.js:190-217 | Missing data, or a failed write, gives one error to the sender and no store change. Otherwise one new question is stored and one `question_created` goes to exactly the lecture's room. |
| SocketServer.Server.AnswerQuestion | backend/src/controller/questionController.js:220-252 | Missing data, a failed write, or an unknown id each gives one error to the sender. Otherwise the question is answered (keeping the invariant) and one `question_answered` goes to the lecture's room, or to every socket when no lecture id is sent. |
| SocketServer.Server.Receive | backend/src/controller/questionController.js:169-254 | Events without a handler change nothing and emit nothing. Room events only move memberships. Ask and answer emit exactly one event. |
| ClientCache.FetchedCardsAreConsistent | frontend/src/components/LiveClassView.jsx:105-122 | Every fetched card names a student, and shows a non-empty answer exactly when it is answered. |
| ClientCache.FetchKeepsIds | frontend/src/components/LiveClassView.jsx:105-106 | The fetched cards carry the fetched questions' ids in order, so a listing without repeated ids gives cards with unique ids. |
| ClientCache.Transform | frontend/src/components/LiveClassView.jsx:105-122 | One card per fetched question, in order, coloured by position modulo the six palette entries. |
| ClientCache.OnCreated | frontend/src/components/LiveClassView.jsx:162-185 | A known id leaves the list unchanged. Otherwise exactly one card, coloured by the previous length, is put in front of the unchanged list. |
| ClientCache.OnAnswered | frontend/src/components/LiveClassView.jsx:188-199 | Same length. Cards of that id take the status and the raw answer; every other card is unchanged. |
| ClientCache.OnStarred | frontend/src/components/LiveClassView.jsx:202-212 | Same length. Cards of that id take the importance flag; every other card is unchanged. |
| ClientCache.OnUpdated | frontend/src/components/LiveClassView.jsx:221-235 | Same length. Cards of that id take text, status, importance, a truthy answer and validity; the rest of each card is kept. |
| ClientCache.OnDeleted | frontend/src/components/LiveClassView.jsx:215-218 | Exactly the cards without that id remain, and none with it. |
| ClientCache.CreatedIdempotent | frontend/src/components/LiveClassView.jsx:164-166 | Delivering the same `question_created` twice is the same as once. |
| ClientCache.CreatedKeepsIdsUnique | frontend/src/components/LiveClassView.jsx:164-183 | The created reducer never produces two cards with one id. |
| ClientCache.MergesKeepIds | frontend/src/components/LiveClassView.jsx:188-235 | The answered, starred and updated reducers keep the sequence of ids. |
| ClientCache.MergeOfAbsentIdIsNoOp | frontend/src/components/LiveClassView.jsx:188-235 | A merge event for an unlisted id changes nothing. |
| ClientCache.DeleteAbsentIsNoOp | frontend/src/components/LiveClassView.jsx:215-218 | Deleting an unlisted id changes nothing. |
| ClientCache.DeleteDistributes | frontend/src/components/LiveClassView.jsx:217 | Deletion distributes over concatenation, so the remaining cards keep their order. |
| ClientCache.DeleteUndoesCreate | frontend/src/components/LiveClassView.jsx:162-218 | Deleting a freshly created question restores the previous list. |
| ClientCache.CreatedAfterFetch | frontend/src/components/LiveClassView.jsx:105-185 | A `question_created` for a question already fetched changes nothing. |
| ClientCache.WithAnswered | frontend/src/components/LiveClassView.jsx:606 | The filter keeps exactly the cards with the given answered flag. |
| ClientCache.Section | frontend/src/components/LiveClassView.jsx:605-613 | A section holds exactly the filtered cards, as a multiset. Starred cards come first, then newest first. The answered section at lines 765-772 is the same with the flag set. |
| ClientCache.SplitPartitions | frontend/src/components/LiveClassView.jsx:606 | The two filters together hold every card exactly as often as the list does. |
| ClientCache.SectionsPartition | frontend/src/components/LiveClassView.jsx:594-613 | The unanswered and answered sections together show every card exactly once per occurrence. |
| LiveView.DropSpaces | frontend/src/components/LiveClassView.jsx:30 | After stripping, the segment does not start with a space and is not longer. |
| LiveView.DropSpacesIsSuffix | frontend/src/components/LiveClassView.jsx:30 | What the loop strips is exactly a run of leading spaces: the result is the suffix of the segment that follows that run. |
| LiveView.FirstCookieFinds | frontend/src/components/LiveClassView.jsx:28-33 | The result is the value of the first segment that starts with `name=` after its leading spaces. There is none exactly when no segment does. |
| LiveView.GetCookie | frontend/src/components/LiveClassView.jsx:25-34 | The loop returns the cookie value specified by the first matching segment. |
| LiveView.CookieOfFirstPair | frontend/src/components/LiveClassView.jsx:25-34 | A cookie string starting with `name=value;` yields `value`. |
| LiveView.CookieSkipsSegment | frontend/src/components/LiveClassView.jsx:28-32 | A leading segment that does not carry the name is passed over. |
| LiveView.Find | frontend/src/components/LiveClassView.jsx:334 | `find` fails exactly when no card has the id; otherwise it returns a listed card with that id. |
| LiveView.FindIsFirst | frontend/src/components/LiveClassView.jsx:334 | The card found precedes every other card with that id. |
| LiveView.ToggleStarred | frontend/src/components/LiveClassView.jsx:349-353 | Cards of that id flip their star; every other card is unchanged. |
| LiveView.ToggleAnswered | frontend/src/components/LiveClassView.jsx:395-405 | Cards of that id flip their answered flag and take the sent answer; every other card is unchanged. |
| LiveView.SetAnswered | frontend/src/components/LiveClassView.jsx:446-456 | Cards of that id become answered with the submitted text; every other card is unchanged. |
| LiveView.ToggleStarredTwice | frontend/src/components/LiveClassView.jsx:349-353 | Starring twice restores the list. |
| LiveView.LocalStarIsStarEvent | frontend/src/components/LiveClassView.jsx:349-357 | With unique ids, the local star toggle equals the `question_starred` update carrying the flag that was sent. |
| LiveView.LocalMarkIsAnsweredEvent | frontend/src/components/LiveClassView.jsx:395-405 | The local mark-answered update equals the `question_answered` merge of an event that flips the card's answered status and carries the same answer, when card ids are unique. |
| LiveView.SubmitIsAnsweredEvent | frontend/src/components/LiveClassView.jsx:446-460 | The submit update equals the `question_answered` update for the same answer. |
| LiveView.LiveClass.Fetch | frontend/src/components/LiveClassView.jsx:90-129 | Without a lecture id only the error (and the loading flag in the foreground) is set. Otherwise one request is sent. A success replaces the list by the transform; a failure keeps it and reports only in the foreground. |
| LiveView.LiveClass.StarQuestion | frontend/src/components/LiveClassView.jsx:331-371 | A busy or unlisted id does nothing. Otherwise one request with the flipped flag is sent, and only on success the local toggle and the notice follow. The busy set is restored. |
| LiveView.LiveClass.MarkAnswered | frontend/src/components/LiveClassView.jsx:373-423 | As for the star, with the flipped status. Marking answered sends the default answer; marking unanswered sends null. |
| LiveView.LiveClass.OpenAnswer | frontend/src/components/LiveClassView.jsx:425-429 | Opens the dialog on that card, pre-filled with its answer or "". |
| LiveView.LiveClass.SubmitAnswer | frontend/src/components/LiveClassView.jsx:431-472 | No card selected, or a blank answer: nothing changes. Otherwise one request with the trimmed text is sent. On success the local update and the notice follow and the dialog is closed and cleared; on failure the dialog is kept. |
| LiveView.LiveClass.EndClass | frontend/src/components/LiveClassView.jsx:270-329 | Without a lecture id nothing changes. Otherwise the completed status is requested and the dialog closed. On success the class is over and the notice emitted; on failure the ending flag is reset. |
| LiveView.LiveClass.OnEvent | frontend/src/components/LiveClassView.jsx:144-256 | Connect joins the room and keeps the error; this is also what a reconnection delivers. Disconnect sets the connection error. The `reconnect` listener would clear it and refetch in the background, but it is never called (see above). Each question event applies its reducer. `class_ended` ends the class only for this lecture. |
| Sidebar.FirstChars | frontend/src/components/Sidebar.jsx:160 | At most one character per word. |
| Sidebar.Prefix | frontend/src/components/Sidebar.jsx:160 | `slice(0, n)` is the first `min(n, length)` characters. |
| Sidebar.Initials | frontend/src/components/Sidebar.jsx:159-161 | An empty name gives "U". The initials are at most two characters. |
| Sidebar.FirstCharsOfWords | frontend/src/components/Sidebar.jsx:160 | Splitting at spaces and taking first characters picks exactly the characters that start a word. |
| Sidebar.InitialsAreWordStarts | frontend/src/components/Sidebar.jsx:159-161 | A non-empty name's initials are its first two word-starting characters, upper-cased. |
| Sidebar.InitialsOfBlankName | frontend/src/components/Sidebar.jsx:159-161 | Example: a name made only of spaces is truthy yet yields empty initials. |
| Sidebar.ValidationError | frontend/src/components/Sidebar.jsx:110-119 | Valid exactly when all three fields are filled, the new ones agree and are at least 6 long. Each failure gets its message, in the code's order. |
| Sidebar.PasswordForm.Reset | frontend/src/components/Sidebar.jsx:102-105 | Empties the form and the messages, stops loading and closes the form. |
| Sidebar.PasswordForm.ToggleForm | frontend/src/components/Sidebar.jsx:235 | Flips whether the form is open and changes nothing else. |
| Sidebar.PasswordForm.Enter | frontend/src/components/Sidebar.jsx:245-264 | Typing replaces exactly one field. |
| Sidebar.PasswordForm.Submit | frontend/src/components/Sidebar.jsx:109-140 | A validation failure shows its message and sends nothing. Otherwise one request with the current and new password is sent. Acceptance clears the form and shows success. A refusal shows the server's message or the fallback, and a thrown request shows the error; both keep the form. Loading always ends. |

## Left out

- **Services outside the model.** Network transport, HTTP routing and JSON encoding, the
  database, and Socket.IO's delivery machinery are left out. The store operations are updates
  to maps, and an emission is an entry in a log of deliveries.
- **Populated references.** A populated reference is modelled only through what the client
  reads from it: the student's name and the lecture reference in `ClientCache.Payload`. The
  populate calls themselves are not modelled.
- **Internal-error paths.** The `catch` branches that reply 500 on a database or cast error
  (an ill-formed id, for instance) are not modelled. The exceptions are the lecture edit that
  blanks a required field, and the socket handlers' catch branches, whose failure is the
  `stored` parameter. That parameter makes the whole `ask_question` step fail or succeed, so
  a create that stores the question followed by a populate that throws (the question is
  stored, `question_error` goes to the sender and nothing is broadcast) is not modelled.
- **Dates and times.** Lecture `date` and `time` are kept as text (absent, null or a text). The scheduled start they
  denote is the parameter `startAt`. Invalid dates, which JavaScript turns into `NaN` and so
  never compare as past, are not modelled.
- **Files that are not part of this model.** `backend/src/models/questionModel.js` and the
  user model are not part of this model. The Question fields and defaults are those the
  handlers rely on. The schema validators that `runValidators` would apply to a generic
  patch are not modelled.
- QuestionStore.Patched: the body may carry every stored field except the id and the creation
  time. The id is immutable, and the creation time is assumed immutable under the schema's
  timestamps. A body that tries to change either is not modelled. Fields outside the schema
  are dropped, and casting errors are 500 paths that are not modelled.
- **Other modules.** `backend/src/controller/authController.js` and the authentication
  middleware are not part of this model. The lecture handlers that sit behind
  `authorize('teacher')` take the teacher role as a precondition.
- **View-only behaviour.** Rendering, alerts, console logging, the one-second `setTimeout`
  that hands the ended-class summary to the parent, the `localStorage` token fallback and the
  Sidebar's own cookie reading (a regular expression and `decodeURIComponent`) are left out.
- **Missing `questions` field.** The `response.questions?.map(...) || []` fallback is not
  modelled: a successful fetch yields the question list.
- **Concurrency.** Every handler is one atomic step. Interleavings of in-flight requests,
  lost updates and the window during which an id is busy are not modelled, and neither is
  the visible "submitting" state during the request.
- **Duplicate-check races.** The duplicate checks of lecture and question creation run
  against the state at the start of the step, so the race between two concurrent creates is
  not modelled.
- Basics.Upper: only ASCII letters are mapped, while `toUpperCase` maps all of Unicode.
- Basics.EqualIgnoringCase: only ASCII letters are folded, while the database's regular
  expressions with the `i` flag fold all of Unicode. The duplicate check is exact for ASCII
  text only.
- Sidebar.Initials: characters are Unicode code points, while `w[0]` takes a UTF-16 code
  unit, so names with characters outside the Basic Multilingual Plane are not modelled
  exactly. Upper-casing is ASCII-only, so `|r| <= 2` holds where `toUpperCase` can lengthen
  the text (it maps "ß" to "SS").
- Sidebar.ValidationError: the length check counts code points, while `length` counts
  UTF-16 code units.
- SocketServer.Server.Receive: for the ask and answer events it states only that exactly
  one event is emitted and the rooms are kept. The full effect is the contract of
  `AskQuestion` and `AnswerQuestion`, which it calls.
- SocketServer.Server.Disconnect: removing the socket from every room is Socket.IO's own
  behaviour on disconnect, not code of the controller.
- LiveView.LiveClass.SubmitAnswer: `isSubmittingAnswer` is true only while the request is in
  flight. As a single step it is false before and after, so that flag is not observable here.
- **Stored record.** The Question record's text field is named `text`; the stored document
  calls it `question`.
