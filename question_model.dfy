/** The Question document and the duplicate check of the create handler: the text
    is escaped for use inside `^...$` and matched case-insensitively against the
    questions already stored for the same lecture. */
module QuestionModel {
  import opened Basics

  type QuestionId = nat

  datatype QStatus = Unanswered | Answered

  /** A stored question. `answeredAt` is an opaque instant. */
  datatype Question = Question(
    id: QuestionId,
    text: string,
    studentId: UserId,
    lectureId: nat,
    answer: Option<string>,
    status: QStatus,
    answeredAt: Option<int>,
    isIMP: bool,
    isValid: bool,
    createdAt: int)

  /** The question invariant: an answer time is recorded exactly for answered questions. */
  predicate AnsweredAtAgrees(q: Question) {
    q.answeredAt.Some? <==> q.status == Answered
  }

  /** Reads the status of a status-update request; only the two spellings are accepted. */
  function ParseQStatus(s: Option<string>): (r: Option<QStatus>)
    ensures r.Some? <==> s == Some("answered") || s == Some("unanswered")
    ensures r == Some(Answered) <==> s == Some("answered")
  {
    if s == Some("answered") then Some(Answered)
    else if s == Some("unanswered") then Some(Unanswered)
    else None
  }

  /** `Question.create({ question, studentId, lectureId, isIMP: isIMP || false })`
      with the document's defaults: unanswered, no answer, valid. */
  function NewQuestion(id: QuestionId, text: string, studentId: UserId, lectureId: nat,
                       isIMP: Option<bool>, now: int): (q: Question)
    ensures q.id == id && q.text == text && q.studentId == studentId && q.lectureId == lectureId
    ensures q.status == Unanswered && q.answer.None? && q.isValid && q.createdAt == now
    ensures q.isIMP <==> isIMP == Some(true)
    ensures AnsweredAtAgrees(q)
  {
    Question(id, text, studentId, lectureId, None, Unanswered, None, isIMP == Some(true), true, now)
  }

  // ---------------------------------------------------------------------------
  // Escaping and literal patterns.

  /** The characters the escape prefixes with a backslash. */
  const Special: set<char> := {'.', '*', '+', '?', '^', '$', '{', '}', '(', ')', '|', '[', ']', '\\'}

  /** `text.replace(/[.*+?^${}()|[\]\\]/g, "\\$&")`. */
  function Escape(s: string): (r: string)
    ensures |r| >= |s|
    ensures s == [] <==> r == []
  {
    if s == [] then []
    else (if s[0] in Special then ['\\', s[0]] else [s[0]]) + Escape(s[1..])
  }

  /** Reads a pattern body made only of literal atoms: a character outside `Special`
      stands for itself and a backslash followed by a character of `Special` stands for
      that character. Any other body is not a plain literal (an unescaped
      metacharacter, a lone trailing backslash, or a backslash before an ordinary
      character, which may denote a class or a back-reference), and yields None. */
  function Literal(p: string): (r: Option<string>)
    ensures r.Some? ==> |r.value| <= |p|
    decreases |p|
  {
    if p == [] then Some([])
    else if p[0] == '\\' then
      if |p| >= 2 && p[1] in Special then
        match Literal(p[2..])
        case Some(rest) => Some([p[1]] + rest)
        case None => None
      else None
    else if p[0] in Special then None
    else
      match Literal(p[1..])
      case Some(rest) => Some([p[0]] + rest)
      case None => None
  }

  /** The anchored, case-insensitive regular expression `^p$` with flag `i`, as the
      database's PCRE engine runs it, for a pattern body `p` that is a plain literal:
      the literal equals `t` up to the case of ASCII letters, where `$` also matches
      just before a final line feed of `t`. */
  predicate AnchoredMatch(p: string, t: string) {
    && Literal(p).Some?
    && (EqualIgnoringCase(Literal(p).value, t) || EqualIgnoringCase(Literal(p).value + "\n", t))
  }

  /** Escaping is undone by reading the escaped text back as a literal pattern. */
  lemma {:induction false} LiteralOfEscape(s: string)
    ensures Literal(Escape(s)) == Some(s)
  {
    if s != [] {
      LiteralOfEscape(s[1..]);
      var e := Escape(s);
      if s[0] in Special {
        assert e == ['\\', s[0]] + Escape(s[1..]);
        assert e[2..] == Escape(s[1..]);
      } else {
        assert e == [s[0]] + Escape(s[1..]);
        assert e[1..] == Escape(s[1..]);
      }
      assert [s[0]] + s[1..] == s;
    }
  }

  /** The anchored case-insensitive match of an escaped text is case-insensitive
      equality with that text, or with that text followed by a line feed. */
  lemma EscapedMatch(s: string, t: string)
    ensures AnchoredMatch(Escape(s), t) <==> EqualIgnoringCase(s, t) || EqualIgnoringCase(s + "\n", t)
  {
    LiteralOfEscape(s);
  }

  /** Example: a stored text that differs from the new one by case and a final line
      feed is matched. */
  lemma DollarMatchesBeforeFinalNewline()
    ensures AnchoredMatch(Escape("hello"), "Hello\n")
    ensures !AnchoredMatch(Escape("hello"), "Hello\n\n")
  {
    EscapedMatch("hello", "Hello\n");
    EscapedMatch("hello", "Hello\n\n");
    assert Lower("hello" + "\n") == Lower("Hello\n");
    assert |Lower("hello")| != |Lower("Hello\n\n")|;
    assert |Lower("hello" + "\n")| != |Lower("Hello\n\n")|;
  }

  /** Example: without escaping, a text containing a metacharacter is not a literal
      pattern; escaped, it is. */
  lemma UnescapedDotIsNotLiteral()
    ensures Literal("a.b") == None
    ensures Literal(Escape("a.b")) == Some("a.b")
  {
    LiteralOfEscape("a.b");
  }

  /** The duplicate check of the create handler: some question stored for the same
      lecture, whatever its status or validity, matches the escaped text. */
  predicate IsDuplicate(questions: map<QuestionId, Question>, lectureId: nat, text: string) {
    exists id :: id in questions && questions[id].lectureId == lectureId
      && AnchoredMatch(Escape(text), questions[id].text)
  }

  /** The duplicate check is case-insensitive equality with some question of the
      lecture, or with such a question that carries one extra final line feed. */
  lemma DuplicateIsCaseInsensitiveEquality(questions: map<QuestionId, Question>, lectureId: nat, text: string)
    ensures IsDuplicate(questions, lectureId, text) <==>
      exists id :: id in questions && questions[id].lectureId == lectureId
        && (EqualIgnoringCase(text, questions[id].text) || EqualIgnoringCase(text + "\n", questions[id].text))
  {
    forall id | id in questions {
      EscapedMatch(text, questions[id].text);
    }
  }
}
