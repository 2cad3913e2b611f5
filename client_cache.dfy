/** The teacher view's local list of questions: the records built from fetched or
    pushed questions, the per-event reducers over the previous list, and the two
    display sections. */
module ClientCache {
  import opened Basics
  import opened QuestionModel
  import Sorting

  /** Number of card colours; a card's colour is an index into the palette. */
  const PaletteSize := 6
  const Anonymous := "Anonymous Student"
  const DefaultAnswer := "This question was answered during the live session."

  /** What the client finds in a question's `lectureId`: the populated lecture, a
      reference that populated to null, or a bare id (not populated). */
  datatype LectureRef = Populated(topic: string, subject: string) | Dangling | Unpopulated(lecture: nat)

  /** `{ topic, subject }` of a card; a bare id yields two undefined fields. */
  datatype LectureInfo = LectureInfo(topic: Option<string>, subject: Option<string>)

  /** A question as received: the stored record, the populated student's name (None
      when the student is not populated or has no name), and its lecture reference. */
  datatype Payload = Payload(q: Question, studentName: Option<string>, lecture: LectureRef)

  /** A question card. */
  datatype View = View(
    id: QuestionId,
    text: string,
    studentName: string,
    timestamp: int,
    isAnswered: bool,
    isStarred: bool,
    color: nat,
    answer: Option<string>,
    isValid: bool,
    lectureInfo: Option<LectureInfo>)

  /** `q.lectureId ? { topic: q.lectureId.topic, subject: q.lectureId.subject } : null`. */
  function Info(r: LectureRef): (info: Option<LectureInfo>)
    ensures info.None? <==> r.Dangling?
    ensures r.Populated? ==> info == Some(LectureInfo(Some(r.topic), Some(r.subject)))
    ensures r.Unpopulated? ==> info == Some(LectureInfo(None, None))
  {
    match r
    case Populated(t, s) => Some(LectureInfo(Some(t), Some(s)))
    case Dangling => None
    case Unpopulated(_) => Some(LectureInfo(None, None))
  }

  /** The card built for a payload, with the colour and answer chosen by the caller. */
  function Card(p: Payload, color: nat, answer: Option<string>): (v: View)
    ensures v.id == p.q.id && v.text == p.q.text && v.timestamp == p.q.createdAt && v.isValid == p.q.isValid
    ensures v.studentName == OrElse(p.studentName, Anonymous)
    ensures v.isAnswered <==> p.q.status == Answered
    ensures v.isStarred == p.q.isIMP
    ensures v.color == color && v.answer == answer && v.lectureInfo == Info(p.lecture)
  {
    View(p.q.id, p.q.text, OrElse(p.studentName, Anonymous), p.q.createdAt,
         p.q.status == Answered, p.q.isIMP, color, answer, p.q.isValid, Info(p.lecture))
  }

  /** The answer shown after a fetch: the stored answer or the default text for an
      answered question, null otherwise. */
  function FetchedAnswer(q: Question): (a: Option<string>)
    ensures a.Some? <==> q.status == Answered
    ensures a.Some? && Given(q.answer) ==> a == q.answer
    ensures a.Some? && !Given(q.answer) ==> a == Some(DefaultAnswer)
    ensures a.Some? ==> a.value != ""
  {
    if q.status == Answered then Some(OrElse(q.answer, DefaultAnswer)) else None
  }

  /** The fetch transform: one card per question, in the same order, coloured by position. */
  function Transform(ps: seq<Payload>): (r: seq<View>)
    ensures |r| == |ps|
    ensures forall i :: 0 <= i < |ps| ==>
      r[i] == Card(ps[i], i % PaletteSize, FetchedAnswer(ps[i].q)) && r[i].color < PaletteSize
  {
    seq(|ps|, i requires 0 <= i < |ps| => Card(ps[i], i % PaletteSize, FetchedAnswer(ps[i].q)))
  }

  /** Every fetched card names a student, and shows a non-empty answer exactly when it
      is answered. */
  lemma FetchedCardsAreConsistent(ps: seq<Payload>)
    ensures forall v :: v in Transform(ps) ==>
      && v.studentName != ""
      && (v.isAnswered <==> v.answer.Some?)
      && (v.answer.Some? ==> v.answer.value != "")
  {
  }

  // ---------------------------------------------------------------------------
  // Ids.

  function Ids(l: seq<View>): (ids: seq<QuestionId>)
    ensures |ids| == |l| && forall i :: 0 <= i < |l| ==> ids[i] == l[i].id
  {
    seq(|l|, i requires 0 <= i < |l| => l[i].id)
  }

  /** `prev.some(q => q.id === id)`. */
  predicate Has(l: seq<View>, id: QuestionId) {
    exists i :: 0 <= i < |l| && l[i].id == id
  }

  /** No two cards share an id. */
  predicate UniqueIds(l: seq<View>) {
    forall i, j :: 0 <= i < j < |l| ==> l[i].id != l[j].id
  }

  // ---------------------------------------------------------------------------
  // Reducers.

  /** question_created: unchanged when the id is already listed; otherwise one card is
      put in front, coloured by the previous length, with the answer if it is truthy. */
  function OnCreated(prev: seq<View>, p: Payload): (r: seq<View>)
    ensures Has(prev, p.q.id) ==> r == prev
    ensures !Has(prev, p.q.id) ==>
      && |r| == |prev| + 1 && r[1..] == prev
      && r[0] == Card(p, |prev| % PaletteSize, Truthy(p.q.answer))
  {
    if Has(prev, p.q.id) then prev
    else [Card(p, |prev| % PaletteSize, Truthy(p.q.answer))] + prev
  }

  /** question_answered: the matching card takes the status and the raw answer. */
  function OnAnswered(prev: seq<View>, q: Question): (r: seq<View>)
    ensures |r| == |prev|
    ensures forall i :: 0 <= i < |prev| && prev[i].id != q.id ==> r[i] == prev[i]
    ensures forall i :: 0 <= i < |prev| && prev[i].id == q.id ==>
      r[i] == prev[i].(isAnswered := q.status == Answered, answer := q.answer)
  {
    seq(|prev|, i requires 0 <= i < |prev| =>
      if prev[i].id == q.id then prev[i].(isAnswered := q.status == Answered, answer := q.answer) else prev[i])
  }

  /** question_starred: the matching card takes the importance flag. */
  function OnStarred(prev: seq<View>, id: QuestionId, isIMP: bool): (r: seq<View>)
    ensures |r| == |prev|
    ensures forall i :: 0 <= i < |prev| && prev[i].id != id ==> r[i] == prev[i]
    ensures forall i :: 0 <= i < |prev| && prev[i].id == id ==> r[i] == prev[i].(isStarred := isIMP)
  {
    seq(|prev|, i requires 0 <= i < |prev| => if prev[i].id == id then prev[i].(isStarred := isIMP) else prev[i])
  }

  /** question_updated: the matching card takes text, status, importance, the answer
      if truthy, and validity; name, time, colour and lecture stay. */
  function OnUpdated(prev: seq<View>, q: Question): (r: seq<View>)
    ensures |r| == |prev|
    ensures forall i :: 0 <= i < |prev| && prev[i].id != q.id ==> r[i] == prev[i]
    ensures forall i :: 0 <= i < |prev| && prev[i].id == q.id ==>
      r[i] == prev[i].(text := q.text, isAnswered := q.status == Answered, isStarred := q.isIMP,
                       answer := Truthy(q.answer), isValid := q.isValid)
  {
    seq(|prev|, i requires 0 <= i < |prev| =>
      if prev[i].id == q.id then
        prev[i].(text := q.text, isAnswered := q.status == Answered, isStarred := q.isIMP,
                 answer := Truthy(q.answer), isValid := q.isValid)
      else prev[i])
  }

  /** question_deleted: every card with that id goes; the rest keep their order. */
  function OnDeleted(prev: seq<View>, id: QuestionId): (r: seq<View>)
    ensures !Has(r, id)
    ensures forall v :: v in r <==> v in prev && v.id != id
    ensures |r| <= |prev|
  {
    if prev == [] then []
    else if prev[0].id == id then OnDeleted(prev[1..], id)
    else [prev[0]] + OnDeleted(prev[1..], id)
  }

  // ---------------------------------------------------------------------------
  // Properties of the reducers.

  /** Delivering the same created event twice has the effect of delivering it once. */
  lemma CreatedIdempotent(prev: seq<View>, p: Payload)
    ensures OnCreated(OnCreated(prev, p), p) == OnCreated(prev, p)
  {
  }

  /** The created reducer never introduces a second card with the same id. */
  lemma CreatedKeepsIdsUnique(prev: seq<View>, p: Payload)
    requires UniqueIds(prev)
    ensures UniqueIds(OnCreated(prev, p))
  {
  }

  /** The merge reducers keep the sequence of ids, hence its order and uniqueness. */
  lemma MergesKeepIds(prev: seq<View>, q: Question, id: QuestionId, isIMP: bool)
    ensures Ids(OnAnswered(prev, q)) == Ids(prev)
    ensures Ids(OnStarred(prev, id, isIMP)) == Ids(prev)
    ensures Ids(OnUpdated(prev, q)) == Ids(prev)
  {
  }

  /** A merge event for an id that is not listed changes nothing. */
  lemma MergeOfAbsentIdIsNoOp(prev: seq<View>, q: Question, isIMP: bool)
    requires !Has(prev, q.id)
    ensures OnAnswered(prev, q) == prev
    ensures OnStarred(prev, q.id, isIMP) == prev
    ensures OnUpdated(prev, q) == prev
  {
  }

  /** Deleting an id that is not listed changes nothing. */
  lemma {:induction false} DeleteAbsentIsNoOp(prev: seq<View>, id: QuestionId)
    requires !Has(prev, id)
    ensures OnDeleted(prev, id) == prev
  {
    if prev != [] {
      assert !Has(prev[1..], id) by {
        forall i | 0 <= i < |prev[1..]| ensures prev[1..][i].id != id {
          assert prev[1..][i] == prev[i + 1];
        }
      }
      DeleteAbsentIsNoOp(prev[1..], id);
      assert [prev[0]] + prev[1..] == prev;
    }
  }

  /** Deletion works element by element: it distributes over concatenation, so the
      relative order of the remaining cards is kept. */
  lemma {:induction false} DeleteDistributes(a: seq<View>, b: seq<View>, id: QuestionId)
    ensures OnDeleted(a + b, id) == OnDeleted(a, id) + OnDeleted(b, id)
  {
    if a != [] {
      assert (a + b)[1..] == a[1..] + b;
      DeleteDistributes(a[1..], b, id);
    } else {
      assert a + b == b;
    }
  }

  /** Deleting a question that was just created, and was not listed before, restores the list. */
  lemma DeleteUndoesCreate(prev: seq<View>, p: Payload)
    requires !Has(prev, p.q.id)
    ensures OnDeleted(OnCreated(prev, p), p.q.id) == prev
  {
    var r := OnCreated(prev, p);
    assert r == [r[0]] + prev;
    DeleteDistributes([r[0]], prev, p.q.id);
    DeleteAbsentIsNoOp(prev, p.q.id);
  }

  /** A fetch lists the cards under the ids of the fetched questions, in order, so a
      listing without repeated ids gives cards with unique ids. */
  lemma FetchKeepsIds(ps: seq<Payload>)
    ensures Ids(Transform(ps)) == seq(|ps|, i requires 0 <= i < |ps| => ps[i].q.id)
    ensures (forall i, j :: 0 <= i < j < |ps| ==> ps[i].q.id != ps[j].q.id) ==> UniqueIds(Transform(ps))
  {
  }

  /** A created event for a question that a fetch already listed changes nothing. */
  lemma CreatedAfterFetch(ps: seq<Payload>, i: nat, p: Payload)
    requires i < |ps| && ps[i].q.id == p.q.id
    ensures OnCreated(Transform(ps), p) == Transform(ps)
  {
  }

  // ---------------------------------------------------------------------------
  // Display sections.

  /** The cards whose answered flag is `answered`, in list order. */
  function WithAnswered(l: seq<View>, answered: bool): (r: seq<View>)
    ensures forall v :: v in r <==> v in l && v.isAnswered == answered
  {
    if l == [] then []
    else if l[0].isAnswered == answered then [l[0]] + WithAnswered(l[1..], answered)
    else WithAnswered(l[1..], answered)
  }

  /** Starred cards first, then the newest. */
  function SectionKey(v: View): (int, int) {
    (if v.isStarred then 1 else 0, v.timestamp)
  }

  /** The unanswered (`answered` false) or answered section as displayed. */
  function Section(l: seq<View>, answered: bool): (r: seq<View>)
    ensures forall v :: v in r <==> v in l && v.isAnswered == answered
    ensures multiset(r) == multiset(WithAnswered(l, answered))
    ensures forall i, j :: 0 <= i < j < |r| ==>
      && (r[i].isStarred || !r[j].isStarred)
      && (r[i].isStarred == r[j].isStarred ==> r[i].timestamp >= r[j].timestamp)
  {
    var s := WithAnswered(l, answered);
    var r := Sorting.SortDesc(s, SectionKey);
    forall v ensures v in r <==> v in s {
      Sorting.SameMembers(r, s, v);
    }
    assert forall i, j :: 0 <= i < j < |r| ==> Sorting.Ahead(SectionKey(r[i]), SectionKey(r[j]));
    r
  }

  /** Splitting by the answered flag loses and duplicates nothing. */
  lemma {:induction false} SplitPartitions(l: seq<View>)
    ensures multiset(WithAnswered(l, false)) + multiset(WithAnswered(l, true)) == multiset(l)
  {
    if l != [] {
      SplitPartitions(l[1..]);
      assert l == [l[0]] + l[1..];
    }
  }

  /** The two sections together hold every card of the list exactly as often as the list does. */
  lemma SectionsPartition(l: seq<View>)
    ensures multiset(Section(l, false)) + multiset(Section(l, true)) == multiset(l)
  {
    SplitPartitions(l);
  }
}
