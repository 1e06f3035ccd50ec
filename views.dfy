/**
 * The views that change progress: answering a section question, taking a room's final
 * exam and the payment provider's callback; and the completion flags the dashboard and
 * the room page compute.
 */
module Views {
  import opened Wrappers
  import opened Text
  import opened Models
  import opened Store
  import opened Signals

  /** `request.POST.get(key, '')`. */
  function PostField(form: map<string, string>, key: string): string {
    if key in form then form[key] else ""
  }

  /** The answer row `update_or_create` leaves: new text and verdict, the answer time kept from creation. */
  function UpsertAnswer(answers: Answers, u: UserId, q: QuestionId, text: string, correct: bool, now: Time): (a: UserAnswer)
    ensures a.answer == text && a.isCorrect == correct
    ensures (u, q) in answers ==> a.answeredAt == answers[(u, q)].answeredAt
    ensures (u, q) !in answers ==> a.answeredAt == now
  {
    UserAnswer(text, correct, if (u, q) in answers then answers[(u, q)].answeredAt else now)
  }

  /**
   * `UserAnswer.objects.update_or_create(...)` for a checked answer, followed by the answer
   * signal.  Shared by the quiz view and the exam view.
   */
  method SaveAnswer(lms: Lms, u: UserId, q: QuestionId, text: string, now: Time) returns (isCorrect: bool)
    requires lms.Valid() && u in lms.users && q in lms.catalog.questions
    modifies lms
    ensures lms.Valid()
    ensures lms.users == old(lms.users) && lms.certificates == old(lms.certificates)
    ensures lms.enrollments == old(lms.enrollments) && lms.payments == old(lms.payments)
    ensures isCorrect == CheckAnswer(lms.catalog.questions[q], text)
    ensures lms.answers == old(lms.answers)[(u, q) := UpsertAnswer(old(lms.answers), u, q, text, isCorrect, now)]
    ensures OnlySectionsCompleted(old(lms.sectionDone), lms.sectionDone, u, now)
    ensures OnlyRoomsEnsured(old(lms.roomDone), lms.roomDone, u, {})
    ensures !CompletesSection(lms.catalog, lms.answers, u, q, (u, q) !in old(lms.answers)) ==>
      lms.sectionDone == old(lms.sectionDone) && lms.roomDone == old(lms.roomDone)
    ensures CompletesSection(lms.catalog, lms.answers, u, q, (u, q) !in old(lms.answers)) ==>
      var s := lms.catalog.questions[q].section.value;
      var r := lms.catalog.sections[s].room;
      && lms.sectionDone == old(lms.sectionDone)[(u, s) := SectionCompletion(true, Some(now))]
      && lms.roomDone == if AllSectionsDone(lms.catalog, lms.sectionDone, u, r)
                         then EnsureRoomCompletion(old(lms.roomDone), u, r) else old(lms.roomDone)
  {
    isCorrect := CheckAnswer(lms.catalog.questions[q], text);
    var created := (u, q) !in lms.answers;
    lms.answers := lms.answers[(u, q) := UpsertAnswer(lms.answers, u, q, text, isCorrect, now)];
    AnswerSaved(lms, u, q, created, now);
  }

  // ---------------------------------------------------------------------------------------
  // submit_quiz_answer

  /** The view's own completion test after the answer is saved: `update_or_create` of the section row. */
  method MarkSectionIfPassed(lms: Lms, u: UserId, q: QuestionId, now: Time)
    requires lms.Valid() && u in lms.users && q in lms.catalog.questions
    modifies lms
    ensures lms.Valid()
    ensures lms.users == old(lms.users) && lms.answers == old(lms.answers) && lms.roomDone == old(lms.roomDone)
    ensures lms.certificates == old(lms.certificates) && lms.enrollments == old(lms.enrollments)
    ensures lms.payments == old(lms.payments)
    ensures var question := lms.catalog.questions[q];
      lms.sectionDone ==
        if question.section.Some? && SectionQuizPassed(lms.catalog, lms.answers, u, question.section.value)
        then old(lms.sectionDone)[(u, question.section.value) := SectionCompletion(true, Some(now))]
        else old(lms.sectionDone)
  {
    var question := lms.catalog.questions[q];
    if question.section.Some? {
      var s := question.section.value;
      if SectionQuizPassed(lms.catalog, lms.answers, u, s) {
        var recordCreated := (u, s) !in lms.sectionDone;
        lms.sectionDone := lms.sectionDone[(u, s) := SectionCompletion(true, Some(now))];
        // A completed record never triggers the content-only handler.
        SectionCompletionSaved(lms, u, s, recordCreated, now);
      }
    }
  }

  datatype QuizReply = QuestionNotFound | QuizLocked | EmptyAnswer | Graded(isCorrect: bool)

  /** How the answer signal and the view's own completion test combine. */
  lemma QuizEffect(c: Catalog, u: UserId, q: QuestionId, text: string, correct: bool, now: Time,
                   a0: Answers, a1: Answers, s0: SectionCompletions, s1: SectionCompletions, s2: SectionCompletions,
                   r0: RoomCompletions, r1: RoomCompletions, r2: RoomCompletions)
    requires c.WellFormed() && q in c.questions && c.questions[q].isActive
    requires a1 == a0[(u, q) := UpsertAnswer(a0, u, q, text, correct, now)]
    requires !CompletesSection(c, a1, u, q, (u, q) !in a0) ==> s1 == s0 && r1 == r0
    requires CompletesSection(c, a1, u, q, (u, q) !in a0) ==>
      var s := c.questions[q].section.value;
      var r := c.sections[s].room;
      && s1 == s0[(u, s) := SectionCompletion(true, Some(now))]
      && r1 == if AllSectionsDone(c, s1, u, r) then EnsureRoomCompletion(r0, u, r) else r0
    requires var question := c.questions[q];
      s2 == if question.section.Some? && SectionQuizPassed(c, a1, u, question.section.value)
            then s1[(u, question.section.value) := SectionCompletion(true, Some(now))]
            else s1
    requires r2 == r1
    ensures var question := c.questions[q];
      && (question.section.None? || !SectionQuizPassed(c, a1, u, question.section.value) ==> s2 == s0 && r2 == r0)
      && (question.section.Some? && SectionQuizPassed(c, a1, u, question.section.value) ==>
            var s := question.section.value;
            var r := c.sections[s].room;
            && s2 == s0[(u, s) := SectionCompletion(true, Some(now))]
            && r2 == if (u, q) !in a0 && AllSectionsDone(c, s2, u, r) then EnsureRoomCompletion(r0, u, r) else r0)
  {
    var question := c.questions[q];
    if question.section.Some? && SectionQuizPassed(c, a1, u, question.section.value) {
      var s := question.section.value;
      SectionQuizPassedIff(c, a1, u, s);
      assert q in ActiveQuestions(c, s);
      assert a1[(u, q)].isCorrect;
    }
  }

  method SubmitQuizAnswer(lms: Lms, u: UserId, q: QuestionId, form: map<string, string>, now: Time) returns (reply: QuizReply)
    requires lms.Valid() && u in lms.users
    modifies lms
    ensures lms.Valid()
    ensures lms.users == old(lms.users) && lms.certificates == old(lms.certificates)
    ensures lms.enrollments == old(lms.enrollments) && lms.payments == old(lms.payments)
    ensures reply == QuestionNotFound <==> !(q in lms.catalog.questions && lms.catalog.questions[q].isActive)
    ensures reply == QuizLocked <==>
      q in lms.catalog.questions && lms.catalog.questions[q].isActive && !CanAccessQuizzes(lms.users[u])
    ensures reply == EmptyAnswer <==>
      && q in lms.catalog.questions && lms.catalog.questions[q].isActive && CanAccessQuizzes(lms.users[u])
      && Trim(Python, PostField(form, "answer")) == []
    ensures !reply.Graded? ==>
      lms.answers == old(lms.answers) && lms.sectionDone == old(lms.sectionDone) && lms.roomDone == old(lms.roomDone)
    ensures reply.Graded? ==>
      var question := lms.catalog.questions[q];
      var text := Trim(Python, PostField(form, "answer"));
      && reply.isCorrect == CheckAnswer(question, text)
      && lms.answers == old(lms.answers)[(u, q) := UpsertAnswer(old(lms.answers), u, q, text, reply.isCorrect, now)]
      && (question.section.None? || !SectionQuizPassed(lms.catalog, lms.answers, u, question.section.value) ==>
            lms.sectionDone == old(lms.sectionDone) && lms.roomDone == old(lms.roomDone))
      && (question.section.Some? && SectionQuizPassed(lms.catalog, lms.answers, u, question.section.value) ==>
            var s := question.section.value;
            var r := lms.catalog.sections[s].room;
            && lms.sectionDone == old(lms.sectionDone)[(u, s) := SectionCompletion(true, Some(now))]
            && lms.roomDone == if (u, q) !in old(lms.answers) && AllSectionsDone(lms.catalog, lms.sectionDone, u, r)
                               then EnsureRoomCompletion(old(lms.roomDone), u, r) else old(lms.roomDone))
  {
    if !(q in lms.catalog.questions && lms.catalog.questions[q].isActive) {
      return QuestionNotFound;
    }
    if !CanAccessQuizzes(lms.users[u]) {
      return QuizLocked;
    }
    var text := Trim(Python, PostField(form, "answer"));
    if text == [] {
      return EmptyAnswer;
    }
    ghost var answers0, sections0, rooms0 := lms.answers, lms.sectionDone, lms.roomDone;
    var correct := SaveAnswer(lms, u, q, text, now);
    ghost var sections1, rooms1 := lms.sectionDone, lms.roomDone;
    MarkSectionIfPassed(lms, u, q, now);
    QuizEffect(lms.catalog, u, q, text, correct, now, answers0, lms.answers, sections0, sections1, lms.sectionDone,
               rooms0, rooms1, lms.roomDone);
    reply := Graded(correct);
  }

  // ---------------------------------------------------------------------------------------
  // submit_final_exam

  datatype ExamReply = RoomNotFound | ExamLocked | SectionsIncomplete | ExamGraded(correct: nat, total: nat, score: real, passed: bool)

  /** The form field holding the answer to question `q`: `question_<id>`. */
  function ExamKey(q: QuestionId): string {
    "question_" + NatToString(q)
  }

  /** Different questions read different form fields. */
  lemma ExamKeysDistinct(p: QuestionId, q: QuestionId)
    requires ExamKey(p) == ExamKey(q)
    ensures p == q
  {
    var prefix := "question_";
    assert NatToString(p) == ExamKey(p)[|prefix|..];
    assert NatToString(q) == ExamKey(q)[|prefix|..];
    NatToStringInjective(p, q);
  }

  function ExamText(form: map<string, string>, q: QuestionId): string {
    Trim(Python, PostField(form, ExamKey(q)))
  }

  /** The questions of `qs` the form answers with something other than white space. */
  function GivenAnswers(form: map<string, string>, qs: set<QuestionId>): (g: set<QuestionId>)
    ensures g <= qs
  {
    set q | q in qs && ExamText(form, q) != []
  }

  /** The given answers that are correct. */
  function CorrectAnswers(c: Catalog, form: map<string, string>, qs: set<QuestionId>): (k: set<QuestionId>)
    requires qs <= c.questions.Keys
    ensures k <= GivenAnswers(form, qs)
  {
    set q | q in GivenAnswers(form, qs) && CheckAnswer(c.questions[q], ExamText(form, q))
  }

  /** `(correct / total) * 100`, and 0 without questions. */
  function ExamScore(correct: nat, total: nat): real {
    if total > 0 then (correct as real / total as real) * 100.0 else 0.0
  }

  predicate ExamPassed(score: real) {
    score >= 70.0
  }

  /** The pass mark in integers: at least 70 per cent of a non-empty exam; the score lies in [0, 100]. */
  lemma ExamPassMark(correct: nat, total: nat)
    requires correct <= total
    ensures ExamPassed(ExamScore(correct, total)) <==> total > 0 && 100 * correct >= 70 * total
    ensures 0.0 <= ExamScore(correct, total) <= 100.0
    ensures total > 0 && correct == total ==> ExamScore(correct, total) == 100.0
  {
    if total > 0 {
      var c, t := correct as real, total as real;
      var x := c / t;
      assert x * t == c;
      assert ExamScore(correct, total) == x * 100.0;
      ExamFraction(x, c, t, correct, total);
    }
  }

  /** The pass mark, the bounds and the full score, for the fraction `x` of correct answers. */
  lemma ExamFraction(x: real, c: real, t: real, correct: nat, total: nat)
    requires t > 0.0 && x * t == c && c == correct as real && t == total as real && correct <= total
    ensures x * 100.0 >= 70.0 <==> 100 * correct >= 70 * total
    ensures 0.0 <= x * 100.0 <= 100.0
    ensures correct == total ==> x * 100.0 == 100.0
  {
    FractionAtLeast(x, 0.7, c, t);
    FractionAtLeast(x, 0.0, c, t);
    FractionAtLeast(x, 1.0, c, t);
    FractionAtMostOne(x, c, t);
    assert (100 * correct) as real == 100.0 * c && (70 * total) as real == 70.0 * t;
  }

  lemma FractionAtLeast(x: real, b: real, c: real, t: real)
    requires t > 0.0 && x * t == c
    ensures x >= b <==> c >= b * t
  {
    ScaleByPositive(x, b, t);
  }

  lemma FractionAtMostOne(x: real, c: real, t: real)
    requires t > 0.0 && x * t == c
    ensures x <= 1.0 <==> c <= t
  {
    ScaleByPositive(1.0, x, t);
  }

  lemma ScaleByPositive(a: real, b: real, t: real)
    requires t > 0.0
    ensures a >= b <==> a * t >= b * t
  {
    assert a * t - b * t == (a - b) * t;
    if a < b {
      assert (b - a) * t > 0.0;
    }
  }

  /** The answers table after the exam: exactly the given answers upserted, all other rows untouched. */
  ghost predicate ExamAnswersRecorded(before: Answers, after: Answers, c: Catalog, u: UserId,
                                      form: map<string, string>, given: set<QuestionId>, now: Time)
    requires given <= c.questions.Keys
  {
    && ExamKeysRecorded(before, after, u, given)
    && (forall q :: q in given ==> after[(u, q)] == ExamRow(before, c, u, form, q, now))
  }

  /** Rows exist exactly for the earlier rows and the given answers; rows of other questions are unchanged. */
  ghost predicate ExamKeysRecorded(before: Answers, after: Answers, u: UserId, given: set<QuestionId>) {
    && (forall k :: k in after <==> k in before || (k.0 == u && k.1 in given))
    && (forall k :: k in before && !(k.0 == u && k.1 in given) ==> after[k] == before[k])
  }

  /** The row the exam leaves for a given answer. */
  function ExamRow(before: Answers, c: Catalog, u: UserId, form: map<string, string>, q: QuestionId, now: Time): UserAnswer
    requires q in c.questions
  {
    UpsertAnswer(before, u, q, ExamText(form, q), CheckAnswer(c.questions[q], ExamText(form, q)), now)
  }

  /** No exam question is also attached to a quiz section, so saving exam answers runs no section check. */
  predicate ExamOnlyQuestions(c: Catalog, qs: set<QuestionId>)
    requires qs <= c.questions.Keys
  {
    forall q :: q in qs ==> c.questions[q].section.None?
  }

  lemma GivenStep(form: map<string, string>, seen: set<QuestionId>, q: QuestionId)
    ensures GivenAnswers(form, seen + {q}) ==
      if ExamText(form, q) != [] then GivenAnswers(form, seen) + {q} else GivenAnswers(form, seen)
  {
  }

  lemma CorrectStep(c: Catalog, form: map<string, string>, seen: set<QuestionId>, q: QuestionId)
    requires seen <= c.questions.Keys && q in c.questions && q !in seen
    ensures |CorrectAnswers(c, form, seen + {q})| ==
      |CorrectAnswers(c, form, seen)| + if ExamText(form, q) != [] && CheckAnswer(c.questions[q], ExamText(form, q)) then 1 else 0
  {
    var hit := ExamText(form, q) != [] && CheckAnswer(c.questions[q], ExamText(form, q));
    CorrectSetStep(c, form, seen, q, hit);
  }

  lemma CorrectSetStep(c: Catalog, form: map<string, string>, seen: set<QuestionId>, q: QuestionId, hit: bool)
    requires seen <= c.questions.Keys && q in c.questions && q !in seen
    requires hit == (ExamText(form, q) != [] && CheckAnswer(c.questions[q], ExamText(form, q)))
    ensures q !in CorrectAnswers(c, form, seen)
    ensures CorrectAnswers(c, form, seen + {q}) ==
      if hit then CorrectAnswers(c, form, seen) + {q} else CorrectAnswers(c, form, seen)
  {
    GivenStep(form, seen, q);
  }

  lemma KeysStep(a0: Answers, a1: Answers, a2: Answers, u: UserId, given: set<QuestionId>, q: QuestionId, row: UserAnswer)
    requires ExamKeysRecorded(a0, a1, u, given) && q !in given
    requires a2 == a1[(u, q) := row]
    ensures ExamKeysRecorded(a0, a2, u, given + {q})
  {
  }

  /** One exam question processed: a blank answer changes nothing, a given one is upserted. */
  lemma RecordedStep(c: Catalog, u: UserId, form: map<string, string>, seen: set<QuestionId>, q: QuestionId, now: Time,
                     a0: Answers, a1: Answers, a2: Answers)
    requires seen <= c.questions.Keys && q in c.questions && q !in seen
    requires ExamAnswersRecorded(a0, a1, c, u, form, GivenAnswers(form, seen), now)
    requires ExamText(form, q) != [] ==>
      a2 == a1[(u, q) := UpsertAnswer(a1, u, q, ExamText(form, q), CheckAnswer(c.questions[q], ExamText(form, q)), now)]
    requires ExamText(form, q) == [] ==> a2 == a1
    ensures ExamAnswersRecorded(a0, a2, c, u, form, GivenAnswers(form, seen + {q}), now)
  {
    var given := GivenAnswers(form, seen);
    GivenStep(form, seen, q);
    if ExamText(form, q) != [] {
      var text := ExamText(form, q);
      var row := ExamRow(a0, c, u, form, q, now);
      assert q !in given;
      UpsertSameRow(a0, a1, u, q, given, text, CheckAnswer(c.questions[q], text), now);
      KeysStep(a0, a1, a2, u, given, q, row);
      RowsStep(a0, a1, a2, c, u, form, given, q, row, now);
    }
  }

  /** A question not answered yet in this exam still has its row from before the exam. */
  lemma UpsertSameRow(a0: Answers, a1: Answers, u: UserId, q: QuestionId, given: set<QuestionId>,
                      text: string, correct: bool, now: Time)
    requires ExamKeysRecorded(a0, a1, u, given) && q !in given
    ensures UpsertAnswer(a1, u, q, text, correct, now) == UpsertAnswer(a0, u, q, text, correct, now)
  {
    assert ((u, q) in a1) == ((u, q) in a0);
    if (u, q) in a0 {
      assert a1[(u, q)] == a0[(u, q)];
    }
  }

  lemma RowsStep(a0: Answers, a1: Answers, a2: Answers, c: Catalog, u: UserId, form: map<string, string>,
                 given: set<QuestionId>, q: QuestionId, row: UserAnswer, now: Time)
    requires given <= c.questions.Keys && q in c.questions && q !in given
    requires ExamAnswersRecorded(a0, a1, c, u, form, given, now)
    requires row == ExamRow(a0, c, u, form, q, now) && a2 == a1[(u, q) := row]
    requires ExamKeysRecorded(a0, a2, u, given + {q})
    ensures ExamAnswersRecorded(a0, a2, c, u, form, given + {q}, now)
  {
    forall q' | q' in given + {q}
      ensures a2[(u, q')] == ExamRow(a0, c, u, form, q', now)
    {
      if q' != q {
        assert a2[(u, q')] == a1[(u, q')];
      }
    }
  }

  /** `SaveAnswer` as the exam sees it: only a question that belongs to a section can move the progress tables. */
  method SaveExamAnswer(lms: Lms, u: UserId, q: QuestionId, text: string, now: Time) returns (isCorrect: bool)
    requires lms.Valid() && u in lms.users && q in lms.catalog.questions
    modifies lms
    ensures lms.Valid()
    ensures lms.users == old(lms.users) && lms.certificates == old(lms.certificates)
    ensures lms.enrollments == old(lms.enrollments) && lms.payments == old(lms.payments)
    ensures isCorrect == CheckAnswer(lms.catalog.questions[q], text)
    ensures lms.answers == old(lms.answers)[(u, q) := UpsertAnswer(old(lms.answers), u, q, text, isCorrect, now)]
    ensures OnlySectionsCompleted(old(lms.sectionDone), lms.sectionDone, u, now)
    ensures OnlyRoomsEnsured(old(lms.roomDone), lms.roomDone, u, {})
    ensures lms.catalog.questions[q].section.None? ==>
      lms.sectionDone == old(lms.sectionDone) && lms.roomDone == old(lms.roomDone)
  {
    isCorrect := SaveAnswer(lms, u, q, text, now);
  }

  /**
   * One exam question: a non-blank answer is saved (with its signal) and counted when correct;
   * stated relative to the tables `a0`, `sd0`, `rd0` at the start of the exam.
   */
  method GradeOne(lms: Lms, u: UserId, q: QuestionId, form: map<string, string>, now: Time,
                  ghost seen: set<QuestionId>, ghost a0: Answers, ghost sd0: SectionCompletions, ghost rd0: RoomCompletions)
    returns (hit: nat)
    requires lms.Valid() && u in lms.users && q in lms.catalog.questions
    requires seen <= lms.catalog.questions.Keys && q !in seen
    requires ExamAnswersRecorded(a0, lms.answers, lms.catalog, u, form, GivenAnswers(form, seen), now)
    requires OnlySectionsCompleted(sd0, lms.sectionDone, u, now) && OnlyRoomsEnsured(rd0, lms.roomDone, u, {})
    modifies lms
    ensures lms.Valid()
    ensures lms.users == old(lms.users) && lms.enrollments == old(lms.enrollments)
    ensures lms.payments == old(lms.payments) && lms.certificates == old(lms.certificates)
    ensures |CorrectAnswers(lms.catalog, form, seen + {q})| == |CorrectAnswers(lms.catalog, form, seen)| + hit
    ensures ExamAnswersRecorded(a0, lms.answers, lms.catalog, u, form, GivenAnswers(form, seen + {q}), now)
    ensures OnlySectionsCompleted(sd0, lms.sectionDone, u, now) && OnlyRoomsEnsured(rd0, lms.roomDone, u, {})
    ensures lms.catalog.questions[q].section.None? ==>
      lms.sectionDone == old(lms.sectionDone) && lms.roomDone == old(lms.roomDone)
  {
    var text := ExamText(form, q);
    ghost var answersBefore := lms.answers;
    hit := 0;
    if text != [] {
      var isCorrect := SaveExamAnswer(lms, u, q, text, now);
      OnlySectionsCompletedTrans(sd0, old(lms.sectionDone), lms.sectionDone, u, now);
      OnlyRoomsEnsuredTrans(rd0, old(lms.roomDone), lms.roomDone, u, {});
      if isCorrect {
        hit := 1;
      }
    }
    RecordedStep(lms.catalog, u, form, seen, q, now, a0, answersBefore, lms.answers);
    CorrectStep(lms.catalog, form, seen, q);
  }

  /** The grading loop: every exam question's field is read, non-blank answers are saved and counted. */
  method GradeExamAnswers(lms: Lms, u: UserId, fq: set<QuestionId>, form: map<string, string>, now: Time)
    returns (correct: nat)
    requires lms.Valid() && u in lms.users && fq <= lms.catalog.questions.Keys
    modifies lms
    ensures lms.Valid()
    ensures lms.users == old(lms.users) && lms.enrollments == old(lms.enrollments)
    ensures lms.payments == old(lms.payments) && lms.certificates == old(lms.certificates)
    ensures correct == |CorrectAnswers(lms.catalog, form, fq)|
    ensures ExamAnswersRecorded(old(lms.answers), lms.answers, lms.catalog, u, form, GivenAnswers(form, fq), now)
    ensures OnlySectionsCompleted(old(lms.sectionDone), lms.sectionDone, u, now)
    ensures OnlyRoomsEnsured(old(lms.roomDone), lms.roomDone, u, {})
    ensures ExamOnlyQuestions(lms.catalog, fq) ==>
      lms.sectionDone == old(lms.sectionDone) && lms.roomDone == old(lms.roomDone)
  {
    var c := lms.catalog;
    correct := 0;
    var remaining := fq;
    ghost var seen: set<QuestionId> := {};
    while remaining != {}
      invariant remaining <= fq && seen == fq - remaining
      invariant lms.Valid()
      invariant lms.users == old(lms.users) && lms.enrollments == old(lms.enrollments)
      invariant lms.payments == old(lms.payments) && lms.certificates == old(lms.certificates)
      invariant correct == |CorrectAnswers(c, form, seen)|
      invariant ExamAnswersRecorded(old(lms.answers), lms.answers, c, u, form, GivenAnswers(form, seen), now)
      invariant OnlySectionsCompleted(old(lms.sectionDone), lms.sectionDone, u, now)
      invariant OnlyRoomsEnsured(old(lms.roomDone), lms.roomDone, u, {})
      invariant ExamOnlyQuestions(c, fq) ==> lms.sectionDone == old(lms.sectionDone) && lms.roomDone == old(lms.roomDone)
      decreases |remaining|
    {
      var q :| q in remaining;
      var hit := GradeOne(lms, u, q, form, now, seen, old(lms.answers), old(lms.sectionDone), old(lms.roomDone));
      correct := correct + hit;
      MoveOne(fq, remaining, seen, q);
      remaining := remaining - {q};
      seen := seen + {q};
    }
    assert seen == fq;
  }

  /** The room row the exam writes, on top of whatever the answer signals added. */
  lemma ExamRoomEffect(rd0: RoomCompletions, rd1: RoomCompletions, u: UserId, r: RoomId, row: RoomCompletion)
    requires OnlyRoomsEnsured(rd0, rd1, u, {})
    ensures OnlyRoomsEnsured(rd0, rd1[(u, r) := row], u, {(u, r)})
    ensures (if (u, r) in rd1 then rd1[(u, r)].certificate else None) ==
            (if (u, r) in rd0 then rd0[(u, r)].certificate else None)
  {
  }

  /** What the exam view does once the gates are passed: grade, score, upsert the room row, issue the certificate. */
  method GradeExam(lms: Lms, u: UserId, r: RoomId, form: map<string, string>, now: Time, certId: CertificateId)
    returns (reply: ExamReply)
    requires lms.Valid() && u in lms.users && r in lms.catalog.rooms
    modifies lms
    ensures lms.Valid()
    ensures lms.users == old(lms.users) && lms.enrollments == old(lms.enrollments) && lms.payments == old(lms.payments)
    ensures reply.ExamGraded?
    ensures var fq := FinalQuestions(lms.catalog, r);
      && reply.total == |fq|
      && reply.correct == |CorrectAnswers(lms.catalog, form, fq)|
      && reply.score == ExamScore(reply.correct, reply.total)
      && reply.passed == ExamPassed(reply.score)
      && ExamAnswersRecorded(old(lms.answers), lms.answers, lms.catalog, u, form, GivenAnswers(form, fq), now)
      && (u, r) in lms.roomDone
      && lms.roomDone[(u, r)] == RoomCompletion(reply.passed, if reply.passed then Some(now) else None, Some(reply.score),
                                                if (u, r) in old(lms.roomDone) then old(lms.roomDone)[(u, r)].certificate else None)
      && OnlyRoomsEnsured(old(lms.roomDone), lms.roomDone, u, {(u, r)})
      && OnlySectionsCompleted(old(lms.sectionDone), lms.sectionDone, u, now)
      && (ExamOnlyQuestions(lms.catalog, fq) ==>
            lms.sectionDone == old(lms.sectionDone) && lms.roomDone == old(lms.roomDone)[(u, r) := lms.roomDone[(u, r)]])
      && lms.certificates == if reply.passed && (u, r) !in old(lms.certificates)
                             then old(lms.certificates)[(u, r) := Certificate(certId, now, true)]
                             else old(lms.certificates)
  {
    var fq := FinalQuestions(lms.catalog, r);
    var total := |fq|;
    var correct := GradeExamAnswers(lms, u, fq, form, now);
    var score := ExamScore(correct, total);
    var passed := ExamPassed(score);
    var certificate := if (u, r) in lms.roomDone then lms.roomDone[(u, r)].certificate else None;
    var row := RoomCompletion(passed, if passed then Some(now) else None, Some(score), certificate);
    ExamRoomEffect(old(lms.roomDone), lms.roomDone, u, r, row);
    RecordExamResult(lms, u, r, row, now, certId);
    reply := ExamGraded(correct, total, score, passed);
  }

  /** The exam's own writes: `update_or_create` of the room row, then the certificate of a first pass. */
  method RecordExamResult(lms: Lms, u: UserId, r: RoomId, row: RoomCompletion, now: Time, certId: CertificateId)
    requires lms.Valid() && u in lms.users && r in lms.catalog.rooms
    modifies lms
    ensures lms.Valid()
    ensures lms.users == old(lms.users) && lms.answers == old(lms.answers) && lms.sectionDone == old(lms.sectionDone)
    ensures lms.enrollments == old(lms.enrollments) && lms.payments == old(lms.payments)
    ensures lms.roomDone == old(lms.roomDone)[(u, r) := row]
    ensures lms.certificates == if row.isCompleted && (u, r) !in old(lms.certificates)
                                then old(lms.certificates)[(u, r) := Certificate(certId, now, true)]
                                else old(lms.certificates)
  {
    KeysInUpdate(lms.roomDone, lms.users.Keys, lms.catalog.rooms.Keys, (u, r), row);
    lms.roomDone := lms.roomDone[(u, r) := row];
    if row.isCompleted && (u, r) !in lms.certificates {
      KeysInUpdate(lms.certificates, lms.users.Keys, lms.catalog.rooms.Keys, (u, r), Certificate(certId, now, true));
      lms.certificates := lms.certificates[(u, r) := Certificate(certId, now, true)];
    }
  }

  /**
   * `submit_final_exam`: the room must exist and be active, the account paid, and every
   * active section of the room completed; then the exam is graded.
   */
  method SubmitFinalExam(lms: Lms, u: UserId, r: RoomId, form: map<string, string>, now: Time, certId: CertificateId)
    returns (reply: ExamReply)
    requires lms.Valid() && u in lms.users
    modifies lms
    ensures lms.Valid()
    ensures lms.users == old(lms.users) && lms.enrollments == old(lms.enrollments) && lms.payments == old(lms.payments)
    ensures reply == RoomNotFound <==> !(r in lms.catalog.rooms && lms.catalog.rooms[r].isActive)
    ensures reply == ExamLocked <==>
      r in lms.catalog.rooms && lms.catalog.rooms[r].isActive && !CanAccessQuizzes(lms.users[u])
    ensures reply == SectionsIncomplete <==>
      && r in lms.catalog.rooms && lms.catalog.rooms[r].isActive && CanAccessQuizzes(lms.users[u])
      && !AllSectionsDone(lms.catalog, old(lms.sectionDone), u, r)
    ensures !reply.ExamGraded? ==>
      && lms.answers == old(lms.answers) && lms.sectionDone == old(lms.sectionDone)
      && lms.roomDone == old(lms.roomDone) && lms.certificates == old(lms.certificates)
    ensures reply.ExamGraded? ==>
      var fq := FinalQuestions(lms.catalog, r);
      && reply.total == |fq|
      && reply.correct == |CorrectAnswers(lms.catalog, form, fq)|
      && reply.score == ExamScore(reply.correct, reply.total)
      && reply.passed == ExamPassed(reply.score)
      && ExamAnswersRecorded(old(lms.answers), lms.answers, lms.catalog, u, form, GivenAnswers(form, fq), now)
      && (u, r) in lms.roomDone
      && lms.roomDone[(u, r)] == RoomCompletion(reply.passed, if reply.passed then Some(now) else None, Some(reply.score),
                                                if (u, r) in old(lms.roomDone) then old(lms.roomDone)[(u, r)].certificate else None)
      && OnlyRoomsEnsured(old(lms.roomDone), lms.roomDone, u, {(u, r)})
      && OnlySectionsCompleted(old(lms.sectionDone), lms.sectionDone, u, now)
      && (ExamOnlyQuestions(lms.catalog, fq) ==>
            lms.sectionDone == old(lms.sectionDone) && lms.roomDone == old(lms.roomDone)[(u, r) := lms.roomDone[(u, r)]])
      && lms.certificates == if reply.passed && (u, r) !in old(lms.certificates)
                             then old(lms.certificates)[(u, r) := Certificate(certId, now, true)]
                             else old(lms.certificates)
  {
    if !(r in lms.catalog.rooms && lms.catalog.rooms[r].isActive) {
      return RoomNotFound;
    }
    if !CanAccessQuizzes(lms.users[u]) {
      return ExamLocked;
    }
    if !AllSectionsDone(lms.catalog, lms.sectionDone, u, r) {
      return SectionsIncomplete;
    }
    reply := GradeExam(lms, u, r, form, now, certId);
  }

  // ---------------------------------------------------------------------------------------
  // payment_callback

  datatype CallbackReply = PaymentSucceeded | PaymentFailed | CallbackError

  const PlanAmount: int := 15000
  const PlanCurrency: string := "XOF"
  const PlanProvider: string := "flutterwave"

  /** The stored status: successful exactly for the posted word `successful`, failed for anything else. */
  function PaymentStatusOf(posted: Option<string>): (p: PaymentStatus)
    ensures p == Successful <==> posted == Some("successful")
    ensures p != Successful ==> p == Failed
  {
    if posted == Some("successful") then Successful else Failed
  }

  /**
   * The provider's callback.  An unknown account gets the failure reply and nothing is written;
   * a missing transaction id makes the insert fail, which rolls back and answers with an error.
   * Otherwise the payment row is written whatever the status, but only a successful one upgrades
   * the account and gets the success reply; any other status falls through to the failure reply.
   */
  method PaymentCallback(lms: Lms, txn: Option<string>, status: Option<string>, userId: Option<UserId>, now: Time)
    returns (reply: CallbackReply)
    requires lms.Valid()
    modifies lms
    ensures lms.Valid()
    ensures lms.answers == old(lms.answers) && lms.sectionDone == old(lms.sectionDone) && lms.roomDone == old(lms.roomDone)
    ensures lms.certificates == old(lms.certificates) && lms.enrollments == old(lms.enrollments)
    ensures reply == PaymentSucceeded <==>
      userId.Some? && userId.value in old(lms.users) && txn.Some? && status == Some("successful")
    ensures reply == CallbackError <==> userId.Some? && userId.value in old(lms.users) && txn.None?
    ensures reply == PaymentFailed <==>
      userId.None? || userId.value !in old(lms.users) || (txn.Some? && status != Some("successful"))
    ensures !(userId.Some? && userId.value in old(lms.users) && txn.Some?) ==>
      lms.users == old(lms.users) && lms.payments == old(lms.payments)
    ensures userId.Some? && userId.value in old(lms.users) && txn.Some? ==>
      var u := userId.value;
      var t := txn.value;
      && lms.payments == old(lms.payments)[t := Payment(u, PlanAmount, PlanCurrency, PlanProvider, PaymentStatusOf(status),
                                                          if t in old(lms.payments) then old(lms.payments)[t].createdAt else now, now)]
      && lms.users == if status == Some("successful") then old(lms.users)[u := old(lms.users)[u].(isPaid := true)]
                      else old(lms.users)
  {
    if userId.None? || userId.value !in lms.users {
      return PaymentFailed;
    }
    var u := userId.value;
    if txn.None? {
      return CallbackError;
    }
    var t := txn.value;
    var createdAt := if t in lms.payments then lms.payments[t].createdAt else now;
    lms.payments := lms.payments[t := Payment(u, PlanAmount, PlanCurrency, PlanProvider, PaymentStatusOf(status), createdAt, now)];
    if status == Some("successful") {
      var upgraded := lms.users[u].(isPaid := true);
      lms.SaveUser(u, upgraded, now);
      return PaymentSucceeded;
    }
    reply := PaymentFailed;
  }

  /** After a successful callback the account opens quizzes and has no active trial any more. */
  lemma SuccessfulPaymentOpensQuizzes(before: User, now: Time)
    requires before.HasTrialWindow()
    ensures var after := before.(isPaid := true);
      CanAccessQuizzes(after) && !IsTrialActive(after, now) && after.trialEnd == before.trialEnd
  {
  }

  // ---------------------------------------------------------------------------------------
  // Completion flags of dashboard and room_detail

  datatype RoomRow = RoomRow(isAccessible: bool, isCompleted: bool)

  /** One room entry of the dashboard. */
  function DashboardRow(c: Catalog, rd: RoomCompletions, u: UserId, r: RoomId): (row: RoomRow)
    requires r in c.rooms
    ensures row.isCompleted <==> RoomDone(rd, u, r)
    ensures row.isAccessible <==> c.rooms[r].prerequisite.None? || RoomDone(rd, u, c.rooms[r].prerequisite.value)
  {
    RoomRow(RoomAccessible(c, rd, u, r), RoomDone(rd, u, r))
  }

  /** A room shown completed makes every room that requires it show accessible. */
  lemma CompletedRoomOpensDependents(c: Catalog, rd: RoomCompletions, u: UserId, r: RoomId, next: RoomId)
    requires r in c.rooms && next in c.rooms && c.rooms[next].prerequisite == Some(r)
    requires DashboardRow(c, rd, u, r).isCompleted
    ensures DashboardRow(c, rd, u, next).isAccessible
  {
  }

  datatype RoomDetailFlags = RoomDetailFlags(completedSections: set<SectionId>, allSectionsCompleted: bool)

  /** The room page's completed-section ids and its "all sections completed" flag. */
  function RoomDetail(c: Catalog, sd: SectionCompletions, u: UserId, r: RoomId): (f: RoomDetailFlags)
    ensures f.completedSections <= ActiveSections(c, r)
    ensures forall s :: s in f.completedSections <==> s in ActiveSections(c, r) && SectionDone(sd, u, s)
    ensures f.allSectionsCompleted <==> forall s :: s in ActiveSections(c, r) ==> SectionDone(sd, u, s)
    ensures f.allSectionsCompleted == AllSectionsDone(c, sd, u, r)
  {
    var ids := CompletedAmong(sd, u, ActiveSections(c, r));
    CountTestMeansAllDone(sd, u, ActiveSections(c, r));
    RoomDetailFlags(ids, |ids| == |ActiveSections(c, r)|)
  }
}
