/**
 * The entities of the learning system and its access rules: the trial window,
 * quiz gating, room prerequisites, sequential section unlocking and answer checking.
 *
 * Database tables are finite maps.  A table with a uniqueness constraint on
 * (user, item) is a map keyed by that pair, so it can never hold two rows for
 * the same pair.
 */
module Models {
  import opened Wrappers
  import opened Text

  type UserId = nat
  type RoadmapId = nat
  type RoomId = nat
  type SectionId = nat
  type QuestionId = nat
  type CertificateId = nat

  /** Seconds on the server clock; `timezone.now()` is always a parameter. */
  type Time = int

  const Day: int := 86400
  const TrialDays: int := 15

  // ---------------------------------------------------------------------------------------
  // Users and the trial window

  datatype User = User(isPaid: bool, trialStart: Option<Time>, trialEnd: Option<Time>, lastLogin: Option<Time>) {
    /** Every account that went through `User.save` has both trial dates. */
    predicate HasTrialWindow() { trialStart.Some? && trialEnd.Some? }
  }

  /** The field updates `User.save` makes before writing the row. */
  function TrialDefaults(u: User, now: Time): (r: User)
    ensures r.HasTrialWindow()
    ensures r.isPaid == u.isPaid && r.lastLogin == u.lastLogin
    ensures r.trialStart == if u.trialStart.Some? then u.trialStart else Some(now)
    ensures u.trialEnd.Some? ==> r.trialEnd == u.trialEnd
    ensures u.trialEnd.None? ==> r.trialEnd == Some(r.trialStart.value + TrialDays * Day)
  {
    var start := if u.trialStart.Some? then u.trialStart.value else now;
    var end := if u.trialEnd.Some? then u.trialEnd.value else start + TrialDays * Day;
    u.(trialStart := Some(start), trialEnd := Some(end))
  }

  /** Saving an account twice changes nothing the second time, whatever the clock says. */
  lemma TrialDefaultsIdempotent(u: User, t1: Time, t2: Time)
    ensures TrialDefaults(TrialDefaults(u, t1), t2) == TrialDefaults(u, t1)
  {
  }

  /**
   * `is_trial_active`.  For an unpaid account without an end date the source compares a
   * date with `None` and raises; such an account is never stored (see `TrialDefaults`).
   */
  predicate IsTrialActive(u: User, now: Time)
    requires u.isPaid || u.trialEnd.Some?
  {
    !u.isPaid && now < u.trialEnd.value
  }

  /** `can_access_quizzes`: only payment opens quizzes and exams. */
  predicate CanAccessQuizzes(u: User) {
    u.isPaid
  }

  /** A paid account never has an active trial, and an active trial never opens quizzes. */
  lemma TrialAndQuizAccessExclusive(u: User, now: Time)
    requires u.isPaid || u.trialEnd.Some?
    ensures CanAccessQuizzes(u) ==> !IsTrialActive(u, now)
    ensures IsTrialActive(u, now) ==> !CanAccessQuizzes(u)
    ensures !u.isPaid ==> (IsTrialActive(u, now) <==> now < u.trialEnd.value)
  {
  }

  // ---------------------------------------------------------------------------------------
  // Course content

  datatype Roadmap = Roadmap(isActive: bool)
  datatype Room = Room(roadmap: RoadmapId, prerequisite: Option<RoomId>, order: nat, isActive: bool)
  datatype Section = Section(room: RoomId, order: nat, isActive: bool)
  /** A section quiz question has `section` set; a final exam question has `room` set. */
  datatype Question = Question(section: Option<SectionId>, room: Option<RoomId>, correctAnswer: string, isActive: bool)

  datatype Catalog = Catalog(
    roadmaps: map<RoadmapId, Roadmap>,
    rooms: map<RoomId, Room>,
    sections: map<SectionId, Section>,
    questions: map<QuestionId, Question>)
  {
    /** Every foreign key points at an existing row. */
    predicate WellFormed() {
      && (forall r :: r in rooms ==> rooms[r].roadmap in roadmaps)
      && (forall r :: r in rooms ==> rooms[r].prerequisite.Some? ==> rooms[r].prerequisite.value in rooms)
      && (forall s :: s in sections ==> sections[s].room in rooms)
      && (forall q :: q in questions ==> questions[q].section.Some? ==> questions[q].section.value in sections)
      && (forall q :: q in questions ==> questions[q].room.Some? ==> questions[q].room.value in rooms)
    }
  }

  /** A loop over a set moves one element from the remaining part to the visited part. */
  lemma MoveOne<T>(all: set<T>, remaining: set<T>, visited: set<T>, x: T)
    requires remaining <= all && visited == all - remaining && x in remaining
    ensures remaining - {x} <= all && visited + {x} == all - (remaining - {x})
    ensures |remaining - {x}| < |remaining|
  {
  }

  /** `room.sections.filter(is_active=True)`. */
  function ActiveSections(c: Catalog, r: RoomId): (ss: set<SectionId>)
    ensures ss <= c.sections.Keys
  {
    set s | s in c.sections && c.sections[s].room == r && c.sections[s].isActive
  }

  /** The active sections of a room that come strictly before the given position. */
  function EarlierSections(c: Catalog, r: RoomId, order: nat): (e: set<SectionId>)
    ensures e <= ActiveSections(c, r)
  {
    set s | s in ActiveSections(c, r) && c.sections[s].order < order
  }

  /** `section.questions.filter(is_active=True)`. */
  function ActiveQuestions(c: Catalog, s: SectionId): (qs: set<QuestionId>)
    ensures qs <= c.questions.Keys
  {
    set q | q in c.questions && c.questions[q].section == Some(s) && c.questions[q].isActive
  }

  /** `room.final_questions.filter(is_active=True)`. */
  function FinalQuestions(c: Catalog, r: RoomId): (qs: set<QuestionId>)
    ensures qs <= c.questions.Keys
  {
    set q | q in c.questions && c.questions[q].room == Some(r) && c.questions[q].isActive
  }

  // ---------------------------------------------------------------------------------------
  // Progress records

  datatype UserAnswer = UserAnswer(answer: string, isCorrect: bool, answeredAt: Time)
  datatype SectionCompletion = SectionCompletion(isCompleted: bool, completedAt: Option<Time>)
  datatype RoomCompletion = RoomCompletion(
    isCompleted: bool, completedAt: Option<Time>, finalExamScore: Option<real>, certificate: Option<CertificateId>)
  datatype Certificate = Certificate(certificateId: CertificateId, issuedAt: Time, isValid: bool)
  datatype Enrollment = Enrollment(enrolledAt: Time, isActive: bool)
  datatype PaymentStatus = Pending | Successful | Failed | Cancelled
  datatype Payment = Payment(
    user: UserId, amount: int, currency: string, paymentMethod: string,
    status: PaymentStatus, createdAt: Time, updatedAt: Time)

  type Answers = map<(UserId, QuestionId), UserAnswer>
  type SectionCompletions = map<(UserId, SectionId), SectionCompletion>
  type RoomCompletions = map<(UserId, RoomId), RoomCompletion>

  /** The sections of `candidates` the user has a completed record for. */
  function CompletedAmong(done: SectionCompletions, u: UserId, candidates: set<SectionId>): (r: set<SectionId>)
    ensures r <= candidates
  {
    set s | s in candidates && (u, s) in done && done[(u, s)].isCompleted
  }

  predicate SectionDone(done: SectionCompletions, u: UserId, s: SectionId) {
    (u, s) in done && done[(u, s)].isCompleted
  }

  predicate RoomDone(done: RoomCompletions, u: UserId, r: RoomId) {
    (u, r) in done && done[(u, r)].isCompleted
  }

  /** A subset as large as its superset is the superset. */
  lemma SubsetOfSameSize<T>(a: set<T>, b: set<T>)
    requires a <= b && |a| == |b|
    ensures a == b
  {
    var rest := b - a;
    assert b == a + rest && a * rest == {};
    assert |rest| == 0;
  }

  /** Counting completed records equals checking all of them: the count test the source uses is exact. */
  lemma CountTestMeansAllDone(done: SectionCompletions, u: UserId, candidates: set<SectionId>)
    ensures |CompletedAmong(done, u, candidates)| == |candidates| <==>
      forall s :: s in candidates ==> SectionDone(done, u, s)
  {
    var k := CompletedAmong(done, u, candidates);
    if |k| == |candidates| {
      SubsetOfSameSize(k, candidates);
    }
    if forall s :: s in candidates ==> SectionDone(done, u, s) {
      assert candidates <= k;
      assert k == candidates;
    }
  }

  /** The questions of `qs` the user has an answer for. */
  function AnsweredAmong(answers: Answers, u: UserId, qs: set<QuestionId>): (r: set<QuestionId>)
    ensures r <= qs
  {
    set q | q in qs && (u, q) in answers
  }

  /**
   * The completion test of the answer view and the answer signal: the user's answers to the
   * section's active questions are as many as those questions, and all of them are correct.
   */
  predicate SectionQuizPassed(c: Catalog, answers: Answers, u: UserId, s: SectionId) {
    var qs := ActiveQuestions(c, s);
    var given := AnsweredAmong(answers, u, qs);
    |given| == |qs| && forall q :: q in given ==> answers[(u, q)].isCorrect
  }

  /** The completion test holds exactly when every active question of the section has a correct answer. */
  lemma SectionQuizPassedIff(c: Catalog, answers: Answers, u: UserId, s: SectionId)
    ensures SectionQuizPassed(c, answers, u, s) <==>
      forall q :: q in ActiveQuestions(c, s) ==> (u, q) in answers && answers[(u, q)].isCorrect
  {
    var qs := ActiveQuestions(c, s);
    var given := AnsweredAmong(answers, u, qs);
    if |given| == |qs| {
      SubsetOfSameSize(given, qs);
    }
    if forall q :: q in qs ==> (u, q) in answers {
      assert qs <= given;
      assert given == qs;
    }
  }

  /** The final-exam gate and the "all sections completed" flag: every active section of the room is completed. */
  predicate AllSectionsDone(c: Catalog, done: SectionCompletions, u: UserId, r: RoomId) {
    |CompletedAmong(done, u, ActiveSections(c, r))| == |ActiveSections(c, r)|
  }

  lemma AllSectionsDoneIff(c: Catalog, done: SectionCompletions, u: UserId, r: RoomId)
    ensures AllSectionsDone(c, done, u, r) <==> forall s :: s in ActiveSections(c, r) ==> SectionDone(done, u, s)
  {
    CountTestMeansAllDone(done, u, ActiveSections(c, r));
  }

  // ---------------------------------------------------------------------------------------
  // Access rules

  /** `Room.is_accessible_by_user`: only the direct prerequisite matters. */
  predicate RoomAccessible(c: Catalog, roomDone: RoomCompletions, u: UserId, r: RoomId)
    requires r in c.rooms
  {
    match c.rooms[r].prerequisite
    case None => true
    case Some(p) => RoomDone(roomDone, u, p)
  }

  /**
   * `Section.is_accessible_by_user`: the room must be open; the section at order 0 is open;
   * another section is open when the user completed as many of the earlier active sections
   * of the room as there are.
   */
  predicate SectionAccessible(c: Catalog, roomDone: RoomCompletions, done: SectionCompletions, u: UserId, s: SectionId)
    requires c.WellFormed() && s in c.sections
  {
    var sec := c.sections[s];
    && RoomAccessible(c, roomDone, u, sec.room)
    && (sec.order == 0 ||
        var earlier := EarlierSections(c, sec.room, sec.order);
        |CompletedAmong(done, u, earlier)| == |earlier|)
  }

  /** The unlocking rule stated without counting. */
  lemma SectionAccessibleIff(c: Catalog, roomDone: RoomCompletions, done: SectionCompletions, u: UserId, s: SectionId)
    requires c.WellFormed() && s in c.sections
    ensures var sec := c.sections[s];
      SectionAccessible(c, roomDone, done, u, s) <==>
        && RoomAccessible(c, roomDone, u, sec.room)
        && (sec.order == 0 ||
            forall t :: (t in c.sections && c.sections[t].room == sec.room && c.sections[t].isActive &&
                         c.sections[t].order < sec.order) ==> SectionDone(done, u, t))
  {
    var sec := c.sections[s];
    CountTestMeansAllDone(done, u, EarlierSections(c, sec.room, sec.order));
  }

  /** An inactive earlier section never blocks a later one, and completing sections never locks one. */
  lemma SectionAccessMonotone(c: Catalog, roomDone: RoomCompletions, done: SectionCompletions, more: SectionCompletions,
                              u: UserId, s: SectionId)
    requires c.WellFormed() && s in c.sections
    requires forall t :: SectionDone(done, u, t) ==> SectionDone(more, u, t)
    requires SectionAccessible(c, roomDone, done, u, s)
    ensures SectionAccessible(c, roomDone, more, u, s)
  {
    SectionAccessibleIff(c, roomDone, done, u, s);
    SectionAccessibleIff(c, roomDone, more, u, s);
  }

  /** A section of a locked room is locked. */
  lemma LockedRoomLocksSections(c: Catalog, roomDone: RoomCompletions, done: SectionCompletions, u: UserId, s: SectionId)
    requires c.WellFormed() && s in c.sections
    requires !RoomAccessible(c, roomDone, u, c.sections[s].room)
    ensures !SectionAccessible(c, roomDone, done, u, s)
  {
  }

  /**
   * Room access is not transitive: with rooms 0 <- 1 <- 2 (each requiring the previous one),
   * a completion record for room 1 opens room 2 although room 1 itself is locked.
   */
  lemma RoomAccessNotTransitive()
    ensures var c := Catalog(map[0 := Roadmap(true)],
                             map[0 := Room(0, None, 0, true), 1 := Room(0, Some(0), 1, true), 2 := Room(0, Some(1), 2, true)],
                             map[], map[]);
            var done: RoomCompletions := map[(7, 1) := RoomCompletion(true, Some(0), Some(100.0), None)];
            c.WellFormed() && RoomAccessible(c, done, 7, 2) && !RoomAccessible(c, done, 7, 1)
  {
  }

  // ---------------------------------------------------------------------------------------
  // Answer checking

  /** What `check_answer` compares: the answer stripped and lower-cased. */
  function Normalize(s: string): string {
    Lower(Trim(Python, s))
  }

  /** `Question.check_answer`. */
  predicate CheckAnswer(q: Question, answer: string) {
    Normalize(answer) == Normalize(q.correctAnswer)
  }

  /** Surrounding white space is ignored. */
  lemma CheckAnswerIgnoresPadding(q: Question, w1: string, a: string, w2: string)
    requires AllSpace(Python, w1) && AllSpace(Python, w2)
    ensures CheckAnswer(q, w1 + a + w2) == CheckAnswer(q, a)
  {
    TrimIgnoresPadding(Python, w1, a, w2);
  }

  /** Answers that differ only in letter case are judged alike; the stored answer always matches. */
  lemma CheckAnswerIgnoresCase(q: Question, a: string, b: string)
    requires Lower(a) == Lower(b)
    ensures CheckAnswer(q, a) == CheckAnswer(q, b)
    ensures CheckAnswer(q, q.correctAnswer)
  {
    TrimLowerCommute(Python, a);
    TrimLowerCommute(Python, b);
  }

  /** The view strips the answer before checking it; checking the stripped text gives the same verdict. */
  lemma CheckAnswerOfTrimmed(q: Question, a: string)
    ensures CheckAnswer(q, Trim(Python, a)) == CheckAnswer(q, a)
  {
    TrimIdempotent(Python, a);
  }

  /** Inner white space is significant: "a b" does not match "ab". */
  lemma InnerSpaceMatters()
    ensures !CheckAnswer(Question(None, None, "ab", true), "a b")
  {
    var spaced, joined := "a b", "ab";
    assert !IsSpace(Python, spaced[0]) && !IsSpace(Python, spaced[2]);
    assert TrimStart(Python, spaced) == spaced && TrimEnd(Python, spaced) == spaced;
    assert !IsSpace(Python, joined[0]) && !IsSpace(Python, joined[1]);
    assert TrimStart(Python, joined) == joined && TrimEnd(Python, joined) == joined;
    assert |Normalize(spaced)| == 3 && |Normalize(joined)| == 2;
  }
}
