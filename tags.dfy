/**
 * The template filters and tags: percentages, remaining trial days, duration text, and the
 * badge and section-status classifications with their precedence rules.
 */
module Tags {
  import opened Wrappers
  import opened Text
  import opened Models

  // ---------------------------------------------------------------------------------------
  // Percentages

  /** `progress_percentage`, as an exact rational (the rounding to one decimal is not modelled). */
  function ProgressPercentage(current: nat, total: nat): (p: real)
    ensures total == 0 ==> p == 0.0
    ensures total > 0 ==> p * (total as real) == 100.0 * (current as real)
  {
    if total == 0 then 0.0 else (current as real / total as real) * 100.0
  }

  /** A count out of a total gives a percentage between 0 and 100, and 100 exactly for all of it. */
  lemma PercentageBounds(current: nat, total: nat)
    requires current <= total
    ensures 0.0 <= ProgressPercentage(current, total) <= 100.0
    ensures ProgressPercentage(current, total) == 100.0 <==> total > 0 && current == total
  {
    var p := ProgressPercentage(current, total);
    if total > 0 {
      var t := total as real;
      assert p * t == 100.0 * (current as real);
      if p == 100.0 {
        assert 100.0 * t == 100.0 * (current as real);
      }
    }
  }

  /** More done out of the same total never shows less progress. */
  lemma PercentageMonotone(c1: nat, c2: nat, total: nat)
    requires c1 <= c2
    ensures ProgressPercentage(c1, total) <= ProgressPercentage(c2, total)
  {
    if total > 0 {
      var t := total as real;
      var p1, p2 := ProgressPercentage(c1, total), ProgressPercentage(c2, total);
      assert p1 * t <= p2 * t;
    }
  }

  lemma SubsetCard<T>(a: set<T>, b: set<T>)
    requires a <= b
    ensures |a| <= |b|
  {
    assert b == a + (b - a);
    assert a * (b - a) == {};
  }

  /** `get_completion_rate`: completed active sections of the room, as a percentage of all of them. */
  function CompletionRate(c: Catalog, done: SectionCompletions, u: UserId, r: RoomId): (rate: real)
    ensures ActiveSections(c, r) == {} ==> rate == 0.0
    ensures 0.0 <= rate <= 100.0
    ensures rate == 100.0 <==> ActiveSections(c, r) != {} && AllSectionsDone(c, done, u, r)
  {
    var sections := ActiveSections(c, r);
    if sections == {} then 0.0
    else
      var completed := CompletedAmong(done, u, sections);
      SubsetCard(completed, sections);
      PercentageBounds(|completed|, |sections|);
      ProgressPercentage(|completed|, |sections|)
  }

  /** The user's correct answers among a set of questions. */
  function CorrectAmong(answers: Answers, u: UserId, qs: set<QuestionId>): (r: set<QuestionId>)
    ensures r <= AnsweredAmong(answers, u, qs)
  {
    set q | q in qs && (u, q) in answers && answers[(u, q)].isCorrect
  }

  /**
   * `get_quiz_score`: nothing without active questions or without any answer to them; otherwise
   * the correct answers as a percentage of the section's questions, answered or not.
   */
  function QuizScore(c: Catalog, answers: Answers, u: UserId, s: SectionId): (score: Option<real>)
    ensures score.None? <==> ActiveQuestions(c, s) == {} || AnsweredAmong(answers, u, ActiveQuestions(c, s)) == {}
    ensures score.Some? ==> 0.0 <= score.value <= 100.0
    ensures score.Some? ==> score.value * (|ActiveQuestions(c, s)| as real) ==
                            100.0 * (|CorrectAmong(answers, u, ActiveQuestions(c, s))| as real)
  {
    var qs := ActiveQuestions(c, s);
    if qs == {} then None
    else if AnsweredAmong(answers, u, qs) == {} then None
    else
      var correct := CorrectAmong(answers, u, qs);
      SubsetCard(correct, qs);
      PercentageBounds(|correct|, |qs|);
      Some(ProgressPercentage(|correct|, |qs|))
  }

  /** A full quiz score is exactly the condition under which the section is completed. */
  lemma FullQuizScoreIffPassed(c: Catalog, answers: Answers, u: UserId, s: SectionId)
    requires ActiveQuestions(c, s) != {}
    ensures QuizScore(c, answers, u, s) == Some(100.0) <==> SectionQuizPassed(c, answers, u, s)
  {
    var qs := ActiveQuestions(c, s);
    var given := AnsweredAmong(answers, u, qs);
    var correct := CorrectAmong(answers, u, qs);
    SubsetCard(correct, given);
    SubsetCard(given, qs);
    if QuizScore(c, answers, u, s) == Some(100.0) {
      PercentageBounds(|correct|, |qs|);
      SubsetOfSameSize(correct, qs);
      SubsetOfSameSize(given, qs);
    }
    if SectionQuizPassed(c, answers, u, s) {
      SubsetOfSameSize(given, qs);
      assert given <= correct;
      assert correct == given;
      assert given != {};
      PercentageBounds(|correct|, |qs|);
    }
  }

  // ---------------------------------------------------------------------------------------
  // Trial days

  /**
   * `trial_days_remaining`: nothing for paid accounts, 0 without an end date, otherwise the
   * whole days left (Python's `timedelta.days` rounds down), never below 0.
   */
  function TrialDaysRemaining(u: User, now: Time): (d: Option<nat>)
    ensures d.None? <==> u.isPaid
    ensures !u.isPaid && u.trialEnd.None? ==> d == Some(0)
    ensures !u.isPaid && u.trialEnd.Some? && u.trialEnd.value - now < Day ==> d == Some(0)
    ensures !u.isPaid && u.trialEnd.Some? && u.trialEnd.value - now >= Day ==>
      d.value * Day <= u.trialEnd.value - now < (d.value + 1) * Day
  {
    if u.isPaid then None
    else if u.trialEnd.Some? then
      var remaining := (u.trialEnd.value - now) / Day;
      Some(if remaining > 0 then remaining else 0)
    else Some(0)
  }

  /** A positive count of days left means the trial is active. */
  lemma DaysLeftMeansActive(u: User, now: Time)
    requires u.isPaid || u.trialEnd.Some?
    requires TrialDaysRemaining(u, now).Some? && TrialDaysRemaining(u, now).value > 0
    ensures IsTrialActive(u, now)
  {
  }

  /** An expired trial shows 0 days; so does the last day of an active one. */
  lemma ZeroDaysLeft(u: User, now: Time)
    requires !u.isPaid && u.trialEnd.Some?
    ensures !IsTrialActive(u, now) ==> TrialDaysRemaining(u, now) == Some(0)
    ensures now < u.trialEnd.value < now + Day ==> IsTrialActive(u, now) && TrialDaysRemaining(u, now) == Some(0)
  {
  }

  // ---------------------------------------------------------------------------------------
  // Duration text

  /** `format_duration`: "Ns" under a minute, "Mm" under an hour, otherwise "Hh Mm". */
  function FormatDuration(seconds: int): string {
    if seconds < 60 then IntToString(seconds) + "s"
    else if seconds < 3600 then NatToString(seconds / 60) + "m"
    else NatToString(seconds / 3600) + "h " + NatToString((seconds % 3600) / 60) + "m"
  }

  /** Reads a duration text back as a number of seconds. */
  function ParseDuration(r: string): Option<nat> {
    if |r| < 2 then None
    else
      var body, unit := r[..|r| - 1], r[|r| - 1];
      if unit == 's' && AllDigits(body) then Some(ParseDigits(body))
      else if unit == 'm' && AllDigits(body) then Some(60 * ParseDigits(body))
      else if unit == 'm' then
        var k := DigitRun(body);
        if k + 2 < |body| && body[k..k + 2] == "h " && AllDigits(body[k + 2..]) then
          Some(3600 * ParseDigits(body[..k]) + 60 * ParseDigits(body[k + 2..]))
        else None
      else None
  }

  /**
   * The duration text loses nothing under a minute and only the seconds past the last whole
   * minute above it.
   */
  lemma FormatDurationRoundTrip(s: nat)
    ensures ParseDuration(FormatDuration(s)) == Some(if s < 60 then s else s - s % 60)
  {
    var r := FormatDuration(s);
    if s < 60 {
      ParseNatToString(s);
      assert r[..|r| - 1] == NatToString(s);
    } else if s < 3600 {
      ParseNatToString(s / 60);
      assert r[..|r| - 1] == NatToString(s / 60);
    } else {
      var h, m := NatToString(s / 3600), NatToString((s % 3600) / 60);
      var body := r[..|r| - 1];
      assert body == h + ("h " + m);
      DigitRunAppend(h, "h " + m);
      assert !IsDigit(body[|h|]);
      assert body[..|h|] == h && body[|h|..|h| + 2] == "h " && body[|h| + 2..] == m;
      ParseNatToString(s / 3600);
      ParseNatToString((s % 3600) / 60);
      ClockArith(s);
    }
  }

  // ---------------------------------------------------------------------------------------
  // Badges and section status

  datatype Badge = Premium | Trial | Expired

  /** `user_badge`: payment first, then the trial; Expired only for neither. */
  function UserBadge(u: User, now: Time): (b: Badge)
    requires u.isPaid || u.trialEnd.Some?
    ensures b == Premium <==> u.isPaid
    ensures b == Trial <==> !u.isPaid && now < u.trialEnd.value
    ensures b == Expired <==> !u.isPaid && u.trialEnd.value <= now
  {
    if u.isPaid then Premium else if IsTrialActive(u, now) then Trial else Expired
  }

  /** The badge's CSS class, label and icon. */
  function BadgeStyle(b: Badge): (string, string, string) {
    match b
    case Premium => ("bg-success", "Premium", "fas fa-crown")
    case Trial => ("bg-warning text-dark-bg", "Trial", "fas fa-clock")
    case Expired => ("bg-danger", "Expired", "fas fa-times")
  }

  datatype Status = Completed | Available | Locked

  /** `section_status`: a completed record wins over access; Locked only for neither. */
  function SectionStatus(c: Catalog, roomDone: RoomCompletions, done: SectionCompletions, u: UserId, s: SectionId)
    : (st: Status)
    requires c.WellFormed() && s in c.sections
    ensures st == Completed <==> SectionDone(done, u, s)
    ensures st == Available <==> !SectionDone(done, u, s) && SectionAccessible(c, roomDone, done, u, s)
    ensures st == Locked <==> !SectionDone(done, u, s) && !SectionAccessible(c, roomDone, done, u, s)
  {
    if SectionDone(done, u, s) then Completed
    else if SectionAccessible(c, roomDone, done, u, s) then Available
    else Locked
  }

  /** The status's CSS class, label and icon. */
  function StatusStyle(st: Status): (string, string, string) {
    match st
    case Completed => ("bg-success", "Completed", "fas fa-check")
    case Available => ("bg-primary", "Available", "fas fa-play")
    case Locked => ("bg-gray-600", "Locked", "fas fa-lock")
  }

  /** In a locked room every section the user has not completed shows as locked. */
  lemma LockedRoomShowsLocked(c: Catalog, roomDone: RoomCompletions, done: SectionCompletions, u: UserId, s: SectionId)
    requires c.WellFormed() && s in c.sections
    requires !RoomAccessible(c, roomDone, u, c.sections[s].room) && !SectionDone(done, u, s)
    ensures SectionStatus(c, roomDone, done, u, s) == Locked
  {
    LockedRoomLocksSections(c, roomDone, done, u, s);
  }

  /** A section completed earlier still shows as completed after its room has been locked again. */
  lemma CompletedWinsOverLocked(c: Catalog, roomDone: RoomCompletions, done: SectionCompletions, u: UserId, s: SectionId)
    requires c.WellFormed() && s in c.sections
    requires !RoomAccessible(c, roomDone, u, c.sections[s].room) && SectionDone(done, u, s)
    ensures SectionStatus(c, roomDone, done, u, s) == Completed
    ensures !SectionAccessible(c, roomDone, done, u, s)
  {
    LockedRoomLocksSections(c, roomDone, done, u, s);
  }
}
