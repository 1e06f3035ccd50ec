/**
 * The quiz page script served from `staticfiles/js/quiz.js`: answer validation, the guard
 * against a second submission of a question in flight, the set of questions answered
 * correctly, the reload test, question-id extraction and the clock-style duration text.
 */
module QuizClient {
  import opened Wrappers
  import opened Text

  /**
   * `validateAnswer`: the trimmed value must be non-empty and, when the input carries a
   * minimum length, at least that long.  `minLength` is the parsed `data-min-length`, absent
   * when the attribute is missing or empty.
   */
  predicate ValidateAnswer(value: string, minLength: Option<int>) {
    var trimmed := Trim(JavaScript, value);
    trimmed != [] && (minLength.Some? ==> |trimmed| >= minLength.value)
  }

  /** Validation looks only at the trimmed value: surrounding white space never changes the verdict. */
  lemma ValidateIgnoresPadding(w1: string, value: string, w2: string, minLength: Option<int>)
    requires AllSpace(JavaScript, w1) && AllSpace(JavaScript, w2)
    ensures ValidateAnswer(w1 + value + w2, minLength) == ValidateAnswer(value, minLength)
    ensures ValidateAnswer(value, minLength) ==> Trim(JavaScript, value) != []
  {
    TrimIgnoresPadding(JavaScript, w1, value, w2);
  }

  /**
   * The browser and the server disagree on white space: a lone U+001C passes the browser's
   * check, yet the server's `strip()` turns it into an empty answer, which it refuses.
   */
  lemma ClientAndServerBlanksDiffer()
    ensures ValidateAnswer("\U{1C}", None)
    ensures Trim(Python, Trim(JavaScript, "\U{1C}")) == ""
  {
    assert !IsSpace(JavaScript, '\U{1C}') && IsSpace(Python, '\U{1C}');
    assert TrimStart(JavaScript, "\U{1C}") == "\U{1C}";
    assert TrimEnd(JavaScript, "\U{1C}") == "\U{1C}";
    assert TrimStart(Python, "\U{1C}") == TrimStart(Python, "");
  }

  /** A server reply as the page sees it. */
  datatype Reply = Reply(success: bool, isCorrect: bool)

  datatype SubmitOutcome = Rejected | AlreadyPending | Sent(answer: string)

  /** The page state: questions with a request in flight, and questions answered correctly. */
  class QuizState {
    var submitting: set<string>
    var completed: set<string>

    constructor ()
      ensures submitting == {} && completed == {}
    {
      submitting, completed := {}, {};
    }

    /**
     * `handleQuizSubmission` up to the request: an invalid answer is refused before the
     * in-flight set is looked at; a question already in flight is not sent again; otherwise
     * the question joins the in-flight set and its trimmed answer is sent.
     */
    method Submit(questionId: string, value: string, minLength: Option<int>) returns (outcome: SubmitOutcome)
      modifies this
      ensures completed == old(completed)
      ensures !ValidateAnswer(value, minLength) ==> outcome == Rejected && submitting == old(submitting)
      ensures ValidateAnswer(value, minLength) && questionId in old(submitting) ==>
        outcome == AlreadyPending && submitting == old(submitting)
      ensures ValidateAnswer(value, minLength) && questionId !in old(submitting) ==>
        outcome == Sent(Trim(JavaScript, value)) && submitting == old(submitting) + {questionId}
    {
      if !ValidateAnswer(value, minLength) {
        return Rejected;
      }
      if questionId in submitting {
        return AlreadyPending;
      }
      submitting := submitting + {questionId};
      outcome := Sent(Trim(JavaScript, value));
    }

    /**
     * The request settles: `handleSubmissionResponse` records a correct answer (a network
     * error arrives as `None`), then the `finally` step takes the question out of flight.
     */
    method Settle(questionId: string, reply: Option<Reply>)
      modifies this
      ensures submitting == old(submitting) - {questionId}
      ensures completed == if reply.Some? && reply.value.success && reply.value.isCorrect
                           then old(completed) + {questionId} else old(completed)
    {
      if reply.Some? && reply.value.success && reply.value.isCorrect {
        completed := completed + {questionId};
      }
      submitting := submitting - {questionId};
    }
  }

  /** `shouldReloadPage`: every quiz question on the page has been answered correctly. */
  predicate ShouldReloadPage(completed: set<string>, totalQuestions: nat) {
    |completed| >= totalQuestions
  }

  /** Once all the page's questions are completed, the page reloads. */
  lemma AllCompletedReloads(completed: set<string>, onPage: set<string>)
    requires onPage <= completed
    ensures ShouldReloadPage(completed, |onPage|)
  {
    assert completed == onPage + (completed - onPage);
    assert onPage * (completed - onPage) == {};
  }

  /**
   * `extractQuestionId`: the element id, or else its `data-question-id`, with the first
   * "question-" removed; nothing when both are missing or empty.
   */
  function ExtractQuestionId(elementId: string, dataId: Option<string>): (id: Option<string>)
    ensures id.None? <==> elementId == "" && (dataId.None? || dataId.value == "")
  {
    var raw := if elementId != "" then elementId else dataId.GetOr("");
    if raw == "" then None else Some(ReplaceFirst(raw, "question-", ""))
  }

  /** A string without the pattern is left as it is. */
  lemma {:induction false} ReplaceFirstAbsent(s: string, pattern: string, replacement: string)
    requires !Contains(s, pattern)
    ensures ReplaceFirst(s, pattern, replacement) == s
    decreases |s|
  {
    if s != [] {
      ReplaceFirstAbsent(s[1..], pattern, replacement);
    }
  }

  /** The ids the quiz template gives its question blocks yield the question number. */
  lemma ExtractFromQuestionBlock(n: nat, dataId: Option<string>)
    ensures ExtractQuestionId("question-" + NatToString(n), dataId) == Some(NatToString(n))
  {
    var s := "question-" + NatToString(n);
    assert s[..9] == "question-" && s[9..] == NatToString(n);
    assert StartsWith(s, "question-");
    assert ReplaceFirst(s, "question-", "") == "" + s[9..];
    assert ReplaceFirst(s, "question-", "") == NatToString(n);
    assert ExtractQuestionId(s, dataId) == Some(ReplaceFirst(s, "question-", ""));
  }

  /** Only the first "question-" goes. */
  lemma ExtractRemovesOnlyFirst()
    ensures ExtractQuestionId("question-question-1", None) == Some("question-1")
  {
    var s := "question-question-1";
    assert s[..9] == "question-" && s[9..] == "question-1";
    assert StartsWith(s, "question-");
    assert ReplaceFirst(s, "question-", "") == "" + s[9..];
    assert ReplaceFirst(s, "question-", "") == "question-1";
    assert ExtractQuestionId(s, None) == Some(ReplaceFirst(s, "question-", ""));
  }

  // ---------------------------------------------------------------------------------------
  // Clock-style durations (`SavoirUtils.formatDuration`, also in `static/js/quiz.js`)

  /** "h:mm:ss" from one hour on, otherwise "m:ss"; minutes and seconds padded to two digits. */
  function FormatClock(seconds: nat): string {
    var hrs, mins, secs := seconds / 3600, (seconds % 3600) / 60, seconds % 60;
    if hrs > 0 then NatToString(hrs) + ":" + PadStart2(NatToString(mins)) + ":" + PadStart2(NatToString(secs))
    else NatToString(mins) + ":" + PadStart2(NatToString(secs))
  }

  /** Reads a clock text back as seconds. */
  function ParseClock(r: string): Option<nat> {
    if |r| >= 4 && r[|r| - 3] == ':' && AllDigits(r[|r| - 2..]) then
      ParseClockRest(r[..|r| - 3], ParseDigits(r[|r| - 2..]))
    else None
  }

  /** The part before the seconds: plain minutes, or hours and two-digit minutes. */
  function ParseClockRest(rest: string, secs: nat): Option<nat> {
    if AllDigits(rest) then Some(60 * ParseDigits(rest) + secs)
    else if |rest| >= 4 && rest[|rest| - 3] == ':' && AllDigits(rest[|rest| - 2..]) && AllDigits(rest[..|rest| - 3]) then
      Some(3600 * ParseDigits(rest[..|rest| - 3]) + 60 * ParseDigits(rest[|rest| - 2..]) + secs)
    else None
  }

  /** "x:yy" with a two-digit tail splits back into its parts. */
  lemma SplitClock(a: string, b: string)
    requires |b| == 2 && AllDigits(b) && |a| >= 1
    ensures var r := a + ":" + b; |r| >= 4 && r[|r| - 3] == ':' && r[|r| - 2..] == b && r[..|r| - 3] == a
  {
  }

  /** "m:ss" reads back as its minutes and seconds. */
  lemma ParseMinutesSeconds(m: string, sec: string, minutes: nat, seconds: nat)
    requires |m| >= 1 && AllDigits(m) && |sec| == 2 && AllDigits(sec)
    requires minutes == ParseDigits(m) && seconds == ParseDigits(sec)
    ensures ParseClock(m + ":" + sec) == Some(60 * minutes + seconds)
  {
    ParseClockSplit(m, sec);
    ParseClockRestMinutes(m, seconds);
  }

  /** The minutes branch of `ParseClockRest`. */
  lemma ParseClockRestMinutes(rest: string, secs: nat)
    requires AllDigits(rest)
    ensures ParseClockRest(rest, secs) == Some(60 * ParseDigits(rest) + secs)
  {
  }

  /** The hours branch of `ParseClockRest`. */
  lemma ParseClockRestHours(rest: string, secs: nat)
    requires !AllDigits(rest) && |rest| >= 4 && rest[|rest| - 3] == ':'
    requires AllDigits(rest[|rest| - 2..]) && AllDigits(rest[..|rest| - 3])
    ensures ParseClockRest(rest, secs) ==
      Some(3600 * ParseDigits(rest[..|rest| - 3]) + 60 * ParseDigits(rest[|rest| - 2..]) + secs)
  {
  }

  /** Splitting off the seconds. */
  lemma ParseClockSplit(rest: string, sec: string)
    requires |sec| == 2 && AllDigits(sec) && |rest| >= 1
    ensures ParseClock(rest + ":" + sec) == ParseClockRest(rest, ParseDigits(sec))
  {
    SplitClock(rest, sec);
  }

  /** "h:mm" is not a plain number, and splits back into its parts. */
  lemma HoursMinutes(h: string, m: string)
    requires |h| >= 1 && |m| == 2 && AllDigits(m)
    ensures var rest := h + ":" + m;
      && !AllDigits(rest) && |rest| >= 4 && rest[|rest| - 3] == ':' && rest[|rest| - 2..] == m && rest[..|rest| - 3] == h
  {
    var rest := h + ":" + m;
    SplitClock(h, m);
    assert rest[|h|] == ':';
  }

  /** "h:mm" before the seconds reads as hours and minutes. */
  lemma ParseHoursMinutes(h: string, m: string, hours: nat, minutes: nat, x: nat)
    requires |h| >= 1 && AllDigits(h) && |m| == 2 && AllDigits(m)
    requires hours == ParseDigits(h) && minutes == ParseDigits(m)
    ensures ParseClockRest(h + ":" + m, x) == Some(3600 * hours + 60 * minutes + x)
  {
    var rest := h + ":" + m;
    HoursMinutes(h, m);
    ParseClockRestHours(rest, x);
    SameDigits(rest[..|rest| - 3], h);
    SameDigits(rest[|rest| - 2..], m);
  }

  /** "h:mm:ss" reads back as its hours, minutes and seconds. */
  lemma ParseHoursMinutesSeconds(h: string, m: string, sec: string, hours: nat, minutes: nat, seconds: nat)
    requires |h| >= 1 && AllDigits(h) && |m| == 2 && AllDigits(m) && |sec| == 2 && AllDigits(sec)
    requires hours == ParseDigits(h) && minutes == ParseDigits(m) && seconds == ParseDigits(sec)
    ensures ParseClock(h + ":" + m + ":" + sec) == Some(3600 * hours + 60 * minutes + seconds)
  {
    ParseClockSplit(h + ":" + m, sec);
    ParseHoursMinutes(h, m, hours, minutes, seconds);
  }

  lemma SameDigits(a: string, b: string)
    requires AllDigits(a) && a == b
    ensures ParseDigits(a) == ParseDigits(b)
  {
  }

  /** The clock text loses nothing: it reads back as the same number of seconds. */
  lemma ClockRoundTrip(s: nat)
    ensures ParseClock(FormatClock(s)) == Some(s)
  {
    var hrs, mins, secs := s / 3600, (s % 3600) / 60, s % 60;
    ParsePadded(mins);
    ParsePadded(secs);
    SmallNatToString(secs);
    SmallNatToString(mins);
    ClockArith(s);
    var ss, mm := PadStart2(NatToString(secs)), PadStart2(NatToString(mins));
    if hrs > 0 {
      ParseNatToString(hrs);
      ParseHoursMinutesSeconds(NatToString(hrs), mm, ss, hrs, mins, secs);
    } else {
      ParseNatToString(mins);
      ParseMinutesSeconds(NatToString(mins), ss, mins, secs);
    }
  }

  /** Different durations never show the same clock text. */
  lemma FormatClockInjective(s: nat, t: nat)
    requires FormatClock(s) == FormatClock(t)
    ensures s == t
  {
    ClockRoundTrip(s);
    ClockRoundTrip(t);
  }
}
