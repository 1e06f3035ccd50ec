/**
 * The quiz script served from `static/js/quiz.js`: the empty-answer check before a
 * submission, the response cache keyed by question and answer, the notification icons, and
 * the answers kept in local storage while the learner types.
 */
module QuizSystem {
  import opened Wrappers
  import opened Text

  /** The part of a server reply the cache looks at. */
  datatype Data = Data(success: bool, isCorrect: bool)

  /** The outcome of `fetch` plus `response.json()`: a failure (network or HTTP error) or the reply. */
  datatype Fetched = FetchFailed | Received(data: Data)

  datatype Outcome = EmptyWarning | SubmitFailed | Answered(data: Data)

  /** `${questionId}_${answer}`. */
  function CacheKey(questionId: string, answer: string): string {
    questionId + "_" + answer
  }

  /** With the numeric ids the quiz pages use, different submissions never share a cache entry. */
  lemma CacheKeyInjective(q1: nat, a1: string, q2: nat, a2: string)
    requires CacheKey(NatToString(q1), a1) == CacheKey(NatToString(q2), a2)
    ensures q1 == q2 && a1 == a2
  {
    var s1, s2 := NatToString(q1), NatToString(q2);
    assert CacheKey(s1, a1) == s1 + ("_" + a1);
    assert CacheKey(s2, a2) == s2 + ("_" + a2);
    DigitsPrefixUnique(NatToString(q1), "_" + a1, NatToString(q2), "_" + a2);
    NatToStringInjective(q1, q2);
    assert a1 == ("_" + a1)[1..] && a2 == ("_" + a2)[1..];
  }

  /** The cache after one `submitAnswer`: a hit changes nothing; a miss stores only a successful reply. */
  function CacheAfter(cache: map<string, Data>, key: string, fetched: Fetched): (after: map<string, Data>)
    ensures forall k :: k in cache ==> k in after && after[k] == cache[k]
    ensures forall k :: k in after && k !in cache ==> k == key && fetched.Received? && after[k] == fetched.data && after[k].success
  {
    if key !in cache && fetched.Received? && fetched.data.success then cache[key := fetched.data] else cache
  }

  /** After a successful reply, the same question and answer are served from the cache. */
  lemma SuccessIsCached(cache: map<string, Data>, key: string, data: Data, later: Fetched)
    requires key !in cache && data.success
    ensures var c1 := CacheAfter(cache, key, Received(data)); key in c1 && c1[key] == data && CacheAfter(c1, key, later) == c1
  {
  }

  /** A failed or unsuccessful reply is asked for again next time. */
  lemma FailureIsNotCached(cache: map<string, Data>, key: string, fetched: Fetched)
    requires key !in cache && (fetched.FetchFailed? || !fetched.data.success)
    ensures CacheAfter(cache, key, fetched) == cache
  {
  }

  /** `getIconForType`: the four known kinds have their own icon; anything else gets the info icon. */
  function IconForType(kind: string): (icon: string)
    ensures kind == "success" ==> icon == "check-circle"
    ensures kind == "error" ==> icon == "exclamation-circle"
    ensures kind == "warning" ==> icon == "exclamation-triangle"
    ensures kind !in {"success", "error", "warning"} ==> icon == "info-circle"
  {
    var icons := map["success" := "check-circle", "error" := "exclamation-circle",
                     "warning" := "exclamation-triangle", "info" := "info-circle"];
    if kind in icons then icons[kind] else "info-circle"
  }

  /** An answer input: the question id found on its block's submit button, and its current text. */
  datatype Input = Input(questionId: Option<string>, value: string)

  /** `answer_${questionId}`. */
  function StorageKey(questionId: string): string {
    "answer_" + questionId
  }

  /** What `loadSavedAnswers` leaves in one input: a saved, non-empty answer, but only into an empty input. */
  function Restore(storage: map<string, string>, input: Input): (value: string)
    ensures input.value != "" ==> value == input.value
    ensures value != input.value ==>
      (&& input.questionId.Some? && input.questionId.value != ""
       && StorageKey(input.questionId.value) in storage && value == storage[StorageKey(input.questionId.value)])
  {
    if input.questionId.Some? && input.questionId.value != "" && StorageKey(input.questionId.value) in storage
       && storage[StorageKey(input.questionId.value)] != "" && input.value == ""
    then storage[StorageKey(input.questionId.value)]
    else input.value
  }

  /** The script's state: the response cache, and the browser's local storage. */
  class QuizSystem {
    var cache: map<string, Data>
    var storage: map<string, string>

    /** Only successful replies are ever cached. */
    ghost predicate Valid()
      reads this
    {
      forall k :: k in cache ==> cache[k].success
    }

    constructor (storage0: map<string, string>)
      ensures Valid() && cache == map[] && storage == storage0
    {
      cache, storage := map[], storage0;
    }

    /** `submitAnswer`: a cached reply is returned without a request; otherwise the fetched one. */
    method SubmitAnswer(questionId: string, answer: string, fetched: Fetched) returns (result: Option<Data>, requested: bool)
      requires Valid()
      modifies this
      ensures Valid() && storage == old(storage)
      ensures cache == CacheAfter(old(cache), CacheKey(questionId, answer), fetched)
      ensures requested <==> CacheKey(questionId, answer) !in old(cache)
      ensures !requested ==> result == Some(old(cache)[CacheKey(questionId, answer)])
      ensures requested ==> result == if fetched.Received? then Some(fetched.data) else None
    {
      var key := CacheKey(questionId, answer);
      if key in cache {
        return Some(cache[key]), false;
      }
      requested := true;
      if fetched.FetchFailed? {
        return None, requested;
      }
      var data := fetched.data;
      if data.success {
        cache := cache[key := data];
      }
      result := Some(data);
    }

    /** `handleSubmission`: a blank answer only shows a warning; otherwise the trimmed answer is submitted. */
    method HandleSubmission(questionId: string, value: string, fetched: Fetched) returns (outcome: Outcome)
      requires Valid()
      modifies this
      ensures Valid() && storage == old(storage)
      ensures Trim(JavaScript, value) == [] ==> outcome == EmptyWarning && cache == old(cache)
      ensures Trim(JavaScript, value) != [] ==>
        (outcome != EmptyWarning && cache == CacheAfter(old(cache), CacheKey(questionId, Trim(JavaScript, value)), fetched))
      ensures Trim(JavaScript, value) != [] ==>
        var key := CacheKey(questionId, Trim(JavaScript, value));
        outcome == if key in old(cache) then Answered(old(cache)[key])
                   else if fetched.Received? then Answered(fetched.data) else SubmitFailed
    {
      var answer := Trim(JavaScript, value);
      if answer == [] {
        return EmptyWarning;
      }
      var result, _ := SubmitAnswer(questionId, answer, fetched);
      outcome := if result.Some? then Answered(result.value) else SubmitFailed;
    }

    /** `autoSaveAnswer`: the input's text is kept under its question's key. */
    method AutoSaveAnswer(input: Input)
      modifies this
      ensures cache == old(cache)
      ensures storage == if input.questionId.Some? && input.questionId.value != ""
                         then old(storage)[StorageKey(input.questionId.value) := input.value] else old(storage)
    {
      if input.questionId.Some? && input.questionId.value != "" {
        storage := storage[StorageKey(input.questionId.value) := input.value];
      }
    }

    /** `loadSavedAnswers`: each input on the page, in order, gets its restored text. */
    method LoadSavedAnswers(inputs: seq<Input>) returns (values: seq<string>)
      ensures |values| == |inputs|
      ensures forall i :: 0 <= i < |inputs| ==> values[i] == Restore(storage, inputs[i])
    {
      values := [];
      var i := 0;
      while i < |inputs|
        invariant 0 <= i <= |inputs| && |values| == i
        invariant forall j :: 0 <= j < i ==> values[j] == Restore(storage, inputs[j])
      {
        values := values + [Restore(storage, inputs[i])];
        i := i + 1;
      }
    }
  }

  /** What was typed comes back into the emptied input after a reload, unless nothing was typed. */
  lemma SaveThenRestore(storage: map<string, string>, q: string, typed: string)
    requires q != "" && typed != ""
    ensures Restore(storage[StorageKey(q) := typed], Input(Some(q), "")) == typed
  {
  }
}
