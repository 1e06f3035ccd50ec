# SavoirLearning — access and progression rules

A Dafny model of the core of the SavoirLearning learning platform. In the platform, learners follow roadmaps made of rooms. Rooms are made of sections, and sections hold quiz questions. A room ends with a final exam. A paid subscription, or a 15-day trial, decides what a learner may open.

The model covers:

- **Access rules** (`models.dfy`): the trial window set by `User.save`, trial activity, quiz gating, room prerequisites, section unlocking and answer checking.
- **The tables** (`store.dfy`): `Store.Lms` holds users, answers, section completions, room completions, certificates, enrollments and payments.
  - Each is a map keyed the way the database keys it: one row per `(user, question)`, `(user, section)`, `(user, room)`, and so on. So the uniqueness constraints hold by construction.
  - The catalogue of roadmaps, rooms, sections and questions is a constant value with its foreign keys checked by `Models.WellFormed`.
- **The views and signal handlers** (`views.dfy`, `signals.dfy`): the quiz answer, the final exam, the payment callback and the post-save cascade. Each is a method on `Store.Lms` that states the new content of every table.
- **The `unlock_first_sections` command** (`unlock.dfy`): a loop over rooms and enrolled learners, proved against a table function `Unlock.UnlockTable`. This is the command as intended; as written it fails on its enrolment lookup (see Findings).
- **Template filters and middleware** (`tags.dfy`, `middleware.dfy`).
- **The browser scripts:**
  - `quiz_client.dfy`: `staticfiles/js/quiz.js`.
  - `quiz_system.dfy`: `static/js/quiz.js`.
  - `dashboard.dfy`: `static/js/dashboard-enhancements.js`.
  - `enhanced.dfy`: `static/js/enhanced-features.js`.
  - Scripts that keep state become classes. Their pure helpers become functions.
- **Text helpers** (`text.dfy`): Python `strip`/`lower` and JavaScript `trim`, substring search, and decimal rendering and parsing. Other modules share them.

Conventions:

- A request's time is an integer parameter `now`, in seconds; the scripts' clocks are in milliseconds.
- Responses of `fetch`, the payment gateway's posted status and what local storage holds are parameters.
- Scores and percentages are exact rationals (`real`). The 70% pass mark is the integer comparison `100 * correct >= 70 * total`.

Behaviour of the code worth knowing, which the model follows:

- **Signals are connected.** `lms/apps.py` imports `lms.signals` in `ready`. So every saved answer runs `check_section_completion`, and every new section completion runs `auto_complete_content_sections`. A first-section record that `unlock_first_sections` creates for a section without active questions is therefore completed at once.
- **Quiz access.** `submit_quiz_answer` checks only the paid flag and that the question is active, not that the section or room is open.
- **Room record.** The answer handler ensures the room-completion record only when the answer row was newly created. The view's own section update also applies when an answer is updated.
- **Trial check.** `is_trial_active` fails for an unpaid user whose trial end is unset. `User.save` always sets it, so every stored user has one (`Store.Lms.Valid`).
- **Offline queue.** After a page reload the in-memory offline queue starts empty while local storage keeps the old actions. The next offline submission then overwrites the stored actions (`Enhanced.EnhancedLms.constructor`, `Persisted`).

## Model

| member | source | states |
|---|---|---|
| Models.TrialDefaults | lms/models.py:18-27 | an unset trial start becomes now and an unset end becomes start + 15 days; set values are kept |
| Models.TrialDefaultsIdempotent | lms/models.py:18-27 | saving a second time changes nothing |
| Models.IsTrialActive | lms/models.py:29-34 | definition: never for a paid account, otherwise now before the trial end; its properties are proved in `TrialAndQuizAccessExclusive` |
| Models.CanAccessQuizzes | lms/models.py:36-39 | definition: exactly the paid flag; see `TrialAndQuizAccessExclusive` |
| Models.TrialAndQuizAccessExclusive | lms/models.py:29-39 | a paid user never has an active trial; an unpaid user's trial is active iff now < end; quiz access is exactly the paid flag |
| Models.CountTestMeansAllDone | lms/models.py:127-139 | as many completed earlier sections as earlier sections means every one is completed |
| Models.SectionQuizPassed | lms/signals.py:22-33 | definition: the answers to the section's active questions are as many as the questions and all correct; restated without counting by `SectionQuizPassedIff` |
| Models.AllSectionsDone | lms/views.py:276-284 | definition: the completed active sections of the room are as many as its active sections; restated by `AllSectionsDoneIff` |
| Models.RoomAccessible | lms/models.py:82-93 | definition: no prerequisite, or a completed record for the direct prerequisite; see `RoomAccessNotTransitive` |
| Models.SectionAccessible | lms/models.py:116-139 | definition: the room is open and the section is at order 0 or the earlier active sections are all counted completed; restated by `SectionAccessibleIff` |
| Models.SectionQuizPassedIff | lms/signals.py:22-33 | the count-and-all-correct test holds iff every active question of the section has a correct answer |
| Models.AllSectionsDoneIff | lms/views.py:276-284 | the room's count test holds iff every active section of the room is completed |
| Models.SectionAccessibleIff | lms/models.py:116-139 | a section is open iff its room is open and every earlier active section is completed; order 0 is always open in an open room |
| Models.SectionAccessMonotone | lms/models.py:127-139 | completing more sections never closes an open section |
| Models.LockedRoomLocksSections | lms/models.py:118-120 | no section of a closed room is open |
| Models.RoomAccessNotTransitive | lms/models.py:82-93 | a room whose direct prerequisite is completed is open even when that prerequisite's own prerequisite is not |
| Models.CheckAnswer | lms/models.py:168-170 | definition: the stripped, lower-cased answer equals the stripped, lower-cased stored answer; its properties are the four lemmas below |
| Text.Trim | lms/models.py:170 | definition of `strip` (and of JavaScript `trim` for the pages): both ends lose their whitespace; `TrimStartShape` and `TrimEndShape` prove the result is a slice with no whitespace at its ends |
| Text.Lower | lms/models.py:170 | the result has the same length; `LowerAt` proves each character is lower-cased on its own (ASCII letters only) |
| Models.CheckAnswerIgnoresPadding | lms/models.py:168-170 | surrounding whitespace does not change the verdict |
| Models.CheckAnswerIgnoresCase | lms/models.py:168-170 | letter case does not change the verdict, and the stored answer matches itself |
| Models.CheckAnswerOfTrimmed | lms/models.py:168-170 | the verdict is that of the stripped, lower-cased text |
| Models.InnerSpaceMatters | lms/models.py:168-170 | an answer with an inner space does not match the same words without it |
| Text.TrimIgnoresPadding | lms/models.py:170 | `strip` removes any whitespace added around a text |
| Text.TrimIdempotent | lms/models.py:170 | stripping twice is stripping once |
| Text.TrimLowerCommute | lms/models.py:170 | stripping and lower-casing commute |
| Store.Lms.constructor | lms/models.py:173-296 | an empty store is valid; each table has one row per key (answers line 184, sections 205, rooms 228, certificates 251, enrollments 267) |
| Store.Lms.SaveUser | lms/models.py:15-27 | an update stores the account with the trial defaults; an insert does the same but stamps the start with now (`auto_now_add`), keeping the end computed from the start it carried; no other table changes |
| Signals.EnsureRoomCompletion | lms/signals.py:56-60 | the room record exists afterwards; an existing one is unchanged and a new one is not completed |
| Signals.SectionCompletionSaved | lms/signals.py:63-76 | a new, not-completed record of a section without active questions is completed; every other record is untouched |
| Signals.AnswerSaved | lms/signals.py:10-60 | nothing happens unless the answer is new, correct and belongs to a section; then the section is completed exactly when its quiz is passed, and the room record is ensured when all sections are done |
| Signals.CompleteSection | lms/signals.py:35-60 | the section is completed at now, and the room record is ensured exactly when every section of the room is done |
| Signals.MarkSectionDone | lms/signals.py:36-43 | the section record becomes completed at now and no other table changes |
| Signals.EnsureRoomRecord | lms/signals.py:55-60 | get-or-create of the room record: it exists afterwards, an existing one is unchanged, and no other table changes |
| Signals.RecompletionRefreshesTime | lms/signals.py:36-43 | completing again keeps the section completed and moves only its completion time |
| Signals.EnsureRoomKeepsPassedRoom | lms/signals.py:56-60 | ensuring the room record never undoes a passed exam |
| Unlock.Earliest | lms/management/commands/unlock_first_sections.py:20 | a non-empty set of active sections has one that no other comes before |
| Unlock.FirstSection | lms/management/commands/unlock_first_sections.py:20-22 | a room with active sections has a first one, of the smallest order; none for a room without |
| Unlock.FirstSectionUnique | lms/management/commands/unlock_first_sections.py:20 | the first section of a room is unique |
| Unlock.FreshCompletion | lms/management/commands/unlock_first_sections.py:35-42 | a created record is not completed and has no completion time, unless the section has no active questions, when the signal completes it |
| Unlock.UnlockTable | lms/management/commands/unlock_first_sections.py:16-47 | the table after the command keeps every existing record and adds exactly the missing first-section records |
| Unlock.UnlockedIsTable | lms/management/commands/unlock_first_sections.py:16-47 | any table that keeps the old rows and adds exactly the missing targets equals `UnlockTable` |
| Unlock.UnlockIdempotent | lms/management/commands/unlock_first_sections.py:18-47 | running the command twice gives the table of running it once |
| Unlock.UnlockCoversFirstSections | lms/management/commands/unlock_first_sections.py:28-43 | every enrolled learner of an active room's roadmap has a record of its first section afterwards |
| Unlock.UnlockKeepsOtherSections | lms/management/commands/unlock_first_sections.py:18-47 | records of sections that are no room's first section are untouched |
| Unlock.EnsureSectionRecord | lms/management/commands/unlock_first_sections.py:35-42 | get-or-create: an existing record is kept, a missing one is created with the defaults |
| Unlock.UnlockRoom | lms/management/commands/unlock_first_sections.py:28-43 | the inner loop gives every enrolled learner a record of the room's first section and changes nothing else |
| Unlock.UnlockFirstSections | lms/management/commands/unlock_first_sections.py:12-49 | the command as intended (see Findings): the section table afterwards is `UnlockTable` of the old one; the other tables are unchanged |
| Unlock.UnlockFirstSectionsAsWritten | lms/management/commands/unlock_first_sections.py:16-31 | the command as written changes no table, and ends with a `FieldError` exactly when some active room has an active section |
| Unlock.AsWrittenMissesRecord | lms/management/commands/unlock_first_sections.py:28-42 | where the command as written fails, an enrolled learner without a first-section record gets one from the intended table |
| Unlock.AsWrittenAgreesWithoutQuery | lms/management/commands/unlock_first_sections.py:16-22 | when no active room has an active section, the intended table is the old one, so both versions agree |
| Unlock.ExtraRoomsAddNothing | lms/management/commands/unlock_first_sections.py:16 | inactive rooms and rooms without active sections contribute nothing |
| Views.UpsertAnswer | lms/views.py:227-234 | the row holds the latest text and its verdict; an update keeps the first answer time, a new row is stamped now |
| Views.SaveAnswer | lms/views.py:224-234 | the answer table gains exactly that row, and the signal cascade runs on it |
| Views.MarkSectionIfPassed | lms/views.py:236-256 | the section is marked completed exactly when all its active questions are answered correctly; otherwise the table is unchanged |
| Views.QuizEffect | lms/views.py:236-256 | signal plus view: the section is completed at now exactly when its quiz is passed, otherwise nothing changes; the room record is ensured only for a new answer that completes the room |
| Views.SubmitQuizAnswer | lms/views.py:204-262 | unpaid learners, inactive questions and answers that are blank after stripping are refused with nothing written; otherwise the answer is stored and the section completed when passed |
| Views.ExamKeysDistinct | lms/views.py:293 | different questions read different form fields |
| Views.ExamScore | lms/views.py:313 | definition: 100·correct/total, and 0 without questions; bounds in `ExamPassMark` |
| Views.ExamPassed | lms/views.py:316 | definition: a score of at least 70; equal to `100 * correct >= 70 * total` by `ExamPassMark` |
| Views.ExamPassMark | lms/views.py:312-316 | the score is 100·correct/total (0 without questions), and passing at 70 is `100 * correct >= 70 * total` |
| Views.CorrectStep | lms/views.py:292-310 | the loop's counter counts the correct non-blank answers so far |
| Views.RecordedStep | lms/views.py:292-310 | the answers recorded so far are the non-blank ones |
| Views.SaveExamAnswer | lms/views.py:296-307 | a non-blank exam answer is upserted with its verdict |
| Views.GradeOne | lms/views.py:292-310 | one loop step: a blank answer is skipped; otherwise it is saved and counted when correct |
| Views.GradeExamAnswers | lms/views.py:286-310 | the loop counts exactly the correct non-blank answers and saves exactly the non-blank ones |
| Views.ExamRoomEffect | lms/views.py:318-326 | the room record's completion equals this attempt's result |
| Views.GradeExam | lms/views.py:286-333 | the grading, the room record and the certificate together |
| Views.RecordExamResult | lms/views.py:318-333 | a failing retake overwrites an earlier pass; a pass ensures exactly one certificate |
| Views.SubmitFinalExam | lms/views.py:267-339 | refused, with nothing written, unless the learner is paid and every active section is completed; otherwise graded |
| Views.PaymentStatusOf | lms/views.py:413 | the status is successful iff the posted status is exactly "successful" |
| Views.PaymentCallback | lms/views.py:396-427 | the success reply comes exactly for a known user, a transaction id and the status "successful"; an unknown user or any other status gets the failure reply, a missing transaction id an error; for a known user with a transaction id the payment row is written with the mapped status and the account becomes paid only on success, otherwise nothing is written |
| Views.SuccessfulPaymentOpensQuizzes | lms/views.py:417-420 | after a successful payment the user may take quizzes |
| Views.DashboardRow | lms/views.py:63-71 | a room shows completed iff its record is completed, and accessible iff it has no prerequisite or the prerequisite is completed |
| Views.CompletedRoomOpensDependents | lms/views.py:64-65 | completing a room opens the rooms that require it |
| Views.RoomDetail | lms/views.py:131-140 | the completed sections shown are exactly the completed active ones; the all-done flag holds iff every active section is completed |
| Tags.ProgressPercentage | lms/templatetags/lms_tags.py:13-18 | 0 for an empty total, otherwise current/total·100 |
| Tags.PercentageBounds | lms/templatetags/lms_tags.py:13-18 | between 0 and 100 when current ≤ total, and 100 when they are equal |
| Tags.PercentageMonotone | lms/templatetags/lms_tags.py:13-18 | more progress never shows less |
| Tags.CompletionRate | lms/templatetags/lms_tags.py:120-135 | 0 for a room without active sections, always between 0 and 100, and 100 iff the room has active sections and all are completed |
| Tags.QuizScore | lms/templatetags/lms_tags.py:138-156 | none without questions or answers; otherwise correct answers over the question count, as a percentage |
| Tags.FullQuizScoreIffPassed | lms/templatetags/lms_tags.py:138-156 | the score is 100 iff the section's quiz is passed |
| Tags.TrialDaysRemaining | lms/templatetags/lms_tags.py:21-30 | none for paid users, 0 without an end date, otherwise the whole days left, never negative |
| Tags.DaysLeftMeansActive | lms/templatetags/lms_tags.py:21-30 | a positive number of days left means the trial is active |
| Tags.ZeroDaysLeft | lms/templatetags/lms_tags.py:21-30 | an ended trial shows 0 days, and so does the last day of an active one |
| Tags.FormatDuration | lms/templatetags/lms_tags.py:33-44 | definition: "Ns" under a minute, "Mm" under an hour, otherwise "Hh Mm"; read back by `FormatDurationRoundTrip` |
| Tags.FormatDurationRoundTrip | lms/templatetags/lms_tags.py:33-44 | "Ns", "Mm" and "Hh Mm" read back as the seconds they show (to the minute from one minute on) |
| Tags.UserBadge | lms/templatetags/lms_tags.py:60-81 | exactly one of Premium, Trial and Expired; paid wins, Expired only when neither paid nor in trial |
| Tags.SectionStatus | lms/templatetags/lms_tags.py:84-117 | Completed wins over Available; Locked only when neither completed nor open |
| Tags.LockedRoomShowsLocked | lms/templatetags/lms_tags.py:95-108 | an unfinished section of a closed room shows Locked |
| Tags.CompletedWinsOverLocked | lms/templatetags/lms_tags.py:89-108 | a completed section shows Completed even in a closed room |
| Middleware.TrialExpiration | lms/middleware.py:19-29 | the forwarded request keeps user and path, and gains the trial-expired warning exactly when the warning condition holds |
| Middleware.ShowsTrialWarning | lms/middleware.py:19-24 | definition: signed in, unpaid, trial not active and the path outside /admin/, /upgrade/ and /logout/; see `TrialWarningIff` |
| Middleware.RunTrialExpiration | lms/middleware.py:18-33 | the rest of the stack receives the warned request, and its response is returned unchanged |
| Middleware.TrialWarningIff | lms/middleware.py:19-30 | warned iff authenticated, unpaid, trial not active and the path starts with none of /admin/, /upgrade/, /logout/; a paid user's request passes unchanged |
| Middleware.WarningMatchesBadge | lms/middleware.py:19-24 | on a path that is not exempt, a signed-in user is warned iff their badge is Expired |
| Middleware.ExemptPrefix | lms/middleware.py:22-24 | every path under an exempt prefix is exempt |
| Middleware.CourseProgress | lms/middleware.py:44-52 | only an authenticated user's last login changes, to now, and the rest of the stack's response to the request is returned unchanged |
| QuizClient.ValidateIgnoresPadding | staticfiles/js/quiz.js:138-158 | surrounding whitespace never changes the verdict, and an accepted value is not blank after trimming |
| QuizClient.ClientAndServerBlanksDiffer | staticfiles/js/quiz.js:138-143 | the page's `trim` and the server's `strip` disagree on some whitespace |
| QuizClient.ValidateAnswer | staticfiles/js/quiz.js:138-150 | definition: the trimmed value is not empty and, with a minimum length, at least that long; see `ValidateIgnoresPadding` |
| QuizClient.QuizState.constructor | staticfiles/js/quiz.js:20-22 | no question is in flight or completed |
| QuizClient.QuizState.Submit | staticfiles/js/quiz.js:105-128 | an invalid answer or a question already in flight sends nothing; otherwise the question is marked in flight |
| QuizClient.QuizState.Settle | staticfiles/js/quiz.js:128-217 | the question leaves the in-flight set; only a successful, correct reply adds it to the completed set |
| QuizClient.ShouldReloadPage | staticfiles/js/quiz.js:490-495 | definition: the completed set is at least as large as the page's question count; see `AllCompletedReloads` |
| QuizClient.AllCompletedReloads | staticfiles/js/quiz.js:490-495 | once every question on the page is completed, the page reloads |
| QuizClient.ExtractQuestionId | staticfiles/js/quiz.js:485-488 | nothing exactly when the element has neither an id nor a question id in its data |
| QuizClient.ReplaceFirstAbsent | staticfiles/js/quiz.js:487 | an id without "question-" is returned as it is |
| QuizClient.ExtractFromQuestionBlock | staticfiles/js/quiz.js:485-488 | "question-" followed by digits gives back the digits |
| QuizClient.ExtractRemovesOnlyFirst | staticfiles/js/quiz.js:487 | only the first "question-" is removed |
| QuizClient.FormatClock | staticfiles/js/quiz.js:547-556 | definition: "h:mm:ss" from one hour on, otherwise "m:ss", minutes and seconds padded to two digits; read back by `ClockRoundTrip` |
| QuizClient.ClockRoundTrip | staticfiles/js/quiz.js:547-556 | the "h:mm:ss" / "m:ss" text reads back as the same seconds |
| QuizClient.FormatClockInjective | static/js/quiz.js:455-464 | the same function in this copy: different durations show different texts |
| QuizSystem.CacheKeyInjective | static/js/quiz.js:81 | different questions or answers never share a cache key |
| QuizSystem.CacheAfter | static/js/quiz.js:100-111 | entries are never replaced; a new one is a successful reply under the submitted key |
| QuizSystem.SuccessIsCached | static/js/quiz.js:81-111 | after a successful reply the same submission is served from the cache |
| QuizSystem.FailureIsNotCached | static/js/quiz.js:100-111 | a failed or unsuccessful reply leaves the cache as it was |
| QuizSystem.IconForType | static/js/quiz.js:285-293 | success, error and warning have their icons; anything else gets the info icon |
| QuizSystem.Restore | static/js/quiz.js:305-317 | a saved answer goes only into an empty input |
| QuizSystem.QuizSystem.constructor | static/js/quiz.js:7-9 | the cache starts empty |
| QuizSystem.QuizSystem.SubmitAnswer | static/js/quiz.js:80-112 | a cached reply is returned without a request; otherwise the fetched reply, cached only when successful |
| QuizSystem.QuizSystem.HandleSubmission | static/js/quiz.js:54-111 | an answer blank after trimming only warns and changes nothing; otherwise the trimmed answer is submitted, and the page gets the cached reply on a hit, the fetched reply on a miss, and the failure branch when the fetch fails |
| QuizSystem.QuizSystem.AutoSaveAnswer | static/js/quiz.js:295-303 | the typed text is stored under its question's key |
| QuizSystem.QuizSystem.LoadSavedAnswers | static/js/quiz.js:305-317 | each input gets its restored text |
| QuizSystem.SaveThenRestore | static/js/quiz.js:295-317 | what was typed comes back into the emptied input |
| Dashboard.FormatProgress | static/js/dashboard-enhancements.js:375-378 | 0 for an empty total, otherwise the percentage rounded half up |
| Dashboard.FormatProgressNearExact | static/js/dashboard-enhancements.js:375-378 | within half a point of the exact percentage |
| Dashboard.FormatProgressBounds | static/js/dashboard-enhancements.js:375-378 | at most 100, and exactly 100 when complete |
| Dashboard.TimeAgo | static/js/dashboard-enhancements.js:380-389 | just now under a minute (future dates included), then the largest whole unit |
| Dashboard.AgoText | static/js/dashboard-enhancements.js:385-388 | definition of the texts "Just now", "Nm ago", "Nh ago", "Nd ago"; distinct by `AgoTextInjective` |
| Dashboard.FormatTimeAgo | static/js/dashboard-enhancements.js:380-389 | definition: the text of the classification; see `FutureIsJustNow` |
| Dashboard.FutureIsJustNow | static/js/dashboard-enhancements.js:385 | future dates and the last minute read "Just now" |
| Dashboard.AgoTextLead | static/js/dashboard-enhancements.js:385-388 | only counted texts start with a digit |
| Dashboard.AgoTextInjective | static/js/dashboard-enhancements.js:385-388 | different classifications give different texts |
| Dashboard.SidebarLabel | static/js/dashboard-enhancements.js:58-65 | exactly the four tab names have a label |
| Dashboard.ActiveLinks | static/js/dashboard-enhancements.js:58-73 | definition: a link is active iff the tab has a label and the link's text contains it, one flag per link |
| Dashboard.UpdateSidebarActive | static/js/dashboard-enhancements.js:51-74 | the two loops, clearing every link and then marking the matching ones, leave exactly `ActiveLinks` |
| Dashboard.UnknownTabNoActiveLink | static/js/dashboard-enhancements.js:65-73 | for a tab outside the four, no link is in `ActiveLinks` |
| Dashboard.AnimationFrame | static/js/dashboard-enhancements.js:326-335 | each frame shows a value between start and target, and the target from one second on |
| Dashboard.UpdateDashboardStats | static/js/dashboard-enhancements.js:301-319 | only the bars and counters whose stat is in the data change |
| Enhanced.EnhancedLms.constructor | static/js/enhanced-features.js:7-13 | the in-memory queue starts empty, whatever local storage holds |
| Enhanced.EnhancedLms.GoOnline | static/js/enhanced-features.js:25-29 | online, with the stored queue replayed and both queues emptied |
| Enhanced.EnhancedLms.GoOffline | static/js/enhanced-features.js:31-34 | offline, nothing else changes |
| Enhanced.EnhancedLms.OnSubmit | static/js/enhanced-features.js:42-47 | a quiz or progress form is intercepted iff offline, and then queued |
| Enhanced.EnhancedLms.StoreOfflineAction | static/js/enhanced-features.js:50-63 | one action is appended and the whole queue persisted |
| Enhanced.EnhancedLms.SyncOfflineData | static/js/enhanced-features.js:65-82 | every stored action is attempted once, in order; both queues end empty |
| Enhanced.EnhancedLms.ToggleVoiceCommands | static/js/enhanced-features.js:343-353 | the listening flag flips |
| Enhanced.ProcessVoiceCommand | static/js/enhanced-features.js:355-369 | the first matching group wins: next/continue, search, home/dashboard, help |
| Enhanced.NextWins | static/js/enhanced-features.js:358 | "next" or "continue" anywhere wins over every other word |
| Enhanced.HelpShowsHelp | static/js/enhanced-features.js:366-367 | "help" alone shows the help |
| Enhanced.ClassifySwipe | static/js/enhanced-features.js:395-405 | a gesture is a swipe exactly when abs(dx) > abs(dy) and abs(dx) > 100, and it goes back exactly when it is a swipe with dx > 0 (otherwise forward) |
| Enhanced.SwipeMirror | static/js/enhanced-features.js:395-405 | the mirrored gesture has the opposite effect |
| Enhanced.EnhancedLms.AdjustFontSize | static/js/enhanced-features.js:505-513 | the new size is applied and remembered only inside 12 to 24, so it never leaves that range |
| Enhanced.EnhancedLms.PreloadSectionData | static/js/enhanced-features.js:626-637 | a URL is requested only when not yet preloaded, and remembered only when the request completes |

## Left out

- Django's ORM, HTTP, templates, `messages`, `redirect`, `render`, `JsonResponse` and `login_required`: the views are methods returning an outcome, the tables are maps.
- Concurrency: races between simultaneous `update_or_create` calls are not modelled; every request runs alone. The browser scripts' interleavings are not modelled either: each method runs to completion.
- Enhanced.EnhancedLms.SyncOfflineData, Enhanced.EnhancedLms.PreloadSectionData: the `await`s are not interleavings here. In the page, an action queued by an offline submit while a replayed POST is pending is erased by the final `removeItem` and `offlineQueue = []` (static/js/enhanced-features.js:65-78). A second hover during a pending HEAD request sends it again (static/js/enhanced-features.js:626-636).
- One `now` per request: the code calls `timezone.now()` several times per request; the model reads the clock once.
- Tags.ProgressPercentage, Tags.CompletionRate, Tags.QuizScore, Tags.FullQuizScoreIffPassed: exact rational, not Python's `round(x, 1)` on floats. So "100 exactly when all sections are completed" and "100 exactly when the section's quiz is passed" hold of the exact percentage only. With rounding, 9999 of 10000 already shows 100.0.
- Views.GradeExam, Views.SubmitFinalExam, Views.GradeExamAnswers: the section table and the other rooms' records are given exactly only when no exam question also belongs to a section. The schema allows a question with both `section` and `room` set (lms/models.py:149-150). A correct first answer to such a question runs `check_section_completion` (lms/signals.py:10-60), which can complete that section, re-stamp its `completed_at`, or create a pending record for another room. For those the contract only bounds the change: sections of this learner completed at now (`OnlySectionsCompleted`) and room records added or kept (`OnlyRoomsEnsured`).
- Dashboard.AnimationFrame: requires a non-negative elapsed time. The code subtracts the start time from the frame timestamp without a guard (static/js/dashboard-enhancements.js:324-328), and a negative difference would show a value outside start..target.
- Dashboard.FormatProgress: exact half-up rounding of the rational, not `Math.round` on doubles.
- Unicode case mapping: `Text.Lower` maps ASCII letters only; `strip` and `trim` use their full whitespace sets.
- QuizClient.ValidateIgnoresPadding: the `pattern` RegExp check is left out, `data-min-length` is taken as a whole number (`parseInt` of other text is not modelled), and length counts characters where JavaScript's `length` counts UTF-16 units (a character outside the Basic Multilingual Plane counts 2 there).
- QuizSystem.IconForType: keys of JavaScript's object prototype (`"constructor"` and the like) are treated as unknown kinds.
- Dashboard.UpdateDashboardStats, Dashboard.SidebarLabel: stat values are whole numbers. In the script, `data[statType] + '%'` renders a fractional value as "66.7%" and `null` as "null%" (static/js/dashboard-enhancements.js:306). Keys of the object prototype such as `"constructor"` count as present in `data[...] !== undefined` and in `sectionMappings[activeSection]` (lines 65-66), but not here.
- QuizClient.FormatClock: whole, non-negative seconds only.
- Tags.FormatDuration: whole seconds only; the filter also accepts float seconds (90.5 gives "1.0m"), which is not modelled.
- Views.GradeExam, Views.RecordExamResult: the new certificate's id is a parameter standing for the uuid4 default; that it differs from every id already issued (`unique=True`, lms/models.py:244) is not enforced.
- Middleware.RunTrialExpiration, Middleware.CourseProgress: the rest of the stack is a function from requests to responses, so "called exactly once" is stated only as returning its value on the forwarded request.
- DOM updates, class lists, styles, animations, timers, debounce and notifications: only the decisions behind them are modelled.
- Enhanced.EnhancedLms.SyncOfflineData: the HTTP outcome of each replayed action is not modelled; errors are swallowed in the code, so every action is attempted once either way.
- Speech recognition's start and stop, and a missing recognizer: only the flag is modelled. The service worker is not part of this model.
- Views.PaymentCallback: a non-numeric posted `user_id` makes `User.objects.get` raise `ValueError`, which the view does not catch (lms/views.py:403); posted ids are whole numbers or absent here.
- `room_detail`'s redirect for a closed room: only the flags it shows are modelled.
- Unlock.FirstSection, Unlock.FirstSectionUnique, Unlock.UnlockIdempotent: the code orders by `order` and lets the database break ties; the model breaks them by the smaller id. Uniqueness and idempotence hold because of that choice. In the database, a second run could pick a different section among those tied at the lowest order and create a record for it.
- Unlock.UnlockFirstSections: models the command as intended. As written, the `enrollments__` lookup fails, because the reverse name of `Enrollment.user` is `enrollment` (lms/models.py:259). So the real command raises `FieldError` at the first active room with an active section and writes no record (see Findings, `Unlock.UnlockFirstSectionsAsWritten`). `.distinct()` is implied by sets.
- The seeding commands (`create_*_roadmap.py`, `create_demo_data.py`, `setup_admin_and_data.py`) are fixture data, and `lms/utils.py`, `lms/admin.py`, `lms/admin_dashboard.py`, `lms/forms.py` and the URL configurations are framework code; none is part of this model.

## Findings

| source | as written | input that shows it | evidently intended | confidence | as-written member | corrected member |
|---|---|---|---|---|---|---|
| lms/management/commands/unlock_first_sections.py:28-31 | filters users by `enrollments__roadmap` and `enrollments__is_active`, but `Enrollment.user` (lms/models.py:259) has no `related_name`, so the lookup name is `enrollment` and Django raises `FieldError` | any catalogue with an active room that has an active section, e.g. one learner actively enrolled in that room's roadmap with no record yet | every actively enrolled learner gets a record of the first active section of every active room | not executed; high (Django's default reverse query name is the lower-cased model name) | Unlock.UnlockFirstSectionsAsWritten, Unlock.AsWrittenMissesRecord | Unlock.UnlockFirstSections, Unlock.UnlockTable |
