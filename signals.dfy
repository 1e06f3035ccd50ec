/**
 * The two post-save handlers: a newly created correct answer may complete its section and
 * ensure a room record; a newly created, open completion record of a section without active
 * questions is completed at once.
 */
module Signals {
  import opened Wrappers
  import opened Models
  import opened Store

  /** A room record that is not yet completed: the exam is still to be passed. */
  const PendingRoom := RoomCompletion(false, None, None, None)

  /** `RoomCompletion.objects.get_or_create(..., defaults={'is_completed': False})`. */
  function EnsureRoomCompletion(rd: RoomCompletions, u: UserId, r: RoomId): (out: RoomCompletions)
    ensures out.Keys == rd.Keys + {(u, r)}
    ensures forall k :: k in rd ==> out[k] == rd[k]
    ensures (u, r) !in rd ==> out[(u, r)] == PendingRoom
  {
    if (u, r) in rd then rd else rd[(u, r) := PendingRoom]
  }

  /** Section rows only gain completed-now records of the user; none is removed or reopened. */
  ghost predicate OnlySectionsCompleted(before: SectionCompletions, after: SectionCompletions, u: UserId, now: Time) {
    && (forall k :: k in before ==> k in after)
    && (forall k :: k in after ==> (k in before && after[k] == before[k]) || (k.0 == u && after[k] == SectionCompletion(true, Some(now))))
  }

  /** Room rows outside `except` are unchanged, or are new pending records of the user. */
  ghost predicate OnlyRoomsEnsured(before: RoomCompletions, after: RoomCompletions, u: UserId, except: set<(UserId, RoomId)>) {
    && (forall k :: k in before && k !in except ==> k in after && after[k] == before[k])
    && (forall k :: k in after && k !in before && k !in except ==> k.0 == u && after[k] == PendingRoom)
  }

  lemma OnlySectionsCompletedTrans(a: SectionCompletions, b: SectionCompletions, c: SectionCompletions, u: UserId, now: Time)
    requires OnlySectionsCompleted(a, b, u, now) && OnlySectionsCompleted(b, c, u, now)
    ensures OnlySectionsCompleted(a, c, u, now)
  {
  }

  lemma OnlyRoomsEnsuredTrans(a: RoomCompletions, b: RoomCompletions, c: RoomCompletions, u: UserId, except: set<(UserId, RoomId)>)
    requires OnlyRoomsEnsured(a, b, u, except) && OnlyRoomsEnsured(b, c, u, except)
    ensures OnlyRoomsEnsured(a, c, u, except)
  {
  }

  lemma MarkSectionCompletedGrows(sd: SectionCompletions, u: UserId, s: SectionId, now: Time)
    ensures OnlySectionsCompleted(sd, sd[(u, s) := SectionCompletion(true, Some(now))], u, now)
  {
  }

  lemma EnsureRoomCompletionGrows(rd: RoomCompletions, u: UserId, r: RoomId)
    ensures OnlyRoomsEnsured(rd, EnsureRoomCompletion(rd, u, r), u, {})
  {
  }

  lemma EnsureRoomKeysIn(rd: RoomCompletions, accounts: set<UserId>, rooms: set<RoomId>, u: UserId, r: RoomId)
    requires KeysIn(rd, accounts, rooms) && u in accounts && r in rooms
    ensures KeysIn(EnsureRoomCompletion(rd, u, r), accounts, rooms)
  {
    if (u, r) !in rd {
      KeysInUpdate(rd, accounts, rooms, (u, r), PendingRoom);
    }
  }

  /** Whether `check_section_completion` completes the question's section for this saved answer. */
  predicate CompletesSection(c: Catalog, answers: Answers, u: UserId, q: QuestionId, created: bool)
    requires q in c.questions && (u, q) in answers
  {
    && created
    && answers[(u, q)].isCorrect
    && c.questions[q].section.Some?
    && SectionQuizPassed(c, answers, u, c.questions[q].section.value)
  }

  /** `auto_complete_content_sections`, run after a completion record `(u, s)` is saved. */
  method SectionCompletionSaved(lms: Lms, u: UserId, s: SectionId, created: bool, now: Time)
    requires lms.Valid() && (u, s) in lms.sectionDone
    modifies lms
    ensures lms.Valid()
    ensures lms.users == old(lms.users) && lms.answers == old(lms.answers) && lms.roomDone == old(lms.roomDone)
    ensures lms.certificates == old(lms.certificates) && lms.enrollments == old(lms.enrollments)
    ensures lms.payments == old(lms.payments)
    ensures lms.sectionDone ==
      if created && !old(lms.sectionDone)[(u, s)].isCompleted && ActiveQuestions(lms.catalog, s) == {}
      then old(lms.sectionDone)[(u, s) := SectionCompletion(true, Some(now))]
      else old(lms.sectionDone)
  {
    if created && !lms.sectionDone[(u, s)].isCompleted {
      var questions := ActiveQuestions(lms.catalog, s);
      if questions == {} {
        // Saving the record again runs this handler with `created` false, which does nothing.
        lms.sectionDone := lms.sectionDone[(u, s) := SectionCompletion(true, Some(now))];
      }
    }
  }

  /** `check_section_completion`, run after the answer row `(u, q)` is saved. */
  method AnswerSaved(lms: Lms, u: UserId, q: QuestionId, created: bool, now: Time)
    requires lms.Valid() && (u, q) in lms.answers
    modifies lms
    ensures lms.Valid()
    ensures lms.users == old(lms.users) && lms.answers == old(lms.answers)
    ensures lms.certificates == old(lms.certificates) && lms.enrollments == old(lms.enrollments)
    ensures lms.payments == old(lms.payments)
    ensures !CompletesSection(lms.catalog, lms.answers, u, q, created) ==>
      lms.sectionDone == old(lms.sectionDone) && lms.roomDone == old(lms.roomDone)
    ensures OnlySectionsCompleted(old(lms.sectionDone), lms.sectionDone, u, now)
    ensures OnlyRoomsEnsured(old(lms.roomDone), lms.roomDone, u, {})
    ensures CompletesSection(lms.catalog, lms.answers, u, q, created) ==>
      var s := lms.catalog.questions[q].section.value;
      var r := lms.catalog.sections[s].room;
      && lms.sectionDone == old(lms.sectionDone)[(u, s) := SectionCompletion(true, Some(now))]
      && lms.roomDone == if AllSectionsDone(lms.catalog, lms.sectionDone, u, r)
                         then EnsureRoomCompletion(old(lms.roomDone), u, r) else old(lms.roomDone)
  {
    if !created || !lms.answers[(u, q)].isCorrect {
      return;
    }
    var question := lms.catalog.questions[q];
    if question.section.None? {
      return;
    }
    var s := question.section.value;
    if SectionQuizPassed(lms.catalog, lms.answers, u, s) {
      CompleteSection(lms, u, s, now);
    }
  }

  /**
   * The completing branch of `check_section_completion`: the section row becomes completed now
   * (its own post-save handler then finds it completed and does nothing), and the room record
   * is ensured once every active section of the room is completed.
   */
  method CompleteSection(lms: Lms, u: UserId, s: SectionId, now: Time)
    requires lms.Valid() && u in lms.users && s in lms.catalog.sections
    modifies lms
    ensures lms.Valid()
    ensures lms.users == old(lms.users) && lms.answers == old(lms.answers)
    ensures lms.certificates == old(lms.certificates) && lms.enrollments == old(lms.enrollments)
    ensures lms.payments == old(lms.payments)
    ensures lms.sectionDone == old(lms.sectionDone)[(u, s) := SectionCompletion(true, Some(now))]
    ensures var r := lms.catalog.sections[s].room;
      lms.roomDone == if AllSectionsDone(lms.catalog, lms.sectionDone, u, r)
                      then EnsureRoomCompletion(old(lms.roomDone), u, r) else old(lms.roomDone)
    ensures OnlySectionsCompleted(old(lms.sectionDone), lms.sectionDone, u, now)
    ensures OnlyRoomsEnsured(old(lms.roomDone), lms.roomDone, u, {})
  {
    var recordCreated := (u, s) !in lms.sectionDone;
    MarkSectionDone(lms, u, s, now);
    SectionCompletionSaved(lms, u, s, recordCreated, now);
    var r := lms.catalog.sections[s].room;
    if AllSectionsDone(lms.catalog, lms.sectionDone, u, r) {
      EnsureRoomRecord(lms, u, r);
    }
  }

  /** `section_completion.is_completed = True; completed_at = now(); save()`. */
  method MarkSectionDone(lms: Lms, u: UserId, s: SectionId, now: Time)
    requires lms.Valid() && u in lms.users && s in lms.catalog.sections
    modifies lms
    ensures lms.Valid()
    ensures lms.users == old(lms.users) && lms.answers == old(lms.answers) && lms.roomDone == old(lms.roomDone)
    ensures lms.certificates == old(lms.certificates) && lms.enrollments == old(lms.enrollments)
    ensures lms.payments == old(lms.payments)
    ensures lms.sectionDone == old(lms.sectionDone)[(u, s) := SectionCompletion(true, Some(now))]
    ensures OnlySectionsCompleted(old(lms.sectionDone), lms.sectionDone, u, now)
  {
    MarkSectionCompletedGrows(lms.sectionDone, u, s, now);
    KeysInUpdate(lms.sectionDone, lms.users.Keys, lms.catalog.sections.Keys, (u, s), SectionCompletion(true, Some(now)));
    lms.sectionDone := lms.sectionDone[(u, s) := SectionCompletion(true, Some(now))];
  }

  /** The room's `get_or_create`. */
  method EnsureRoomRecord(lms: Lms, u: UserId, r: RoomId)
    requires lms.Valid() && u in lms.users && r in lms.catalog.rooms
    modifies lms
    ensures lms.Valid()
    ensures lms.users == old(lms.users) && lms.answers == old(lms.answers) && lms.sectionDone == old(lms.sectionDone)
    ensures lms.certificates == old(lms.certificates) && lms.enrollments == old(lms.enrollments)
    ensures lms.payments == old(lms.payments)
    ensures lms.roomDone == EnsureRoomCompletion(old(lms.roomDone), u, r)
    ensures OnlyRoomsEnsured(old(lms.roomDone), lms.roomDone, u, {})
  {
    EnsureRoomCompletionGrows(lms.roomDone, u, r);
    EnsureRoomKeysIn(lms.roomDone, lms.users.Keys, lms.catalog.rooms.Keys, u, r);
    lms.roomDone := EnsureRoomCompletion(lms.roomDone, u, r);
  }

  /** Running the section check again keeps the section completed and refreshes only its time. */
  lemma RecompletionRefreshesTime(sd: SectionCompletions, u: UserId, s: SectionId, now: Time)
    requires SectionDone(sd, u, s)
    ensures var after := sd[(u, s) := SectionCompletion(true, Some(now))];
      && after.Keys == sd.Keys
      && after[(u, s)].isCompleted
      && after[(u, s)] == sd[(u, s)].(completedAt := Some(now))
  {
  }

  /** An existing room record, for example a passed room, survives the signal unchanged. */
  lemma EnsureRoomKeepsPassedRoom(rd: RoomCompletions, u: UserId, r: RoomId)
    requires RoomDone(rd, u, r)
    ensures EnsureRoomCompletion(rd, u, r) == rd
  {
  }
}
