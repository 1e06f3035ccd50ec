/**
 * The `unlock_first_sections` management command: for every active room, the first active
 * section gets a completion record for every actively enrolled learner of the room's roadmap.
 * Existing records are kept; a new record starts open, and the content-only handler completes
 * it at once when the section has no active questions.
 */
module Unlock {
  import opened Wrappers
  import opened Models
  import opened Store
  import opened Signals

  /** `order_by('order')`: by position, and by id between sections at the same position. */
  predicate SectionBefore(c: Catalog, s: SectionId, t: SectionId)
    requires s in c.sections && t in c.sections
  {
    c.sections[s].order < c.sections[t].order || (c.sections[s].order == c.sections[t].order && s <= t)
  }

  predicate IsFirstSection(c: Catalog, r: RoomId, s: SectionId) {
    s in ActiveSections(c, r) && forall t :: t in ActiveSections(c, r) ==> SectionBefore(c, s, t)
  }

  lemma SectionBeforeTrans(c: Catalog, s: SectionId, t: SectionId, v: SectionId)
    requires s in c.sections && t in c.sections && v in c.sections
    requires SectionBefore(c, s, t) && SectionBefore(c, t, v)
    ensures SectionBefore(c, s, v)
  {
  }

  /** The first element of a non-empty set of sections. */
  ghost function Earliest(c: Catalog, candidates: set<SectionId>): (m: SectionId)
    requires candidates != {} && candidates <= c.sections.Keys
    ensures m in candidates && forall t :: t in candidates ==> SectionBefore(c, m, t)
    decreases |candidates|
  {
    var x :| x in candidates;
    if candidates == {x} then x
    else
      var m := Earliest(c, candidates - {x});
      if SectionBefore(c, x, m) then
        assert forall t :: t in candidates - {x} ==> SectionBefore(c, x, t) by {
          forall t | t in candidates - {x} ensures SectionBefore(c, x, t) {
            SectionBeforeTrans(c, x, m, t);
          }
        }
        x
      else
        m
  }

  lemma FirstSectionExists(c: Catalog, r: RoomId)
    requires ActiveSections(c, r) != {}
    ensures exists s :: IsFirstSection(c, r, s)
  {
    var s := Earliest(c, ActiveSections(c, r));
    assert IsFirstSection(c, r, s);
  }

  /** `room.sections.filter(is_active=True).order_by('order').first()`. */
  function FirstSection(c: Catalog, r: RoomId): (first: Option<SectionId>)
    ensures first.None? <==> ActiveSections(c, r) == {}
    ensures first.Some? ==> IsFirstSection(c, r, first.value)
  {
    if ActiveSections(c, r) == {} then None
    else
      FirstSectionExists(c, r);
      var s :| IsFirstSection(c, r, s);
      Some(s)
  }

  /** There is only one first section. */
  lemma FirstSectionUnique(c: Catalog, r: RoomId, s: SectionId, t: SectionId)
    requires IsFirstSection(c, r, s) && IsFirstSection(c, r, t)
    ensures s == t
  {
    assert SectionBefore(c, s, t) && SectionBefore(c, t, s);
  }

  /** The learners the command visits for a roadmap: those with an active enrolment in it. */
  function EnrolledUsers(en: map<(UserId, RoadmapId), Enrollment>, roadmap: RoadmapId): set<UserId> {
    set e | e in en && e.1 == roadmap && en[e].isActive :: e.0
  }

  /** The records the command ensures for one room. */
  function RoomTargets(c: Catalog, en: map<(UserId, RoadmapId), Enrollment>, r: RoomId): set<(UserId, SectionId)> {
    if r in c.rooms && c.rooms[r].isActive && FirstSection(c, r).Some? then
      set u | u in EnrolledUsers(en, c.rooms[r].roadmap) :: (u, FirstSection(c, r).value)
    else {}
  }

  /** The records the command ensures for a set of rooms. */
  function Targets(c: Catalog, en: map<(UserId, RoadmapId), Enrollment>, rooms: set<RoomId>): set<(UserId, SectionId)> {
    set r, k | r in rooms && k in RoomTargets(c, en, r) :: k
  }

  lemma TargetsStep(c: Catalog, en: map<(UserId, RoadmapId), Enrollment>, rooms: set<RoomId>, r: RoomId)
    ensures Targets(c, en, rooms + {r}) == Targets(c, en, rooms) + RoomTargets(c, en, r)
  {
  }

  /** The record `get_or_create` makes, after the content-only handler has run on it. */
  function FreshCompletion(c: Catalog, s: SectionId, now: Time): (sc: SectionCompletion)
    ensures sc.isCompleted <==> ActiveQuestions(c, s) == {}
    ensures sc.completedAt == if sc.isCompleted then Some(now) else None
  {
    if ActiveQuestions(c, s) == {} then SectionCompletion(true, Some(now)) else SectionCompletion(false, None)
  }

  /** `after` is `before` with a fresh record for every target that had none. */
  ghost predicate Unlocked(before: SectionCompletions, after: SectionCompletions, c: Catalog,
                           targets: set<(UserId, SectionId)>, now: Time) {
    && (forall k :: k in after <==> k in before || k in targets)
    && (forall k :: k in before ==> after[k] == before[k])
    && (forall k :: k in after && k !in before ==> after[k] == FreshCompletion(c, k.1, now))
  }

  lemma UnlockedTrans(a: SectionCompletions, b: SectionCompletions, d: SectionCompletions, c: Catalog,
                      t1: set<(UserId, SectionId)>, t2: set<(UserId, SectionId)>, now: Time)
    requires Unlocked(a, b, c, t1, now) && Unlocked(b, d, c, t2, now)
    ensures Unlocked(a, d, c, t1 + t2, now)
  {
  }

  /** The table the command leaves, as a function of the table it starts from. */
  function UnlockTable(c: Catalog, en: map<(UserId, RoadmapId), Enrollment>, sd: SectionCompletions, now: Time)
    : (out: SectionCompletions)
    ensures Unlocked(sd, out, c, Targets(c, en, c.rooms.Keys), now)
  {
    var targets := Targets(c, en, c.rooms.Keys);
    map k | k in sd.Keys + targets :: if k in sd then sd[k] else FreshCompletion(c, k.1, now)
  }

  /** `Unlocked` determines the resulting table. */
  lemma UnlockedIsTable(c: Catalog, en: map<(UserId, RoadmapId), Enrollment>, sd: SectionCompletions,
                        after: SectionCompletions, now: Time)
    requires Unlocked(sd, after, c, Targets(c, en, c.rooms.Keys), now)
    ensures after == UnlockTable(c, en, sd, now)
  {
    var t := UnlockTable(c, en, sd, now);
    assert after.Keys == t.Keys;
  }

  /** Running the command twice leaves the table of one run, whatever the second run's clock says. */
  lemma UnlockIdempotent(c: Catalog, en: map<(UserId, RoadmapId), Enrollment>, sd: SectionCompletions, t1: Time, t2: Time)
    ensures UnlockTable(c, en, UnlockTable(c, en, sd, t1), t2) == UnlockTable(c, en, sd, t1)
  {
    var once := UnlockTable(c, en, sd, t1);
    var twice := UnlockTable(c, en, once, t2);
    assert twice.Keys == once.Keys;
  }

  /** Every actively enrolled learner of an active room's roadmap has a record for its first section afterwards. */
  lemma UnlockCoversFirstSections(c: Catalog, en: map<(UserId, RoadmapId), Enrollment>, sd: SectionCompletions,
                                  now: Time, r: RoomId, u: UserId)
    requires r in c.rooms && c.rooms[r].isActive && ActiveSections(c, r) != {}
    requires u in EnrolledUsers(en, c.rooms[r].roadmap)
    ensures (u, FirstSection(c, r).value) in UnlockTable(c, en, sd, now)
  {
    assert (u, FirstSection(c, r).value) in RoomTargets(c, en, r);
  }

  /** Records of sections that are no room's first section are untouched. */
  lemma UnlockKeepsOtherSections(c: Catalog, en: map<(UserId, RoadmapId), Enrollment>, sd: SectionCompletions,
                                 now: Time, u: UserId, s: SectionId)
    requires forall r :: r in c.rooms ==> FirstSection(c, r) != Some(s)
    ensures ((u, s) in UnlockTable(c, en, sd, now)) == ((u, s) in sd)
    ensures (u, s) in sd ==> UnlockTable(c, en, sd, now)[(u, s)] == sd[(u, s)]
  {
    forall r | r in c.rooms.Keys
      ensures (u, s) !in RoomTargets(c, en, r)
    {
    }
    assert (u, s) !in Targets(c, en, c.rooms.Keys);
  }

  /** One `get_or_create` of a first-section record, followed by the content-only handler. */
  method EnsureSectionRecord(lms: Lms, u: UserId, s: SectionId, now: Time)
    requires lms.Valid() && u in lms.users && s in lms.catalog.sections
    modifies lms
    ensures lms.Valid()
    ensures lms.users == old(lms.users) && lms.answers == old(lms.answers) && lms.roomDone == old(lms.roomDone)
    ensures lms.certificates == old(lms.certificates) && lms.enrollments == old(lms.enrollments)
    ensures lms.payments == old(lms.payments)
    ensures lms.sectionDone == if (u, s) in old(lms.sectionDone) then old(lms.sectionDone)
                               else old(lms.sectionDone)[(u, s) := FreshCompletion(lms.catalog, s, now)]
  {
    if (u, s) !in lms.sectionDone {
      lms.sectionDone := lms.sectionDone[(u, s) := SectionCompletion(false, None)];
      SectionCompletionSaved(lms, u, s, true, now);
    }
  }

  /** `Unlocked` for the records of one section and a set of learners. */
  ghost predicate UnlockedFor(before: SectionCompletions, after: SectionCompletions, c: Catalog,
                              learners: set<UserId>, s: SectionId, now: Time) {
    && (forall k :: k in after <==> k in before || (k.0 in learners && k.1 == s))
    && (forall k :: k in before ==> after[k] == before[k])
    && (forall k :: k in after && k !in before ==> after[k] == FreshCompletion(c, k.1, now))
  }

  lemma UnlockedForAdd(before: SectionCompletions, mid: SectionCompletions, after: SectionCompletions, c: Catalog,
                       learners: set<UserId>, u: UserId, s: SectionId, now: Time)
    requires UnlockedFor(before, mid, c, learners, s, now)
    requires after == if (u, s) in mid then mid else mid[(u, s) := FreshCompletion(c, s, now)]
    ensures UnlockedFor(before, after, c, learners + {u}, s, now)
  {
  }

  /** Once no learner remains, the records made are those of every learner. */
  lemma UnlockedForAll(before: SectionCompletions, after: SectionCompletions, c: Catalog, learners: set<UserId>,
                       visited: set<UserId>, remaining: set<UserId>, s: SectionId, now: Time)
    requires remaining == {} && visited == learners - remaining
    requires UnlockedFor(before, after, c, visited, s, now)
    ensures Unlocked(before, after, c, set v | v in learners :: (v, s), now)
  {
    assert visited == learners;
    forall k | k in after
      ensures k in before || k in set v | v in learners :: (v, s)
    {
      if k !in before {
        assert k == (k.0, s);
      }
    }
  }

  /** The inner loop: one room's first section for every enrolled learner. */
  method UnlockRoom(lms: Lms, r: RoomId, first: SectionId, now: Time)
    requires lms.Valid() && r in lms.catalog.rooms && IsFirstSection(lms.catalog, r, first)
    modifies lms
    ensures lms.Valid()
    ensures lms.users == old(lms.users) && lms.answers == old(lms.answers) && lms.roomDone == old(lms.roomDone)
    ensures lms.certificates == old(lms.certificates) && lms.enrollments == old(lms.enrollments)
    ensures lms.payments == old(lms.payments)
    ensures Unlocked(old(lms.sectionDone), lms.sectionDone, lms.catalog,
                     set u | u in EnrolledUsers(lms.enrollments, lms.catalog.rooms[r].roadmap) :: (u, first), now)
  {
    var learners := EnrolledUsers(lms.enrollments, lms.catalog.rooms[r].roadmap);
    var remaining := learners;
    ghost var visited: set<UserId> := {};
    while remaining != {}
      invariant remaining <= learners && visited == learners - remaining
      invariant lms.Valid()
      invariant lms.users == old(lms.users) && lms.answers == old(lms.answers) && lms.roomDone == old(lms.roomDone)
      invariant lms.certificates == old(lms.certificates) && lms.enrollments == old(lms.enrollments)
      invariant lms.payments == old(lms.payments)
      invariant UnlockedFor(old(lms.sectionDone), lms.sectionDone, lms.catalog, visited, first, now)
      decreases |remaining|
    {
      var u :| u in remaining;
      ghost var mid := lms.sectionDone;
      EnsureSectionRecord(lms, u, first, now);
      UnlockedForAdd(old(lms.sectionDone), mid, lms.sectionDone, lms.catalog, visited, u, first, now);
      MoveOne(learners, remaining, visited, u);
      remaining := remaining - {u};
      visited := visited + {u};
    }
    UnlockedForAll(old(lms.sectionDone), lms.sectionDone, lms.catalog, learners, visited, remaining, first, now);
  }

  /** `Command.handle`. */
  method UnlockFirstSections(lms: Lms, now: Time)
    requires lms.Valid()
    modifies lms
    ensures lms.Valid()
    ensures lms.users == old(lms.users) && lms.answers == old(lms.answers) && lms.roomDone == old(lms.roomDone)
    ensures lms.certificates == old(lms.certificates) && lms.enrollments == old(lms.enrollments)
    ensures lms.payments == old(lms.payments)
    ensures lms.sectionDone == UnlockTable(lms.catalog, lms.enrollments, old(lms.sectionDone), now)
  {
    var c := lms.catalog;
    var rooms := set r | r in c.rooms && c.rooms[r].isActive;
    var remaining := rooms;
    ghost var visited: set<RoomId> := {};
    while remaining != {}
      invariant remaining <= rooms && visited == rooms - remaining
      invariant lms.Valid()
      invariant lms.users == old(lms.users) && lms.answers == old(lms.answers) && lms.roomDone == old(lms.roomDone)
      invariant lms.certificates == old(lms.certificates) && lms.enrollments == old(lms.enrollments)
      invariant lms.payments == old(lms.payments)
      invariant Unlocked(old(lms.sectionDone), lms.sectionDone, c, Targets(c, lms.enrollments, visited), now)
      decreases |remaining|
    {
      var r :| r in remaining;
      var first := FirstSection(c, r);
      ghost var before := lms.sectionDone;
      TargetsStep(c, lms.enrollments, visited, r);
      if first.Some? {
        UnlockRoom(lms, r, first.value, now);
        UnlockedTrans(old(lms.sectionDone), before, lms.sectionDone, c, Targets(c, lms.enrollments, visited),
                      RoomTargets(c, lms.enrollments, r), now);
      } else {
        assert RoomTargets(c, lms.enrollments, r) == {};
      }
      remaining := remaining - {r};
      visited := visited + {r};
    }
    ExtraRoomsAddNothing(c, lms.enrollments, rooms);
    UnlockedIsTable(c, lms.enrollments, old(lms.sectionDone), lms.sectionDone, now);
  }

  /** Inactive rooms contribute no targets, so visiting only the active ones covers all. */
  lemma ExtraRoomsAddNothing(c: Catalog, en: map<(UserId, RoadmapId), Enrollment>, rooms: set<RoomId>)
    requires rooms == set r | r in c.rooms && c.rooms[r].isActive
    ensures Targets(c, en, rooms) == Targets(c, en, c.rooms.Keys)
  {
  }
  /**
   * The command as written filters learners by `enrollments__roadmap`, but `Enrollment.user`
   * declares no `related_name`, so the reverse query name is `enrollment` and the lookup fails.
   * The first active room with an active section therefore ends the command with a `FieldError`,
   * before any record is written.
   */
  datatype CommandOutcome = Finished | FieldError

  /** Some active room has an active section, so the command as written reaches the enrolment query. */
  predicate ReachesEnrolmentQuery(c: Catalog) {
    exists r :: r in c.rooms && c.rooms[r].isActive && ActiveSections(c, r) != {}
  }

  /** `Command.handle` as written: no table changes, and the run fails iff it reaches the query. */
  method UnlockFirstSectionsAsWritten(lms: Lms) returns (outcome: CommandOutcome)
    ensures outcome == FieldError <==> ReachesEnrolmentQuery(lms.catalog)
  {
    var c := lms.catalog;
    var rooms := set r | r in c.rooms && c.rooms[r].isActive;
    var remaining := rooms;
    while remaining != {}
      invariant remaining <= rooms
      invariant forall r :: r in rooms && r !in remaining ==> ActiveSections(c, r) == {}
      decreases |remaining|
    {
      var r :| r in remaining;
      var first := FirstSection(c, r);
      if first.Some? {
        return FieldError;
      }
      remaining := remaining - {r};
    }
    outcome := Finished;
  }

  /**
   * Where the command as written fails, the intended command writes a record: an actively
   * enrolled learner without a record of an active room's first section gets one from
   * `UnlockTable`, while the failing run leaves the table as it was.
   */
  lemma AsWrittenMissesRecord(c: Catalog, en: map<(UserId, RoadmapId), Enrollment>, sd: SectionCompletions,
                              now: Time, r: RoomId, u: UserId)
    requires r in c.rooms && c.rooms[r].isActive && ActiveSections(c, r) != {}
    requires u in EnrolledUsers(en, c.rooms[r].roadmap) && (u, FirstSection(c, r).value) !in sd
    ensures ReachesEnrolmentQuery(c)
    ensures UnlockTable(c, en, sd, now) != sd
  {
    UnlockCoversFirstSections(c, en, sd, now, r, u);
  }

  /** Where the command as written does not fail, it agrees with the intended one: there is nothing to write. */
  lemma AsWrittenAgreesWithoutQuery(c: Catalog, en: map<(UserId, RoadmapId), Enrollment>, sd: SectionCompletions, now: Time)
    requires !ReachesEnrolmentQuery(c)
    ensures UnlockTable(c, en, sd, now) == sd
  {
    forall r | r in c.rooms.Keys
      ensures RoomTargets(c, en, r) == {}
    {
    }
    assert Targets(c, en, c.rooms.Keys) == {};
    UnlockedIsTable(c, en, sd, sd, now);
  }
}
