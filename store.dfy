/**
 * The database of the learning system: one map per table.  The course catalogue is
 * fixed while learners work; the progress tables and the accounts change.
 */
module Store {
  import opened Wrappers
  import opened Models

  /** Every stored account went through `User.save`. */
  ghost predicate AllSaved(users: map<UserId, User>) {
    forall u :: u in users ==> users[u].HasTrialWindow()
  }

  /** Every row of a progress table points at an existing account and item. */
  ghost predicate KeysIn<A, B, V>(table: map<(A, B), V>, accounts: set<A>, items: set<B>) {
    forall k :: k in table ==> k.0 in accounts && k.1 in items
  }

  ghost predicate PaymentsOf(payments: map<string, Payment>, accounts: set<UserId>) {
    forall t :: t in payments ==> payments[t].user in accounts
  }

  /** A row for an existing account and item keeps a table's keys valid. */
  lemma KeysInUpdate<A, B, V>(table: map<(A, B), V>, accounts: set<A>, items: set<B>, k: (A, B), v: V)
    requires KeysIn(table, accounts, items) && k.0 in accounts && k.1 in items
    ensures KeysIn(table[k := v], accounts, items)
  {
  }

  /** More accounts keep a table's keys valid. */
  lemma KeysInGrow<A, B, V>(table: map<(A, B), V>, accounts: set<A>, more: set<A>, items: set<B>)
    requires KeysIn(table, accounts, items) && accounts <= more
    ensures KeysIn(table, more, items)
  {
  }

  class Lms {
    const catalog: Catalog
    var users: map<UserId, User>
    var answers: Answers
    var sectionDone: SectionCompletions
    var roomDone: RoomCompletions
    var certificates: map<(UserId, RoomId), Certificate>
    var enrollments: map<(UserId, RoadmapId), Enrollment>
    /** Payments keyed by their unique transaction id. */
    var payments: map<string, Payment>

    /**
     * The catalogue's foreign keys hold, every stored account went through `User.save`,
     * and every progress row points at an existing account and item.
     */
    ghost predicate Valid()
      reads this
    {
      && catalog.WellFormed()
      && AllSaved(users)
      && KeysIn(answers, users.Keys, catalog.questions.Keys)
      && KeysIn(sectionDone, users.Keys, catalog.sections.Keys)
      && KeysIn(roomDone, users.Keys, catalog.rooms.Keys)
      && KeysIn(certificates, users.Keys, catalog.rooms.Keys)
      && KeysIn(enrollments, users.Keys, catalog.roadmaps.Keys)
      && PaymentsOf(payments, users.Keys)
    }

    /** An empty database over a given catalogue. */
    constructor (c: Catalog)
      requires c.WellFormed()
      ensures Valid() && catalog == c
      ensures users == map[] && answers == map[] && sectionDone == map[] && roomDone == map[]
      ensures certificates == map[] && enrollments == map[] && payments == map[]
    {
      catalog := c;
      users, answers, sectionDone, roomDone := map[], map[], map[], map[];
      certificates, enrollments, payments := map[], map[], map[];
    }

    /**
     * `User.save`: fill in a missing trial start, then a missing trial end, then write the row.
     * On an insert the start field's `auto_now_add` stamps the start with now while the row is
     * written, after the end has already been computed from the start the account carried.
     */
    method SaveUser(id: UserId, u: User, now: Time)
      requires Valid()
      modifies this
      ensures Valid()
      ensures id in old(users) ==> users == old(users)[id := TrialDefaults(u, now)]
      ensures id !in old(users) ==> users == old(users)[id := TrialDefaults(u, now).(trialStart := Some(now))]
      ensures answers == old(answers) && sectionDone == old(sectionDone) && roomDone == old(roomDone)
      ensures certificates == old(certificates) && enrollments == old(enrollments) && payments == old(payments)
    {
      var v := u;
      if v.trialStart.None? {
        v := v.(trialStart := Some(now));
      }
      if v.trialEnd.None? && v.trialStart.Some? {
        v := v.(trialEnd := Some(v.trialStart.value + TrialDays * Day));
      }
      if id !in users {
        v := v.(trialStart := Some(now));
      }
      users := users[id := v];
      KeysInGrow(answers, old(users).Keys, users.Keys, catalog.questions.Keys);
      KeysInGrow(sectionDone, old(users).Keys, users.Keys, catalog.sections.Keys);
      KeysInGrow(roomDone, old(users).Keys, users.Keys, catalog.rooms.Keys);
      KeysInGrow(certificates, old(users).Keys, users.Keys, catalog.rooms.Keys);
      KeysInGrow(enrollments, old(users).Keys, users.Keys, catalog.roadmaps.Keys);
    }
  }
}
