/** What a scan is answered, from a device or from a leader's phone, and what it leaves in the database. */
module ScanAnswers {
  import opened Domain
  import opened Ledger
  import opened Awards
  import opened Checkin
  import opened CheckinService

  /** The runner has an attendance of some event that starts on this day. */
  predicate AttendsThatDay(db: Db, user: UserId, day: Day) {
    exists a :: a in db.attendances && db.attendances[a].user == user
                && db.attendances[a].event in db.events
                && DayOf(db.events[db.attendances[a].event].startsAt) == day
  }

  /** A blocked account that is due points for this event. */
  predicate Withheld(db: Db, user: UserId, e: Event, cfg: Config) {
    user in db.book.accounts && db.book.accounts[user].status == BlockedAccount && Due(e, cfg).Some?
  }

  /** A delivery seen before is answered with its stored row, whatever the rest says, and changes nothing. */
  lemma SeenIsReplayed(db: Db, source: Source, user: Option<UserId>, lookup: Lookup, newId: AttendanceId, cfg: Config,
                       answer: Answer, i: nat)
    requires JournalUnique(db.journal) && i < |db.journal| && source.Device? && db.journal[i].source == source
    ensures Deliver(db, source, user, lookup, newId, cfg, answer) == (db, Some(Reply(db.journal[i], true)))
  {
    assert db.journal[i] in db.journal;
    var stored := FindScan(db.journal, source).value;
    var j :| 0 <= j < |db.journal| && db.journal[j] == stored;
    assert !(i < j) && !(j < i);
  }

  ghost predicate Unseen(db: Db, source: Source) {
    source.Device? ==> forall row :: row in db.journal ==> row.source != source
  }

  lemma StoredOnce(db: Db, row: ScanRow)
    requires Unseen(db, row.source)
    ensures RecordScan(db.journal, row) == (db.journal + [row], row)
  {}

  /** Any other scan: an exception exactly for a known runner whose look-up throws, which changes nothing. */
  lemma FailsExactly(db: Db, source: Source, user: Option<UserId>, lookup: Lookup, newId: AttendanceId, cfg: Config,
                     answer: Answer)
    requires Unseen(db, source)
    ensures var (after, reply) := Deliver(db, source, user, lookup, newId, cfg, answer);
            && (reply.None? <==> user.Some? && lookup.Throws?)
            && (reply.None? ==> after == db)
  {
    assert FindScan(db.journal, source).None?;
  }

  /** Otherwise one new row about this scan: "unknown code" exactly without a runner, "no window" exactly for a
      runner without an event. */
  lemma AnsweredExactly(db: Db, source: Source, user: Option<UserId>, lookup: Lookup, newId: AttendanceId, cfg: Config,
                        answer: Answer)
    requires Unseen(db, source) && !(user.Some? && lookup.Throws?)
    ensures var (after, reply) := Deliver(db, source, user, lookup, newId, cfg, answer);
            && reply.Some? && !reply.value.idempotent
            && var row := reply.value.row;
               && after.journal == db.journal + [row] && after.events == db.events
               && row.source == source && row.user == user
               && (row.result == UnknownCode <==> user.None?)
               && (row.result == NoWindow <==> user.Some? && lookup == Finds(None))
               && (user.None? || lookup == Finds(None) ==>
                     row.event.None? && row.attendance.None? && after == db.(journal := db.journal + [row]))
  {
    assert FindScan(db.journal, source).None?;
    var e := if lookup.Finds? then lookup.event else None;
    var (mid, row) := Resolution(db, source, user, e, newId, cfg, answer);
    assert mid.journal == db.journal && mid.events == db.events;
    StoredOnce(mid, row);
  }

  /** A known runner and an open event: what crediting answered is what the row says. "Matched" exactly when the
      transaction commits on a day free for the runner and no due points are withheld; then the new attendance
      is stored as approved and credited with exactly what is due, and nothing else is touched. */
  lemma CreditedExactly(db: Db, source: Source, user: UserId, e: Event, newId: AttendanceId, cfg: Config,
                        answer: Answer)
    requires Unseen(db, source) && Valid(db.book) && newId !in db.attendances
    requires !HasKey(db.book.rows, AttendanceKey(newId))
    ensures var (after, reply) := Deliver(db, source, Some(user), Finds(Some(e)), newId, cfg, answer);
            && reply.Some? && reply.value.row.event == Some(e.id)
            && var row := reply.value.row;
               && (row.result == Matched <==>
                     answer == Commits && !AttendsThatDay(db, user, DayOf(e.startsAt)) && !Withheld(db, user, e, cfg))
               && (row.result == Duplicate <==>
                     answer == Violates || (answer == Commits && AttendsThatDay(db, user, DayOf(e.startsAt))))
               && (row.result in {Matched, Duplicate, ProcessingError})
               && (row.result == Matched ==>
                     && row.attendance == Some(newId)
                     && after.attendances == db.attendances[newId := Attendance(e.id, user, Approved)]
                     && CreditIs(after.book, newId, user, Due(e, cfg)) && Valid(after.book)
                     && CreditsOnly(db.book, after.book, user, if Due(e, cfg).Some? then Due(e, cfg).value else 0))
               && (row.result != Matched ==>
                     row.attendance.None? && after.attendances == db.attendances && after.book == db.book)
  {
    assert FindScan(db.journal, source).None?;
    AwardWritesTheDue(db.book, newId, user, e, cfg);
    assert SameDay(db, user, DayOf(e.startsAt)) <==> AttendsThatDay(db, user, DayOf(e.startsAt));
  }
}
