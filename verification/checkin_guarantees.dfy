/** What the check-in protocol guarantees over every run, in the terms of its documentation. */
module CheckinGuarantees {
  import opened Domain
  import opened Ledger
  import opened Awards
  import opened Checkin

  /** How many ledger rows credit attendance `a`. */
  function Credits(rows: seq<Row>, a: AttendanceId): nat {
    if |rows| == 0 then 0
    else Credits(rows[..|rows| - 1], a) + (if rows[|rows| - 1].posting.key == AttendanceKey(a) then 1 else 0)
  }

  lemma {:induction false} CreditsByKey(rows: seq<Row>, a: AttendanceId)
    requires KeysUnique(rows)
    ensures Credits(rows, a) == if FindKey(rows, AttendanceKey(a)).Some? then 1 else 0
    decreases |rows|
  {
    if |rows| > 0 {
      var front := rows[..|rows| - 1];
      CreditsByKey(front, a);
      assert forall i :: 0 <= i < |front| ==> front[i].posting.key != rows[|rows| - 1].posting.key;
    }
  }

  /** Exactly-once credit: over every interleaving of deliveries, re-sends, lost replies, crashes,
      retries, leader scans, admin reviews and other ledger writers. */
  lemma ExactlyOnce(s: State, steps: seq<Step>, cfg: Config)
    requires Initial(s)
    ensures var db := Run(s, steps, cfg).db;
            && Valid(db.book)
            && JournalUnique(db.journal)
            && EventsKnown(db) && OnePerDay(db)
            && (forall a :: Credits(db.book.rows, a) <= 1)
            && (forall a :: Credits(db.book.rows, a) == 1 ==> a in db.attendances)
  {
    InitialIsSound(s);
    EveryRunKeeps(s, steps, cfg);
    var db := Run(s, steps, cfg).db;
    forall a
      ensures Credits(db.book.rows, a) <= 1
      ensures Credits(db.book.rows, a) == 1 ==> a in db.attendances
    {
      CreditsByKey(db.book.rows, a);
      assert FindKey(db.book.rows, AttendanceKey(a)).Some? ==> HasKey(db.book.rows, AttendanceKey(a));
    }
  }

  /** Every outcome the journal reports is true: "matched" names an approved attendance of that
      runner at that event, "duplicate" means the runner has an attendance that day. */
  lemma JournalTellsTheTruth(s: State, steps: seq<Step>, cfg: Config)
    requires Initial(s)
    ensures var db := Run(s, steps, cfg).db;
            forall i :: 0 <= i < |db.journal| ==> RowTrue(db, db.journal[i])
  {
    InitialIsSound(s);
    EveryRunKeeps(s, steps, cfg);
  }

  // ---------------------------------------------------------------- award consistency

  ghost predicate AwardedGrows(early: map<AttendanceId, Option<int>>, late: map<AttendanceId, Option<int>>) {
    forall a :: a in early ==> a in late && late[a] == early[a]
  }

  lemma OtherStepsAwardNothing(s: State, step: Step, cfg: Config)
    requires !step.Approve? && !step.CommitCredit?
    ensures Apply(s, step, cfg).awarded == s.awarded
  {}

  lemma StepKeepsAwarded(s: State, step: Step, cfg: Config)
    requires Inv(s)
    ensures AwardedGrows(s.awarded, Apply(s, step, cfg).awarded)
  {
    match step
    case Approve(a) =>
      assert a in s.awarded ==> s.db.attendances[a].status == Approved;
    case CommitCredit(c, newId) =>
      assert newId in s.awarded ==> newId in s.db.attendances;
    case _ => OtherStepsAwardNothing(s, step, cfg);
  }

  lemma {:induction false} AwardedStays(s: State, steps: seq<Step>, cfg: Config)
    requires Inv(s)
    ensures AwardedGrows(s.awarded, Run(s, steps, cfg).awarded)
    decreases |steps|
  {
    if |steps| > 0 {
      StepKeeps(s, steps[0], cfg);
      StepKeepsAwarded(s, steps[0], cfg);
      AwardedStays(Apply(s, steps[0], cfg), steps[1..], cfg);
    }
  }

  /** The step that approves an attendance records what was due under the event it had read:
      the stored event for a review, the event resolved by the scan for a check-in. */
  lemma ApprovalFixesTheDue(s: State, step: Step, cfg: Config, a: AttendanceId)
    requires Inv(s) && a !in s.awarded && a in Apply(s, step, cfg).awarded
    ensures var due := Apply(s, step, cfg).awarded[a];
            || (step == Approve(a) && a in s.db.attendances && due == Due(s.db.events[s.db.attendances[a].event], cfg))
            || (step.CommitCredit? && step.newId == a && due == Due(s.calls[step.call].event, cfg))
  {}

  /** Step `i` of the run approves `a` and fixes its due: a review, under the event stored at that moment, or the
      check-in that creates it, under the event its call had resolved. */
  predicate ApprovesAt(s: State, steps: seq<Step>, i: nat, a: AttendanceId, due: Option<int>, cfg: Config)
    requires i < |steps|
  {
    var was := Run(s, steps[..i], cfg);
    || (steps[i] == Approve(a) && a in was.db.attendances && was.db.attendances[a].event in was.db.events
        && due == Due(was.db.events[was.db.attendances[a].event], cfg))
    || (steps[i].CommitCredit? && steps[i].newId == a && steps[i].call in was.calls
        && was.calls[steps[i].call].Crediting? && due == Due(was.calls[steps[i].call].event, cfg))
  }

  lemma RunLater(s: State, steps: seq<Step>, i: nat, cfg: Config)
    requires i < |steps|
    ensures Run(s, steps[..i + 1], cfg) == Run(Apply(s, steps[0], cfg), steps[1..][..i], cfg)
  {
    assert steps[..i + 1][1..] == steps[1..][..i];
  }

  /** Whatever amount a run leaves remembered for an attendance was due at the step that approved it. */
  lemma {:induction false} AwardedWhenApproved(s: State, steps: seq<Step>, cfg: Config, a: AttendanceId)
    requires Inv(s) && a !in s.awarded && a in Run(s, steps, cfg).awarded
    ensures exists i :: 0 <= i < |steps| && ApprovesAt(s, steps, i, a, Run(s, steps, cfg).awarded[a], cfg)
    decreases |steps|
  {
    var next, due := Apply(s, steps[0], cfg), Run(s, steps, cfg).awarded[a];
    StepKeeps(s, steps[0], cfg);
    if a in next.awarded {
      AwardedStays(next, steps[1..], cfg);
      ApprovalFixesTheDue(s, steps[0], cfg, a);
      assert steps[..0] == [];
      assert ApprovesAt(s, steps, 0, a, due, cfg);
    } else {
      AwardedWhenApproved(next, steps[1..], cfg, a);
      var i :| 0 <= i < |steps[1..]| && ApprovesAt(next, steps[1..], i, a, due, cfg);
      RunLater(s, steps, i, cfg);
      assert ApprovesAt(s, steps, i + 1, a, due, cfg);
    }
  }

  /** The event a call credits was stored when the call was resolved. */
  predicate ResolvesAt(s: State, steps: seq<Step>, i: nat, id: nat, e: Event, cfg: Config)
    requires i < |steps|
  {
    var was := Run(s, steps[..i], cfg);
    steps[i].Resolve? && steps[i].call == id && steps[i].event == Some(e.id)
    && e.id in was.db.events && was.db.events[e.id] == e
  }

  lemma CreditingComesFrom(s: State, step: Step, id: nat, cfg: Config)
    requires Inv(s)
    requires var end := Apply(s, step, cfg);
             id in end.calls && end.calls[id].Crediting?
    ensures var e := Apply(s, step, cfg).calls[id].event;
            || (id in s.calls && s.calls[id].Crediting? && s.calls[id].event == e)
            || (step.Resolve? && step.call == id && step.event == Some(e.id) && e.id in s.db.events
                && s.db.events[e.id] == e)
  {}

  lemma {:induction false} CreditsWhatWasStored(s: State, steps: seq<Step>, id: nat, cfg: Config)
    requires Inv(s) && (id in s.calls ==> !s.calls[id].Crediting?)
    requires var end := Run(s, steps, cfg);
             id in end.calls && end.calls[id].Crediting?
    ensures exists i :: 0 <= i < |steps| && ResolvesAt(s, steps, i, id, Run(s, steps, cfg).calls[id].event, cfg)
    decreases |steps|
  {
    var n := |steps| - 1;
    var front := steps[..n];
    RunConcat(s, front, [steps[n]], cfg);
    assert steps == front + [steps[n]];
    var before := Run(s, front, cfg);
    assert Run(s, steps, cfg) == Apply(before, steps[n], cfg) by {
      assert Run(before, [steps[n]], cfg) == Run(Apply(before, steps[n], cfg), [steps[n]][1..], cfg);
    }
    EveryRunKeeps(s, front, cfg);
    var e := Run(s, steps, cfg).calls[id].event;
    CreditingComesFrom(before, steps[n], id, cfg);
    if id in before.calls && before.calls[id].Crediting? && before.calls[id].event == e {
      CreditsWhatWasStored(s, front, id, cfg);
      var i :| 0 <= i < |front| && ResolvesAt(s, front, i, id, e, cfg);
      assert front[..i] == steps[..i];
      assert ResolvesAt(s, steps, i, id, e, cfg);
    } else {
      assert ResolvesAt(s, steps, n, id, e, cfg);
    }
  }

  /** In every reachable state a pending or rejected attendance has no credit, and an approved one has exactly one
      credit, of the amount that was due at the step of the run that approved it, or none when nothing was due
      then. A review happens at most once: a decided status, and its amount, never change again. */
  lemma AwardConsistency(s: State, before: seq<Step>, after: seq<Step>, cfg: Config, a: AttendanceId)
    requires Initial(s) && a in Run(s, before, cfg).db.attendances
    ensures var mid := Run(s, before, cfg);
            var end := Run(mid, after, cfg);
            var rows := mid.db.book.rows;
            && (mid.db.attendances[a].status != Approved ==> Credits(rows, a) == 0)
            && (mid.db.attendances[a].status == Approved ==>
                  && a in mid.awarded
                  && Credits(rows, a) == (if mid.awarded[a].Some? then 1 else 0)
                  && CreditIs(mid.db.book, a, mid.db.attendances[a].user, mid.awarded[a])
                  && (exists i :: 0 <= i < |before| && ApprovesAt(s, before, i, a, mid.awarded[a], cfg))
                  && a in end.awarded && end.awarded[a] == mid.awarded[a])
            && a in end.db.attendances
            && (mid.db.attendances[a].status != Pending ==> end.db.attendances[a] == mid.db.attendances[a])
  {
    InitialIsSound(s);
    EveryRunKeeps(s, before, cfg);
    var mid := Run(s, before, cfg);
    EveryRunKeeps(mid, after, cfg);
    CreditsByKey(mid.db.book.rows, a);
    AwardedStays(mid, after, cfg);
    if mid.db.attendances[a].status == Approved {
      AwardedWhenApproved(s, before, cfg, a);
    }
    assert CreditIs(mid.db.book, a, mid.db.attendances[a].user, if a in mid.awarded then mid.awarded[a] else None);
  }

  /** The crediting transaction fails exactly on a blocked account that is due points, and then
      leaves attendance and ledger untouched. */
  lemma BlockedLeavesNoTrace(s: State, user: UserId, e: Event, newId: AttendanceId, cfg: Config)
    requires Inv(s) && newId !in s.db.attendances
    ensures var (db, outcome) := CreditTx(s.db, user, e, newId, cfg);
            && (outcome.AwardFailed? <==>
                  !SameDay(s.db, user, DayOf(e.startsAt)) && Due(e, cfg).Some?
                    && AccountOf(s.db.book, user).status == BlockedAccount)
            && (outcome.AwardFailed? ==> db == s.db)
  {
    assert !HasKey(s.db.book.rows, AttendanceKey(newId));
  }

  /** Reviewing for a blocked account: approval is refused as a whole. */
  lemma BlockedReviewLeavesNoTrace(s: State, a: AttendanceId, cfg: Config)
    requires Inv(s) && a in s.db.attendances && s.db.attendances[a].status == Pending
    ensures ApproveStep(s, a, cfg) == s <==>
              && Due(s.db.events[s.db.attendances[a].event], cfg).Some?
              && AccountOf(s.db.book, s.db.attendances[a].user).status == BlockedAccount
  {
    assert CreditIs(s.db.book, a, s.db.attendances[a].user, None);
    assert s.db.attendances[a] != s.db.attendances[a].(status := Approved);
    assert s.db.attendances != s.db.attendances[a := s.db.attendances[a].(status := Approved)];
  }

  // ---------------------------------------------------------------- idempotent replies

  /** Two replies to the same (device, scan), however far apart, carry the same journal row. */
  lemma RepliesAgree(s: State, before: seq<Step>, after: seq<Step>, cfg: Config, c: nat, d: nat)
    requires Initial(s)
    requires var mid := Run(s, before, cfg);
             var end := Run(mid, after, cfg);
             && c in mid.calls && mid.calls[c].Replied? && d in end.calls && end.calls[d].Replied?
             && SameDelivery(mid.calls[c].row.source, end.calls[d].row.source)
    ensures Run(s, before, cfg).calls[c].row == Run(Run(s, before, cfg), after, cfg).calls[d].row
  {
    InitialIsSound(s);
    EveryRunKeeps(s, before, cfg);
    var mid := Run(s, before, cfg);
    EveryRunKeeps(mid, after, cfg);
    var end := Run(mid, after, cfg);
    assert CallSound(mid.db, mid.calls[c]) && CallSound(end.db, end.calls[d]);
    var i :| 0 <= i < |mid.db.journal| && mid.db.journal[i] == mid.calls[c].row;
    var j :| 0 <= j < |end.db.journal| && end.db.journal[j] == end.calls[d].row;
    assert end.db.journal[i] == mid.db.journal[i];
    assert !(i < j) && !(j < i);
  }

  lemma CreatorCommits(s: State, c: nat, newId: AttendanceId, cfg: Config)
    requires Inv(s) && c in s.calls && s.calls[c].Crediting? && newId !in s.db.attendances
    requires var call := s.calls[c];
             !SameDay(s.db, call.user, DayOf(call.event.startsAt))
               && AccountOf(s.db.book, call.user).status == ActiveAccount
    ensures var call := s.calls[c];
            var end := Apply(s, CommitCredit(c, newId), cfg);
            && newId in end.db.attendances
            && end.db.attendances[newId] == Attendance(call.event.id, call.user, Approved)
            && CreditIs(end.db.book, newId, call.user, Due(call.event, cfg))
            && end.db.journal == s.db.journal && !Linked(s.db.journal, newId)
            && end.db.events == s.db.events && call.event.id in s.db.events
            && s.db.events[call.event.id].startsAt == call.event.startsAt
            && end.calls == s.calls[c := Credited(call, Some(newId), Matched)]
            && end.db.attendances == s.db.attendances[newId := Attendance(call.event.id, call.user, Approved)]
  {
    var call := s.calls[c];
    assert CallSound(s.db, call);
    assert !HasKey(s.db.book.rows, AttendanceKey(newId));
    AwardWritesTheDue(s.db.book, newId, call.user, call.event, cfg);
    NewAttendanceIsUnowned(s, newId);
  }

  lemma LoserCommits(s: State, d: nat, made: AttendanceId, other: AttendanceId, cfg: Config)
    requires d in s.calls && s.calls[d].Crediting? && other !in s.db.attendances && made in s.db.attendances
    requires var call := s.calls[d];
             && s.db.attendances[made].user == call.user && s.db.attendances[made].event == call.event.id
             && call.event.id in s.db.events && s.db.events[call.event.id].startsAt == call.event.startsAt
    ensures Apply(s, CommitCredit(d, other), cfg) == s.(calls := s.calls[d := Credited(s.calls[d], None, Duplicate)])
  {
    assert SameDay(s.db, s.calls[d].user, DayOf(s.calls[d].event.startsAt));
  }

  lemma {:induction false} FindScanAppend(journal: seq<ScanRow>, row: ScanRow)
    requires row.source.Device? && FindScan(journal, row.source).None?
    ensures FindScan(journal + [row], row.source) == Some(row)
    decreases |journal|
  {
    if |journal| > 0 {
      assert (journal + [row])[1..] == journal[1..] + [row];
      FindScanAppend(journal[1..], row);
    }
  }

  lemma RecordsInTurn(s: State, c: nat, d: nat, row: ScanRow, cfg: Config)
    requires c != d && c in s.calls && d in s.calls && s.calls[d] == Recording(row) && s.calls[c].Recording?
    requires row.source.Device? && s.calls[c].row.source == row.source && FindScan(s.db.journal, row.source).None?
    requires row.attendance.None?
    ensures var end := Apply(Apply(s, Record(d), cfg), Record(c), cfg);
            && end.db == s.db.(journal := s.db.journal + [row])
            && end.calls[c] == end.calls[d] == Replied(row, false)
            && forall a: AttendanceId :: Linked(end.db.journal, a) ==> Linked(s.db.journal, a)
  {
    FindScanAppend(s.db.journal, row);
    forall a: AttendanceId | Linked(s.db.journal + [row], a) ensures Linked(s.db.journal, a) {
      var i :| 0 <= i < |s.db.journal + [row]| && (s.db.journal + [row])[i].attendance == Some(a);
      assert i < |s.db.journal| && s.db.journal[i].attendance == Some(a);
    }
  }

  /** The race the link column cannot record: two deliveries of one scan both past the prior
      lookup. The first creates and credits, the second finds a duplicate but journals first, so
      both answers say "duplicate" and no journal row ever links to the credited attendance. */
  lemma RaceHidesTheCreator(s: State, c: nat, d: nat, user: UserId, e: Event, newId: AttendanceId,
                            other: AttendanceId, cfg: Config)
    requires Inv(s) && c != d && c in s.calls && d in s.calls
    requires s.calls[c].Crediting? && s.calls[c].source.Device? && s.calls[c].user == user && s.calls[c].event == e
    requires s.calls[d] == s.calls[c] && FindScan(s.db.journal, s.calls[c].source).None?
    requires !SameDay(s.db, user, DayOf(e.startsAt)) && AccountOf(s.db.book, user).status == ActiveAccount
    requires newId !in s.db.attendances && other !in s.db.attendances && newId != other
    ensures var s1 := Apply(s, CommitCredit(c, newId), cfg);
            var s2 := Apply(s1, CommitCredit(d, other), cfg);
            var end := Apply(Apply(s2, Record(d), cfg), Record(c), cfg);
            var row := ScanRow(s.calls[c].source, Some(user), Some(e.id), None, Duplicate);
            && newId in end.db.attendances && CreditIs(end.db.book, newId, user, Due(e, cfg))
            && c in end.calls && d in end.calls && end.calls[c] == end.calls[d] == Replied(row, false)
            && end.db.journal == s.db.journal + [row]
            && !Linked(end.db.journal, newId)
  {
    var s1 := Apply(s, CommitCredit(c, newId), cfg);
    var s2 := Apply(s1, CommitCredit(d, other), cfg);
    CreatorCommits(s, c, newId, cfg);
    LoserCommits(s1, d, newId, other, cfg);
    RecordsInTurn(s2, c, d, ScanRow(s.calls[c].source, Some(user), Some(e.id), None, Duplicate), cfg);
  }
}
