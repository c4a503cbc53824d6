/** Admin reviews whose status check and write are separate steps, interleaved with check-in and with each
    other: exactly which writes leave a rejected attendance credited, and exactly when a decision is final. */
module ReviewRaces {
  import opened Domain
  import opened Ledger
  import opened Awards
  import C = Checkin
  import L = CheckinLinks

  /** A review that found its attendance pending and has not written yet. */
  datatype Review = Approving(attendance: AttendanceId) | Rejecting(attendance: AttendanceId)

  datatype State = State(core: C.State, pending: multiset<Review>)

  datatype Step =
    | CheckApprove(attendance: AttendanceId)
    | CheckReject(attendance: AttendanceId)
    | Write(review: Review)
    | Drop(review: Review)
    | Other(step: C.Step)         // check-in, ledger, admin edits, and reviews nothing interrupts

  function StatusOf(s: C.State, a: AttendanceId): C.Status
    requires a in s.db.attendances
  {
    s.db.attendances[a].status
  }

  function Decided(db: C.Db, a: AttendanceId, status: C.Status, book: Book): C.Db
    requires a in db.attendances
  {
    db.(book := book, attendances := db.attendances[a := db.attendances[a].(status := status)])
  }

  /** The points remembered for an approved attendance; None when nothing was due. */
  function AwardedTo(s: C.State, a: AttendanceId): Option<int> { if a in s.awarded then s.awarded[a] else None }

  /** The write of a checked review. Nothing in it looks at the status again; an approval awards in its
      transaction and is rolled back with it, a rejection only sets the status. */
  function Written(s: C.State, review: Review, cfg: Config): C.State {
    var a := review.attendance;
    if a !in s.db.attendances || s.db.attendances[a].event !in s.db.events then s
    else if review.Rejecting? then s.(db := Decided(s.db, a, C.Rejected, s.db.book), awarded := s.awarded - {a})
    else
      var att := s.db.attendances[a];
      var e := s.db.events[att.event];
      var (book, r) := Award(s.db.book, a, att.event, att.user, e, cfg);
      if r.Err? then s
      else s.(db := Decided(s.db, a, C.Approved, book),
              awarded := if AwardedTo(s, a).Some? then s.awarded else s.awarded[a := Due(e, cfg)])
  }

  function Checked(s: State, a: AttendanceId, review: Review): State {
    if a in s.core.db.attendances && StatusOf(s.core, a) == C.Pending
    then s.(pending := s.pending + multiset{review}) else s
  }

  function Apply(s: State, step: Step, cfg: Config): State {
    match step
    case CheckApprove(a) => Checked(s, a, Approving(a))
    case CheckReject(a) => Checked(s, a, Rejecting(a))
    case Write(review) =>
      if review in s.pending then State(Written(s.core, review, cfg), s.pending - multiset{review}) else s
    case Drop(review) => s.(pending := s.pending - multiset{review})
    case Other(step) => s.(core := C.Apply(s.core, step, cfg))
  }

  function Run(s: State, steps: seq<Step>, cfg: Config): State
    decreases |steps|
  {
    if |steps| == 0 then s else Run(Apply(s, steps[0], cfg), steps[1..], cfg)
  }

  // ---------------------------------------------------------------- which writes leave a wrong credit

  /** What the award is for: a rejected attendance has no credit. */
  ghost predicate RejectedUncredited(db: C.Db) {
    forall a :: a in db.attendances && db.attendances[a].status == C.Rejected ==>
                  !HasKey(db.book.rows, AttendanceKey(a))
  }

  /** Attendances under review were not made by a scan, so no journal row is about them. */
  ghost predicate Known(s: State) { forall r :: r in s.pending ==> L.Unclaimed(s.core, r.attendance) }

  ghost predicate Sound(s: State) { C.Inv(s.core) && Known(s) }

  /** A checked rejection writes to an attendance approved since, with points due. */
  predicate HitsCredited(s: State, step: Step) {
    && step.Write? && step.review.Rejecting? && step.review in s.pending
    && AwardedTo(s.core, step.review.attendance).Some?
  }

  /** Nothing changed but the status of `a` and the ledger. */
  ghost predicate Decision(db: C.Db, later: C.Db, a: AttendanceId) {
    && a in db.attendances && a in later.attendances
    && later == Decided(db, a, later.attendances[a].status, later.book)
  }

  lemma PendingIsUnclaimed(s: C.State, a: AttendanceId)
    requires C.Inv(s) && a in s.db.attendances && StatusOf(s, a) == C.Pending
    ensures L.Unclaimed(s, a)
  {
    forall i | 0 <= i < |s.db.journal| ensures s.db.journal[i].attendance != Some(a) {
      assert C.RowTrue(s.db, s.db.journal[i]);
    }
    forall c | c in s.calls && s.calls[c].Recording? ensures s.calls[c].row.attendance != Some(a) {
      assert C.CallSound(s.db, s.calls[c]);
    }
  }

  lemma SameDays(db: C.Db, later: C.Db, a: AttendanceId, user: UserId, day: Day)
    requires Decision(db, later, a) && C.SameDay(db, user, day)
    ensures C.SameDay(later, user, day)
  {
    var b :| b in db.attendances && db.attendances[b].user == user &&
             db.attendances[b].event in db.events && DayOf(db.events[db.attendances[b].event].startsAt) == day;
    assert b in later.attendances && later.attendances[b].user == user;
  }

  lemma RowStaysTrue(db: C.Db, later: C.Db, a: AttendanceId, row: C.ScanRow)
    requires Decision(db, later, a) && C.RowTrue(db, row) && row.attendance != Some(a)
    ensures C.RowTrue(later, row)
  {
    if row.result == C.Duplicate {
      SameDays(db, later, a, row.user.value, DayOf(db.events[row.event.value].startsAt));
    }
  }

  lemma CallsStaySound(s: C.State, later: C.State, a: AttendanceId)
    requires C.Inv(s) && L.Unclaimed(s, a) && later.calls == s.calls
    requires Decision(s.db, later.db, a)
    ensures forall i :: 0 <= i < |later.db.journal| ==> C.RowTrue(later.db, later.db.journal[i])
    ensures forall c :: c in later.calls ==> C.CallSound(later.db, later.calls[c])
  {
    forall i | 0 <= i < |later.db.journal| ensures C.RowTrue(later.db, later.db.journal[i]) {
      RowStaysTrue(s.db, later.db, a, s.db.journal[i]);
    }
    forall c | c in later.calls ensures C.CallSound(later.db, later.calls[c]) {
      assert C.CallSound(s.db, s.calls[c]);
      if s.calls[c].Recording? {
        RowStaysTrue(s.db, later.db, a, s.calls[c].row);
      }
    }
  }

  /** A decision on an unclaimed attendance keeps everything as long as the credits match. */
  lemma DecisionKeeps(s: C.State, later: C.State, a: AttendanceId)
    requires C.Inv(s) && L.Unclaimed(s, a) && later.calls == s.calls
    requires Decision(s.db, later.db, a)
    requires Valid(later.db.book) && C.CreditsMatch(later)
    ensures C.Inv(later)
  {
    CallsStaySound(s, later, a);
    C.ReviewKeepsDays(s.db, later.db, a, later.db.attendances[a].status);
  }

  lemma RejectionCredits(s: C.State, a: AttendanceId)
    requires C.CreditsMatch(s) && a in s.db.attendances && AwardedTo(s, a).None?
    ensures C.CreditsMatch(s.(db := Decided(s.db, a, C.Rejected, s.db.book), awarded := s.awarded - {a}))
  {
    var later := s.(db := Decided(s.db, a, C.Rejected, s.db.book), awarded := s.awarded - {a});
    forall b | b in later.db.attendances
      ensures CreditIs(later.db.book, b, later.db.attendances[b].user, AwardedTo(later, b))
    {
      assert CreditIs(s.db.book, b, s.db.attendances[b].user, AwardedTo(s, b));
    }
  }

  lemma CreditIsThere(s: C.State, a: AttendanceId)
    requires C.CreditsMatch(s) && a in s.db.attendances
    ensures AwardedTo(s, a).Some? <==> HasKey(s.db.book.rows, AttendanceKey(a))
    ensures AwardedTo(s, a).Some? <==> FindKey(s.db.book.rows, AttendanceKey(a)).Some?
    ensures AwardedTo(s, a).Some? ==> StatusOf(s, a) == C.Approved
  {
    assert CreditIs(s.db.book, a, s.db.attendances[a].user, AwardedTo(s, a));
  }

  lemma SoundIsUncredited(s: C.State)
    requires C.CreditsMatch(s)
    ensures RejectedUncredited(s.db)
  {
    forall a | a in s.db.attendances && s.db.attendances[a].status == C.Rejected
      ensures !HasKey(s.db.book.rows, AttendanceKey(a))
    {
      CreditIsThere(s, a);
    }
  }

  /** A rejection keeps the check-in invariant, rejected attendances without credit included, if and only if
      the attendance has not been awarded points since. */
  lemma RejectionKeepsExactly(s: C.State, a: AttendanceId, cfg: Config)
    requires C.Inv(s) && L.Unclaimed(s, a)
    ensures C.Inv(Written(s, Rejecting(a), cfg)) <==> AwardedTo(s, a).None?
    ensures RejectedUncredited(Written(s, Rejecting(a), cfg).db) <==> AwardedTo(s, a).None?
  {
    var later := Written(s, Rejecting(a), cfg);
    CreditIsThere(s, a);
    if AwardedTo(s, a).None? {
      RejectionCredits(s, a);
      DecisionKeeps(s, later, a);
      SoundIsUncredited(later);
    } else {
      assert later.db.attendances[a].status == C.Rejected;
      if C.CreditsMatch(later) {
        CreditIsThere(later, a);
      }
    }
  }

  /** Approving again what has its credit changes nothing. */
  lemma ApprovedAgain(s: C.State, a: AttendanceId, cfg: Config)
    requires C.Inv(s) && a in s.db.attendances && AwardedTo(s, a).Some?
    ensures Written(s, Approving(a), cfg) == s
  {
    CreditIsThere(s, a);
    assert s.db.attendances[a] == s.db.attendances[a].(status := C.Approved);
    assert s.db.attendances == s.db.attendances[a := s.db.attendances[a].(status := C.Approved)];
  }

  lemma ApprovalKeeps(s: C.State, a: AttendanceId, cfg: Config)
    requires C.Inv(s) && L.Unclaimed(s, a)
    ensures C.Inv(Written(s, Approving(a), cfg))
  {
    var later := Written(s, Approving(a), cfg);
    if AwardedTo(s, a).Some? {
      ApprovedAgain(s, a, cfg);
    } else if later != s {
      var att := s.db.attendances[a];
      CreditIsThere(s, a);
      AwardWritesTheDue(s.db.book, a, att.user, s.db.events[att.event], cfg);
      C.CreditsSurvive(s, later, a);
      DecisionKeeps(s, later, a);
    }
  }

  lemma WriteKeepsKnown(s: State, review: Review, cfg: Config)
    requires Sound(s) && review in s.pending
    ensures Known(Apply(s, Write(review), cfg))
  {
    var next := Apply(s, Write(review), cfg);
    assert next.core.db.journal == s.core.db.journal && next.core.calls == s.core.calls;
    forall r | r in next.pending ensures L.Unclaimed(next.core, r.attendance) {
      assert r in s.pending;
    }
  }

  lemma StepKeepsKnown(s: State, step: Step, cfg: Config)
    requires Sound(s)
    ensures Known(Apply(s, step, cfg))
  {
    match step
    case CheckApprove(a) =>
      if a in s.core.db.attendances && StatusOf(s.core, a) == C.Pending {
        PendingIsUnclaimed(s.core, a);
      }
    case CheckReject(a) =>
      if a in s.core.db.attendances && StatusOf(s.core, a) == C.Pending {
        PendingIsUnclaimed(s.core, a);
      }
    case Write(review) =>
      if review in s.pending {
        WriteKeepsKnown(s, review, cfg);
      }
    case Drop(_) =>
    case Other(other) =>
      forall r | r in s.pending ensures L.Unclaimed(C.Apply(s.core, other, cfg), r.attendance) {
        L.UnclaimedStep(s.core, other, r.attendance, cfg);
      }
  }

  /** A step keeps the check-in invariant, and rejected attendances without credit, if and only if it is not a
      checked rejection of what has been awarded since. */
  lemma StepKeepsExactly(s: State, step: Step, cfg: Config)
    requires Sound(s)
    ensures Sound(Apply(s, step, cfg)) <==> !HitsCredited(s, step)
    ensures RejectedUncredited(Apply(s, step, cfg).core.db) <==> !HitsCredited(s, step)
  {
    var next := Apply(s, step, cfg);
    StepKeepsKnown(s, step, cfg);
    match step
    case CheckApprove(_) => SoundIsUncredited(s.core);
    case CheckReject(_) => SoundIsUncredited(s.core);
    case Drop(_) => SoundIsUncredited(s.core);
    case Other(other) =>
      C.StepKeeps(s.core, other, cfg);
      SoundIsUncredited(next.core);
    case Write(review) =>
      if review !in s.pending {
        SoundIsUncredited(s.core);
      } else if review.Approving? {
        ApprovalKeeps(s.core, review.attendance, cfg);
        SoundIsUncredited(next.core);
      } else {
        RejectionKeepsExactly(s.core, review.attendance, cfg);
      }
  }

  ghost predicate UncreditedThroughout(s: State, steps: seq<Step>, cfg: Config)
    decreases |steps|
  {
    && RejectedUncredited(s.core.db)
    && (|steps| > 0 ==> UncreditedThroughout(Apply(s, steps[0], cfg), steps[1..], cfg))
  }

  predicate NeverHits(s: State, steps: seq<Step>, cfg: Config)
    decreases |steps|
  {
    |steps| > 0 ==> !HitsCredited(s, steps[0]) && NeverHits(Apply(s, steps[0], cfg), steps[1..], cfg)
  }

  lemma NotUncreditedLater(s: State, steps: seq<Step>, cfg: Config)
    requires !RejectedUncredited(s.core.db)
    ensures !UncreditedThroughout(s, steps, cfg)
  {}

  /** Over every interleaving of check-in and reviews: no rejected attendance has a credit, throughout, if and
      only if no checked rejection ever writes to an attendance approved since with points due; and then the
      whole check-in invariant holds at the end. */
  lemma {:induction false} UncreditedExactly(s: State, steps: seq<Step>, cfg: Config)
    requires Sound(s)
    ensures UncreditedThroughout(s, steps, cfg) <==> NeverHits(s, steps, cfg)
    ensures NeverHits(s, steps, cfg) ==> Sound(Run(s, steps, cfg))
    decreases |steps|
  {
    SoundIsUncredited(s.core);
    if |steps| > 0 {
      var next := Apply(s, steps[0], cfg);
      StepKeepsExactly(s, steps[0], cfg);
      if RejectedUncredited(next.core.db) {
        UncreditedExactly(next, steps[1..], cfg);
      } else {
        NotUncreditedLater(next, steps[1..], cfg);
      }
    }
  }

  // ---------------------------------------------------------------- when a decision is final

  /** Decided, and no review of the other kind is past its check. */
  predicate Settled(s: State, a: AttendanceId)
    requires a in s.core.db.attendances
  {
    || (StatusOf(s.core, a) == C.Approved && Rejecting(a) !in s.pending)
    || (StatusOf(s.core, a) == C.Rejected && Approving(a) !in s.pending)
  }

  lemma OtherKeepsDecided(s: C.State, step: C.Step, cfg: Config, a: AttendanceId)
    requires a in s.db.attendances && StatusOf(s, a) != C.Pending
    ensures var next := C.Apply(s, step, cfg);
            a in next.db.attendances && next.db.attendances[a] == s.db.attendances[a]
  {
    match step
    case Approve(b) =>
    case PostOther(_) =>
    case _ =>
  }

  lemma WriteKeepsDecided(s: C.State, review: Review, cfg: Config, a: AttendanceId)
    requires a in s.db.attendances && StatusOf(s, a) != C.Pending
    requires review.attendance == a ==> (StatusOf(s, a) == C.Approved <==> review.Approving?)
    ensures var next := Written(s, review, cfg);
            a in next.db.attendances && StatusOf(next, a) == StatusOf(s, a)
  {}

  lemma CheckKeepsSettled(s: State, b: AttendanceId, review: Review, a: AttendanceId)
    requires a in s.core.db.attendances && Settled(s, a) && review.attendance == b
    ensures Checked(s, b, review).core == s.core && Settled(Checked(s, b, review), a)
  {}

  lemma StepKeepsSettled(s: State, step: Step, cfg: Config, a: AttendanceId)
    requires a in s.core.db.attendances && Settled(s, a)
    ensures var next := Apply(s, step, cfg);
            && a in next.core.db.attendances && StatusOf(next.core, a) == StatusOf(s.core, a)
            && Settled(next, a)
  {
    match step
    case CheckApprove(b) => CheckKeepsSettled(s, b, Approving(b), a);
    case CheckReject(b) => CheckKeepsSettled(s, b, Rejecting(b), a);
    case Write(review) =>
      if review in s.pending {
        WriteKeepsDecided(s.core, review, cfg, a);
      }
    case Drop(_) =>
    case Other(other) => OtherKeepsDecided(s.core, other, cfg, a);
  }

  lemma {:induction false} SettledStays(s: State, steps: seq<Step>, cfg: Config, a: AttendanceId)
    requires a in s.core.db.attendances && Settled(s, a)
    ensures var end := Run(s, steps, cfg);
            a in end.core.db.attendances && StatusOf(end.core, a) == StatusOf(s.core, a)
    decreases |steps|
  {
    if |steps| > 0 {
      StepKeepsSettled(s, steps[0], cfg, a);
      SettledStays(Apply(s, steps[0], cfg), steps[1..], cfg, a);
    }
  }

  /** The status is the same at the end of every run. */
  ghost predicate Final(s: State, a: AttendanceId, cfg: Config)
    requires a in s.core.db.attendances
  {
    forall steps :: a in Run(s, steps, cfg).core.db.attendances ==>
                      StatusOf(Run(s, steps, cfg).core, a) == StatusOf(s.core, a)
  }

  /** A run that changes a status that is not settled. */
  function Undoing(s: State, a: AttendanceId): seq<Step>
    requires a in s.core.db.attendances
  {
    var unblock := Other(C.SetAccountStatus(s.core.db.attendances[a].user, ActiveAccount));
    if StatusOf(s.core, a) == C.Approved then [Drop(Approving(a)), Write(Rejecting(a))]
    else if StatusOf(s.core, a) == C.Rejected then [unblock, Write(Approving(a))]
    else [CheckReject(a), Write(Rejecting(a))]
  }

  lemma RunTwo(s: State, x: Step, y: Step, cfg: Config)
    ensures Run(s, [x, y], cfg) == Apply(Apply(s, x, cfg), y, cfg)
  {
    assert [x, y][1..] == [y] && [y][1..] == [];
    assert Run(s, [x, y], cfg) == Run(Apply(s, x, cfg), [y], cfg);
    assert Run(Apply(s, x, cfg), [y], cfg) == Run(Apply(Apply(s, x, cfg), y, cfg), [], cfg);
  }

  lemma UnblockedApproval(s: C.State, a: AttendanceId, cfg: Config)
    requires C.EventsKnown(s.db) && a in s.db.attendances
    ensures var open := C.Apply(s, C.SetAccountStatus(s.db.attendances[a].user, ActiveAccount), cfg);
            && open.db.attendances == s.db.attendances
            && var end := Written(open, Approving(a), cfg);
               a in end.db.attendances && StatusOf(end, a) == C.Approved
  {
    var open := C.Apply(s, C.SetAccountStatus(s.db.attendances[a].user, ActiveAccount), cfg);
    assert AccountOf(open.db.book, s.db.attendances[a].user).status == ActiveAccount;
  }

  lemma ReviewWritten(s: State, first: Step, review: Review, cfg: Config)
    requires review in Apply(s, first, cfg).pending
    ensures Run(s, [first, Write(review)], cfg).core == Written(Apply(s, first, cfg).core, review, cfg)
  {
    RunTwo(s, first, Write(review), cfg);
  }

  lemma UndoingChanges(s: State, cfg: Config, a: AttendanceId)
    requires C.EventsKnown(s.core.db) && a in s.core.db.attendances && !Settled(s, a)
    ensures var end := Run(s, Undoing(s, a), cfg);
            a in end.core.db.attendances && StatusOf(end.core, a) != StatusOf(s.core, a)
  {
    var first := Undoing(s, a)[0];
    if StatusOf(s.core, a) == C.Rejected {
      UnblockedApproval(s.core, a, cfg);
      ReviewWritten(s, first, Approving(a), cfg);
    } else {
      assert Apply(s, first, cfg).core == s.core;
      ReviewWritten(s, first, Rejecting(a), cfg);
    }
  }

  /** A decision is final if and only if it is made and no review of the other kind is past its check. */
  lemma FinalExactly(s: State, cfg: Config, a: AttendanceId)
    requires C.EventsKnown(s.core.db) && a in s.core.db.attendances
    ensures Final(s, a, cfg) <==> Settled(s, a)
  {
    if Settled(s, a) {
      forall steps | a in Run(s, steps, cfg).core.db.attendances
        ensures StatusOf(Run(s, steps, cfg).core, a) == StatusOf(s.core, a)
      {
        SettledStays(s, steps, cfg, a);
      }
    } else {
      UndoingChanges(s, cfg, a);
      assert StatusOf(Run(s, Undoing(s, a), cfg).core, a) != StatusOf(s.core, a);
    }
  }

  // ---------------------------------------------------------------- the whole reviews are runs of their steps

  /** An approval with nothing else running is the run check, write. */
  lemma ApproveIsARun(s: C.State, a: AttendanceId, cfg: Config)
    requires C.Inv(s)
    ensures Apply(Apply(State(s, multiset{}), CheckApprove(a), cfg), Write(Approving(a)), cfg) ==
            State(C.Apply(s, C.Approve(a), cfg), multiset{})
  {
    assert a in s.db.attendances && StatusOf(s, a) == C.Pending ==> a !in s.awarded;
  }

  /** So is a rejection. */
  lemma RejectIsARun(s: C.State, a: AttendanceId, cfg: Config)
    requires C.Inv(s)
    ensures Apply(Apply(State(s, multiset{}), CheckReject(a), cfg), Write(Rejecting(a)), cfg) ==
            State(C.Apply(s, C.Reject(a), cfg), multiset{})
  {
    if a in s.db.attendances && StatusOf(s, a) == C.Pending {
      assert a !in s.awarded && s.awarded - {a} == s.awarded;
    }
  }

  // ---------------------------------------------------------------- the run that shows it

  /** A fresh deployment: one runner with a pending attendance of an event worth 50 points. */
  function OnePending(a: AttendanceId): State {
    var deployment := L.OneRunner();
    State(deployment.(db := deployment.db.(attendances := map[a := C.Attendance(0, 0, C.Pending)])), multiset{})
  }

  /** Two admins open the attendance; one approves, then the other's rejection is written. */
  function BothReview(a: AttendanceId): seq<Step> {
    [CheckReject(a), CheckApprove(a), Write(Approving(a)), Write(Rejecting(a))]
  }

  lemma RunBothReview(s: State, a: AttendanceId, cfg: Config)
    requires a in s.core.db.attendances && StatusOf(s.core, a) == C.Pending
    ensures Run(s, BothReview(a), cfg).core == Written(Written(s.core, Approving(a), cfg), Rejecting(a), cfg)
  {
    var open := Apply(Apply(s, CheckReject(a), cfg), CheckApprove(a), cfg);
    var back := [Write(Approving(a)), Write(Rejecting(a))];
    assert BothReview(a)[1..] == [CheckApprove(a)] + back && ([CheckApprove(a)] + back)[1..] == back;
    assert open == State(s.core, s.pending + multiset{Rejecting(a)} + multiset{Approving(a)});
    var approved := Apply(open, Write(Approving(a)), cfg);
    assert Rejecting(a) in approved.pending && approved.core == Written(s.core, Approving(a), cfg);
    RunTwo(open, back[0], back[1], cfg);
  }

  lemma ApprovalWritten(s: C.State, a: AttendanceId, att: C.Attendance, e: Event, cfg: Config)
    requires a in s.db.attendances && s.db.attendances[a] == att && att.event in s.db.events
    requires s.db.events[att.event] == e && Award(s.db.book, a, att.event, att.user, e, cfg).1.Ok?
    ensures var later := Written(s, Approving(a), cfg).db;
            && later.events == s.db.events && later.book == Award(s.db.book, a, att.event, att.user, e, cfg).0
            && later.attendances == s.db.attendances[a := att.(status := C.Approved)]
  {}

  lemma FirstApproval(s: C.State, a: AttendanceId, att: C.Attendance, due: Option<int>, cfg: Config)
    requires C.Inv(s) && a in s.db.attendances && s.db.attendances[a] == att && att.status == C.Pending
    requires due == Due(s.db.events[att.event], cfg) && AccountOf(s.db.book, att.user).status == ActiveAccount
    ensures var later := Written(s, Approving(a), cfg).db;
            && later.events == s.db.events && later.attendances == s.db.attendances[a := att.(status := C.Approved)]
            && CreditIs(later.book, a, att.user, due)
            && CreditsOnly(s.db.book, later.book, att.user, if due.Some? then due.value else 0)
  {
    var e := s.db.events[att.event];
    CreditIsThere(s, a);
    AwardWritesTheDue(s.db.book, a, att.user, e, cfg);
    assert e.id == att.event;
    ApprovalWritten(s, a, att, e, cfg);
  }

  lemma RejectionAfter(s: C.State, approved: C.State, a: AttendanceId, att: C.Attendance, cfg: Config)
    requires att.event in s.db.events && approved.db.events == s.db.events
    requires approved.db.attendances == s.db.attendances[a := att.(status := C.Approved)]
    ensures var later := Written(approved, Rejecting(a), cfg).db;
            && later.book == approved.db.book
            && later.attendances == s.db.attendances[a := att.(status := C.Rejected)]
  {
    assert approved.db.attendances[a] == att.(status := C.Approved);
  }

  lemma CreditHasKey(b: Book, a: AttendanceId, user: UserId, points: int)
    requires CreditIs(b, a, user, Some(points))
    ensures HasKey(b.rows, AttendanceKey(a))
  {}

  /** Whenever the approval earns something, the rejection written after it leaves the credit where it is. */
  lemma ApprovedThenRejected(s: C.State, a: AttendanceId, att: C.Attendance, points: int, cfg: Config)
    requires C.Inv(s) && a in s.db.attendances && s.db.attendances[a] == att && att.status == C.Pending
    requires AccountOf(s.db.book, att.user).status == ActiveAccount
    requires Due(s.db.events[att.event], cfg) == Some(points)
    ensures var end := Written(Written(s, Approving(a), cfg), Rejecting(a), cfg);
            && end.db.attendances == s.db.attendances[a := att.(status := C.Rejected)]
            && CreditIs(end.db.book, a, att.user, Some(points))
            && CreditsOnly(s.db.book, end.db.book, att.user, points)
            && HasKey(end.db.book.rows, AttendanceKey(a))
  {
    FirstApproval(s, a, att, Some(points), cfg);
    var approved := Written(s, Approving(a), cfg);
    RejectionAfter(s, approved, a, att, cfg);
    CreditHasKey(approved.db.book, a, att.user, points);
  }

  lemma OnePendingIs(a: AttendanceId, cfg: Config)
    ensures var s := OnePending(a);
            && C.Initial(s.core) && s.pending == multiset{}
            && s.core.db.attendances == map[a := C.Attendance(0, 0, C.Pending)]
            && 0 in s.core.db.events && Due(s.core.db.events[0], cfg) == Some(50)
            && AccountOf(s.core.db.book, 0).status == ActiveAccount && Balance(s.core.db.book, 0) == 0
  {
    L.OneRunnerIsInitial();
  }

  lemma BothReviewLeavesCredit(s: C.State, a: AttendanceId, points: int, end: C.State, cfg: Config)
    requires C.Inv(s) && s.db.attendances == map[a := C.Attendance(0, 0, C.Pending)]
    requires 0 in s.db.events && Due(s.db.events[0], cfg) == Some(points)
    requires AccountOf(s.db.book, 0).status == ActiveAccount && Balance(s.db.book, 0) == 0
    requires end == Written(Written(s, Approving(a), cfg), Rejecting(a), cfg)
    ensures end.db.attendances == map[a := C.Attendance(0, 0, C.Rejected)]
    ensures CreditIs(end.db.book, a, 0, Some(points)) && Balance(end.db.book, 0) == points
    ensures HasKey(end.db.book.rows, AttendanceKey(a))
  {
    ApprovedThenRejected(s, a, C.Attendance(0, 0, C.Pending), points, cfg);
    assert s.db.attendances[a := C.Attendance(0, 0, C.Rejected)] == map[a := C.Attendance(0, 0, C.Rejected)];
  }

  /** The attendance ends rejected, with the 50 points still credited. */
  lemma RejectedYetCredited(a: AttendanceId, cfg: Config)
    ensures var end := Run(OnePending(a), BothReview(a), cfg).core;
            && C.Initial(OnePending(a).core) && OnePending(a).pending == multiset{}
            && end.db.attendances == map[a := C.Attendance(0, 0, C.Rejected)]
            && CreditIs(end.db.book, a, 0, Some(50)) && Balance(end.db.book, 0) == 50
            && !RejectedUncredited(end.db)
  {
    var s := OnePending(a);
    OnePendingIs(a, cfg);
    C.InitialIsSound(s.core);
    RunBothReview(s, a, cfg);
    var end := Run(s, BothReview(a), cfg).core;
    BothReviewLeavesCredit(s.core, a, 50, end, cfg);
    assert a in end.db.attendances && end.db.attendances[a].status == C.Rejected;
  }
}
