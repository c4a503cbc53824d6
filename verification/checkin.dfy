/** QR check-in as a protocol: every delivery is a call whose prior lookup, resolution,
    serializable transaction and journal insert are separate steps, interleaved with other
    calls, re-sends, crashes, admin reviews and other ledger writers. */
module Checkin {
  import opened Domain
  import opened Ledger
  import opened Awards

  datatype Source = Device(device: nat, scan: nat) | Leader(leader: UserId)

  datatype ScanResult = Matched | Duplicate | NoWindow | UnknownCode | ProcessingError

  /** One journal row. `attendance` is set only by the scan that created the attendance. */
  datatype ScanRow = ScanRow(source: Source, user: Option<UserId>, event: Option<EventId>,
                             attendance: Option<AttendanceId>, result: ScanResult)

  datatype Status = Pending | Approved | Rejected

  datatype Attendance = Attendance(event: EventId, user: UserId, status: Status)

  datatype Db = Db(book: Book, events: map<EventId, Event>, attendances: map<AttendanceId, Attendance>,
                   journal: seq<ScanRow>)

  const MAX_SERIALIZATION_RETRIES: nat := 3

  // ---------------------------------------------------------------- the crediting transaction

  /** The user already has an attendance on some event of this day. */
  predicate SameDay(db: Db, user: UserId, day: Day) {
    exists a :: a in db.attendances && db.attendances[a].user == user &&
                db.attendances[a].event in db.events && DayOf(db.events[db.attendances[a].event].startsAt) == day
  }

  datatype TxOutcome = Created(attendance: AttendanceId) | AlreadyThere | AwardFailed(error: AwardError)

  /** Same-day guard, insert and award, committed together or not at all. `e` is the event row
      read when the scan was resolved; `newId` is the id drawn for a new attendance. */
  function CreditTx(db: Db, user: UserId, e: Event, newId: AttendanceId, cfg: Config): (Db, TxOutcome) {
    if SameDay(db, user, DayOf(e.startsAt)) then (db, AlreadyThere)
    else
      var (book, r) := Award(db.book, newId, e.id, user, e, cfg);
      if r.Err? then (db, AwardFailed(r.error))
      else (db.(book := book, attendances := db.attendances[newId := Attendance(e.id, user, Approved)]), Created(newId))
  }

  predicate SameDelivery(s: Source, t: Source) { s.Device? && s == t }

  /** The journal row of a device delivery, if one is stored. */
  function FindScan(journal: seq<ScanRow>, source: Source): (row: Option<ScanRow>)
    ensures row.Some? ==> row.value in journal && SameDelivery(row.value.source, source)
    ensures row.None? ==> forall r :: r in journal ==> !SameDelivery(r.source, source)
  {
    if |journal| == 0 then None
    else if SameDelivery(journal[0].source, source) then Some(journal[0])
    else FindScan(journal[1..], source)
  }

  // ---------------------------------------------------------------- calls and steps

  datatype Call =
    | Arrived(source: Source)
    | Resolving(source: Source)
    | Crediting(source: Source, user: UserId, event: Event, attempt: nat)
    | Recording(row: ScanRow)
    | Replied(row: ScanRow, idempotent: bool)

  /** `awarded` remembers, for every approval, the points due at that moment. */
  datatype State = State(db: Db, calls: map<nat, Call>, awarded: map<AttendanceId, Option<int>>)

  datatype Step =
    | Arrive(call: nat, source: Source)
    | LookupPrior(call: nat)
    | Resolve(call: nat, user: Option<UserId>, event: Option<EventId>)
    | CommitCredit(call: nat, newId: AttendanceId)
    | SerializationConflict(call: nat)
    | UniqueViolation(call: nat)
    | OtherFailure(call: nat)
    | Record(call: nat)
    | Lose(call: nat)
    | Approve(attendance: AttendanceId)
    | Reject(attendance: AttendanceId)
    | PostOther(posting: Posting)
    | SetAccountStatus(owner: UserId, status: AccountStatus)
    | SaveEvent(saved: Event)

  function Resolved(source: Source, user: Option<UserId>, event: Option<Event>): Call {
    if user.None? then Recording(ScanRow(source, None, None, None, UnknownCode))
    else if event.None? then Recording(ScanRow(source, user, None, None, NoWindow))
    else Crediting(source, user.value, event.value, 0)
  }

  function Credited(c: Call, attendance: Option<AttendanceId>, result: ScanResult): Call
    requires c.Crediting?
  {
    Recording(ScanRow(c.source, Some(c.user), Some(c.event.id), attendance, result))
  }

  function Outcome(c: Call, outcome: TxOutcome): Call
    requires c.Crediting?
  {
    match outcome
    case Created(a) => Credited(c, Some(a), Matched)
    case AlreadyThere => Credited(c, None, Duplicate)
    case AwardFailed(_) => Credited(c, None, ProcessingError)
  }

  /** The journal insert: a lost race on (device, scan) answers with the stored row. */
  function RecordScan(journal: seq<ScanRow>, row: ScanRow): (seq<ScanRow>, ScanRow) {
    var winner := FindScan(journal, row.source);
    if winner.Some? then (journal, winner.value) else (journal + [row], row)
  }

  function ApplyCall(s: State, id: nat, c: Call, step: Step, cfg: Config): State
    requires id in s.calls && s.calls[id] == c
  {
    match step
    case LookupPrior(_) =>
      if !c.Arrived? then s
      else
        var prior := FindScan(s.db.journal, c.source);
        s.(calls := s.calls[id := if prior.Some? then Replied(prior.value, true) else Resolving(c.source)])
    case Resolve(_, user, event) =>
      if !c.Resolving? || (event.Some? && event.value !in s.db.events) then s
      else
        var found := if event.Some? then Some(s.db.events[event.value]) else None;
        s.(calls := s.calls[id := Resolved(c.source, user, found)])
    case CommitCredit(_, newId) =>
      if !c.Crediting? || newId in s.db.attendances then s
      else
        var (db, outcome) := CreditTx(s.db, c.user, c.event, newId, cfg);
        State(db, s.calls[id := Outcome(c, outcome)],
              if outcome.Created? then s.awarded[newId := Due(c.event, cfg)] else s.awarded)
    case SerializationConflict(_) =>
      if !c.Crediting? then s
      else if c.attempt < MAX_SERIALIZATION_RETRIES then s.(calls := s.calls[id := c.(attempt := c.attempt + 1)])
      else s.(calls := s.calls[id := Credited(c, None, ProcessingError)])
    case UniqueViolation(_) =>
      if !c.Crediting? || !(exists a :: a in s.db.attendances && s.db.attendances[a].user == c.user
                                        && s.db.attendances[a].event == c.event.id) then s
      else s.(calls := s.calls[id := Credited(c, None, Duplicate)])
    case OtherFailure(_) =>
      if !c.Crediting? then s else s.(calls := s.calls[id := Credited(c, None, ProcessingError)])
    case Record(_) =>
      if !c.Recording? then s
      else
        var (journal, row) := RecordScan(s.db.journal, c.row);
        s.(db := s.db.(journal := journal), calls := s.calls[id := Replied(row, false)])
    case Lose(_) => s.(calls := s.calls - {id})
    case _ => s
  }

  function ApproveStep(s: State, a: AttendanceId, cfg: Config): State {
    if a !in s.db.attendances || s.db.attendances[a].status != Pending
       || s.db.attendances[a].event !in s.db.events then s
    else
      var att := s.db.attendances[a];
      var e := s.db.events[att.event];
      var (book, r) := Award(s.db.book, a, att.event, att.user, e, cfg);
      if r.Err? then s
      else s.(db := s.db.(book := book, attendances := s.db.attendances[a := att.(status := Approved)]),
              awarded := s.awarded[a := Due(e, cfg)])
  }

  function RejectStep(s: State, a: AttendanceId): State {
    if a !in s.db.attendances || s.db.attendances[a].status != Pending then s
    else s.(db := s.db.(attendances := s.db.attendances[a := s.db.attendances[a].(status := Rejected)]))
  }

  function Apply(s: State, step: Step, cfg: Config): State {
    match step
    case Arrive(id, source) =>
      if id in s.calls then s
      else s.(calls := s.calls[id := if source.Device? then Arrived(source) else Resolving(source)])
    case Approve(a) => ApproveStep(s, a, cfg)
    case Reject(a) => RejectStep(s, a)
    case PostOther(p) =>
      if p.key.AttendanceKey? then s else s.(db := s.db.(book := Post(s.db.book, p).0))
    case SetAccountStatus(u, status) =>
      s.(db := s.db.(book := WithStatus(s.db.book, u, status)))
    case SaveEvent(e) =>
      if e.id in s.db.events && s.db.events[e.id].startsAt != e.startsAt then s   // event times are held fixed
      else s.(db := s.db.(events := s.db.events[e.id := e]))
    case _ =>
      if step.call in s.calls then ApplyCall(s, step.call, s.calls[step.call], step, cfg) else s
  }

  function Run(s: State, steps: seq<Step>, cfg: Config): State
    decreases |steps|
  {
    if |steps| == 0 then s else Run(Apply(s, steps[0], cfg), steps[1..], cfg)
  }

  lemma {:induction false} RunConcat(s: State, xs: seq<Step>, ys: seq<Step>, cfg: Config)
    ensures Run(s, xs + ys, cfg) == Run(Run(s, xs, cfg), ys, cfg)
    decreases |xs|
  {
    if |xs| == 0 {
      assert xs + ys == ys;
    } else {
      assert (xs + ys)[1..] == xs[1..] + ys;
      RunConcat(Apply(s, xs[0], cfg), xs[1..], ys, cfg);
    }
  }

  // ---------------------------------------------------------------- what every run keeps

  ghost predicate EventsKnown(db: Db) {
    && (forall e :: e in db.events ==> db.events[e].id == e)
    && (forall a :: a in db.attendances ==> db.attendances[a].event in db.events)
  }

  function AttendanceDay(db: Db, a: AttendanceId): Day
    requires a in db.attendances && db.attendances[a].event in db.events
  {
    DayOf(db.events[db.attendances[a].event].startsAt)
  }

  /** A runner has at most one attendance per event-start day. */
  ghost predicate OnePerDay(db: Db)
    requires EventsKnown(db)
  {
    forall a, b | a in db.attendances && b in db.attendances && a != b ::
      db.attendances[a].user == db.attendances[b].user ==> AttendanceDay(db, a) != AttendanceDay(db, b)
  }

  /** At most one journal row per (device, scan), at most one row linking to an attendance. */
  ghost predicate JournalUnique(journal: seq<ScanRow>) {
    forall i, j :: 0 <= i < j < |journal| ==>
      && !SameDelivery(journal[i].source, journal[j].source)
      && (journal[i].attendance.Some? ==> journal[i].attendance != journal[j].attendance)
  }

  /** What a recorded outcome claims is true of the database. */
  ghost predicate RowTrue(db: Db, row: ScanRow) {
    && (row.attendance.Some? <==> row.result == Matched)
    && (row.result == Matched ==>
          && row.user.Some? && row.event.Some? && row.attendance.value in db.attendances
          && db.attendances[row.attendance.value] == Attendance(row.event.value, row.user.value, Approved))
    && (row.result == Duplicate ==>
          && row.user.Some? && row.event.Some? && row.event.value in db.events
          && SameDay(db, row.user.value, DayOf(db.events[row.event.value].startsAt)))
  }

  ghost predicate Linked(journal: seq<ScanRow>, a: AttendanceId) {
    exists i :: 0 <= i < |journal| && journal[i].attendance == Some(a)
  }

  ghost predicate CallSound(db: Db, c: Call) {
    match c
    case Arrived(source) => source.Device?
    case Resolving(_) => true
    case Crediting(_, _, e, attempt) =>
      e.id in db.events && db.events[e.id].startsAt == e.startsAt && attempt <= MAX_SERIALIZATION_RETRIES
    case Recording(row) => RowTrue(db, row) && (row.attendance.Some? ==> !Linked(db.journal, row.attendance.value))
    case Replied(row, _) => row in db.journal
  }

  /** Two calls about to record never hold the same attendance. */
  ghost predicate OwnersDistinct(calls: map<nat, Call>) {
    forall c, d | c in calls && d in calls && c != d && calls[c].Recording? && calls[d].Recording? ::
      calls[c].row.attendance.Some? ==> calls[c].row.attendance != calls[d].row.attendance
  }

  /** Pending and rejected attendances have no credit; an approved one has exactly the credit
      due when it was approved; a credit always belongs to a stored attendance. */
  ghost predicate CreditsMatch(s: State) {
    && (forall a :: HasKey(s.db.book.rows, AttendanceKey(a)) ==> a in s.db.attendances)
    && (forall a :: a in s.awarded <==> a in s.db.attendances && s.db.attendances[a].status == Approved)
    && (forall a :: a in s.db.attendances ==>
          CreditIs(s.db.book, a, s.db.attendances[a].user, if a in s.awarded then s.awarded[a] else None))
  }

  ghost predicate Inv(s: State) {
    && Valid(s.db.book)
    && EventsKnown(s.db)
    && OnePerDay(s.db)
    && JournalUnique(s.db.journal)
    && (forall i :: 0 <= i < |s.db.journal| ==> RowTrue(s.db, s.db.journal[i]))
    && (forall c :: c in s.calls ==> CallSound(s.db, s.calls[c]))
    && OwnersDistinct(s.calls)
    && CreditsMatch(s)
  }

  /** A fresh deployment: ledger and events in any sound state, attendances all still pending
      and at most one per day, nothing journalled, no call in flight. */
  ghost predicate Initial(s: State) {
    && Valid(s.db.book) && EventsKnown(s.db) && OnePerDay(s.db)
    && s.db.journal == [] && s.calls == map[] && s.awarded == map[]
    && (forall a :: a in s.db.attendances ==> s.db.attendances[a].status == Pending)
    && (forall a :: !HasKey(s.db.book.rows, AttendanceKey(a)))
  }

  lemma InitialIsSound(s: State)
    requires Initial(s)
    ensures Inv(s)
  {}

  // ---------------------------------------------------------------- steps keep the invariant

  /** The database only ever grows: event times stay, attendances keep their owner and event,
      a reviewed attendance keeps its status, committed journal rows stay where they are. */
  ghost predicate Grows(db: Db, later: Db) {
    && (forall e :: e in db.events ==> e in later.events && later.events[e].startsAt == db.events[e].startsAt)
    && (forall a :: a in db.attendances ==>
          && a in later.attendances
          && later.attendances[a].user == db.attendances[a].user
          && later.attendances[a].event == db.attendances[a].event
          && (db.attendances[a].status != Pending ==> later.attendances[a] == db.attendances[a]))
    && db.journal <= later.journal
    && db.book.rows <= later.book.rows
  }

  lemma SameDayGrows(db: Db, later: Db, user: UserId, day: Day)
    requires Grows(db, later) && SameDay(db, user, day)
    ensures SameDay(later, user, day)
  {
    var a :| a in db.attendances && db.attendances[a].user == user &&
             db.attendances[a].event in db.events && DayOf(db.events[db.attendances[a].event].startsAt) == day;
    assert a in later.attendances && later.attendances[a].user == user;
  }

  lemma RowTrueGrows(db: Db, later: Db, row: ScanRow)
    requires Grows(db, later) && RowTrue(db, row)
    ensures RowTrue(later, row)
  {
    if row.result == Duplicate {
      SameDayGrows(db, later, row.user.value, DayOf(db.events[row.event.value].startsAt));
    }
  }

  /** A step that leaves journal and calls alone keeps every claim about them. */
  lemma CallsSurvive(s: State, later: State)
    requires Inv(s) && Grows(s.db, later.db) && later.db.journal == s.db.journal && later.calls == s.calls
    ensures forall i :: 0 <= i < |later.db.journal| ==> RowTrue(later.db, later.db.journal[i])
    ensures forall c :: c in later.calls ==> CallSound(later.db, later.calls[c])
  {
    forall i | 0 <= i < |later.db.journal| ensures RowTrue(later.db, later.db.journal[i]) {
      RowTrueGrows(s.db, later.db, s.db.journal[i]);
    }
    forall c | c in later.calls ensures CallSound(later.db, later.calls[c]) {
      assert CallSound(s.db, s.calls[c]);
      if s.calls[c].Recording? {
        RowTrueGrows(s.db, later.db, s.calls[c].row);
      }
    }
  }

  /** A sound change of ledger, events or attendances keeps the invariant. */
  lemma DbChangeKeeps(s: State, later: State)
    requires Inv(s) && Grows(s.db, later.db) && later.db.journal == s.db.journal && later.calls == s.calls
    requires Valid(later.db.book) && EventsKnown(later.db) && OnePerDay(later.db) && CreditsMatch(later)
    ensures Inv(later)
  {
    CallsSurvive(s, later);
  }

  lemma DaysUntouched(db: Db, book: Book)
    requires EventsKnown(db) && OnePerDay(db) && db.book.rows <= book.rows
    ensures EventsKnown(db.(book := book)) && OnePerDay(db.(book := book)) && Grows(db, db.(book := book))
  {
    forall a | a in db.attendances ensures AttendanceDay(db.(book := book), a) == AttendanceDay(db, a) {}
  }

  /** Rows with other keys may join the ledger without disturbing a credit. */
  lemma SameKeysKeepCredits(s: State, later: State)
    requires CreditsMatch(s) && later.awarded == s.awarded && later.db.attendances == s.db.attendances
    requires s.db.book.rows <= later.db.book.rows
    requires forall k: Key :: k.AttendanceKey? ==> FindKey(later.db.book.rows, k) == FindKey(s.db.book.rows, k)
    ensures CreditsMatch(later)
  {
    forall b | HasKey(later.db.book.rows, AttendanceKey(b)) ensures b in later.db.attendances {
      assert FindKey(s.db.book.rows, AttendanceKey(b)).Some?;
      assert HasKey(s.db.book.rows, AttendanceKey(b));
    }
    forall b | b in later.db.attendances
      ensures CreditIs(later.db.book, b, later.db.attendances[b].user,
                       if b in later.awarded then later.awarded[b] else None)
    {
      assert CreditIs(s.db.book, b, s.db.attendances[b].user, if b in s.awarded then s.awarded[b] else None);
    }
  }

  /** Ledger traffic that leaves the credits matching keeps the invariant. */
  lemma BookChangeKeeps(s: State, book: Book)
    requires Inv(s) && Valid(book) && s.db.book.rows <= book.rows
    requires forall k: Key :: k.AttendanceKey? ==> FindKey(book.rows, k) == FindKey(s.db.book.rows, k)
    ensures Inv(s.(db := s.db.(book := book))) && Grows(s.db, s.db.(book := book))
  {
    var later := s.(db := s.db.(book := book));
    DaysUntouched(s.db, book);
    SameKeysKeepCredits(s, later);
    DbChangeKeeps(s, later);
  }

  /** Moving one call to a sound place keeps the invariant. */
  lemma MoveCall(s: State, id: nat, c: Call)
    requires Inv(s) && CallSound(s.db, c)
    requires c.Recording? ==> c.row.attendance.None?
    ensures Inv(s.(calls := s.calls[id := c]))
  {}

  /** Storing one new attendance on a day its runner had none keeps one per day. */
  lemma NewAttendanceKeepsDays(db: Db, later: Db, newId: AttendanceId, user: UserId, e: Event)
    requires EventsKnown(db) && OnePerDay(db) && newId !in db.attendances
    requires e.id in db.events && db.events[e.id].startsAt == e.startsAt && !SameDay(db, user, DayOf(e.startsAt))
    requires later.events == db.events && later.attendances == db.attendances[newId := Attendance(e.id, user, Approved)]
    ensures EventsKnown(later) && OnePerDay(later)
  {
    forall a | a in db.attendances
      ensures AttendanceDay(later, a) == AttendanceDay(db, a)
      ensures db.attendances[a].user == user ==> AttendanceDay(db, a) != DayOf(e.startsAt)
    {}
  }

  /** A review changes a status and nothing a day depends on. */
  lemma ReviewKeepsDays(db: Db, later: Db, a: AttendanceId, status: Status)
    requires EventsKnown(db) && OnePerDay(db) && a in db.attendances
    requires later.events == db.events && later.attendances == db.attendances[a := db.attendances[a].(status := status)]
    ensures EventsKnown(later) && OnePerDay(later)
  {
    forall b | b in db.attendances ensures AttendanceDay(later, b) == AttendanceDay(db, b) {}
  }

  /** A call that just created an attendance becomes its only owner. */
  lemma MoveToOwner(s: State, id: nat, row: ScanRow)
    requires Inv(s) && RowTrue(s.db, row) && row.attendance.Some? && !Linked(s.db.journal, row.attendance.value)
    requires forall c :: c in s.calls && s.calls[c].Recording? ==> s.calls[c].row.attendance != row.attendance
    ensures Inv(s.(calls := s.calls[id := Recording(row)]))
  {}

  lemma CreatedGrows(db: Db, later: Db, newId: AttendanceId)
    requires newId !in db.attendances && newId in later.attendances && later.events == db.events
    requires later.journal == db.journal
    requires later.attendances == db.attendances[newId := later.attendances[newId]] && db.book.rows <= later.book.rows
    ensures Grows(db, later)
  {}

  lemma CreditSurvives(s: State, book: Book, b: AttendanceId)
    requires CreditsMatch(s) && b in s.db.attendances && s.db.book.rows <= book.rows
    requires FindKey(book.rows, AttendanceKey(b)) == FindKey(s.db.book.rows, AttendanceKey(b))
    ensures CreditIs(book, b, s.db.attendances[b].user, if b in s.awarded then s.awarded[b] else None)
  {
    assert CreditIs(s.db.book, b, s.db.attendances[b].user, if b in s.awarded then s.awarded[b] else None);
  }

  lemma CreditHasOwner(s: State, rows: seq<Row>, b: AttendanceId)
    requires CreditsMatch(s) && FindKey(rows, AttendanceKey(b)) == FindKey(s.db.book.rows, AttendanceKey(b))
    ensures HasKey(rows, AttendanceKey(b)) ==> b in s.db.attendances
  {
    if HasKey(rows, AttendanceKey(b)) {
      assert FindKey(s.db.book.rows, AttendanceKey(b)).Some?;
      assert HasKey(s.db.book.rows, AttendanceKey(b));
    }
  }

  /** Awarding `a` leaves every other attendance's credit as it was. */
  lemma CreditsSurvive(s: State, later: State, a: AttendanceId)
    requires CreditsMatch(s)
    requires a in later.awarded && later.awarded == s.awarded[a := later.awarded[a]]
    requires a in later.db.attendances && later.db.attendances == s.db.attendances[a := later.db.attendances[a]]
    requires later.db.attendances[a].status == Approved
    requires CreditIs(later.db.book, a, later.db.attendances[a].user, later.awarded[a])
    requires s.db.book.rows <= later.db.book.rows
    requires forall b: AttendanceId ::
               b != a ==> FindKey(later.db.book.rows, AttendanceKey(b)) == FindKey(s.db.book.rows, AttendanceKey(b))
    ensures CreditsMatch(later)
  {
    assert forall b :: b in later.awarded <==> b in later.db.attendances && later.db.attendances[b].status == Approved
    by {
      assert forall b :: b in s.awarded <==> b in s.db.attendances && s.db.attendances[b].status == Approved;
    }
    forall b | HasKey(later.db.book.rows, AttendanceKey(b)) ensures b in later.db.attendances {
      if b != a {
        CreditHasOwner(s, later.db.book.rows, b);
      }
    }
    forall b | b in later.db.attendances
      ensures CreditIs(later.db.book, b, later.db.attendances[b].user,
                       if b in later.awarded then later.awarded[b] else None)
    {
      if b == a {
        assert b in later.awarded;
      } else {
        assert b in s.db.attendances && later.db.attendances[b] == s.db.attendances[b];
        CreditSurvives(s, later.db.book, b);
      }
    }
  }

  lemma CreatedKeeps(s: State, user: UserId, e: Event, newId: AttendanceId, cfg: Config)
    requires Inv(s) && newId !in s.db.attendances && CreditTx(s.db, user, e, newId, cfg).1.Created?
    requires e.id in s.db.events && s.db.events[e.id].startsAt == e.startsAt
    ensures var db := CreditTx(s.db, user, e, newId, cfg).0;
            Grows(s.db, db) && Inv(State(db, s.calls, s.awarded[newId := Due(e, cfg)]))
  {
    AwardWritesTheDue(s.db.book, newId, user, e, cfg);
    var db := CreditTx(s.db, user, e, newId, cfg).0;
    var later := State(db, s.calls, s.awarded[newId := Due(e, cfg)]);
    CreatedGrows(s.db, db, newId);
    NewAttendanceKeepsDays(s.db, db, newId, user, e);
    CreditsSurvive(s, later, newId);
    DbChangeKeeps(s, later);
  }

  lemma NewAttendanceIsUnowned(s: State, a: AttendanceId)
    requires Inv(s) && a !in s.db.attendances
    ensures !Linked(s.db.journal, a)
    ensures forall c :: c in s.calls && s.calls[c].Recording? ==> s.calls[c].row.attendance != Some(a)
  {
    forall i | 0 <= i < |s.db.journal| ensures s.db.journal[i].attendance != Some(a) {
      assert RowTrue(s.db, s.db.journal[i]);
    }
    forall c | c in s.calls && s.calls[c].Recording? ensures s.calls[c].row.attendance != Some(a) {
      assert CallSound(s.db, s.calls[c]);
    }
  }

  lemma CreditKeeps(s: State, id: nat, c: Call, newId: AttendanceId, cfg: Config)
    requires Inv(s) && id in s.calls && s.calls[id] == c && c.Crediting? && newId !in s.db.attendances
    ensures Inv(ApplyCall(s, id, c, CommitCredit(id, newId), cfg))
    ensures Grows(s.db, ApplyCall(s, id, c, CommitCredit(id, newId), cfg).db)
  {
    assert CallSound(s.db, c);
    var (db, outcome) := CreditTx(s.db, c.user, c.event, newId, cfg);
    if outcome.Created? {
      CreatedKeeps(s, c.user, c.event, newId, cfg);
      NewAttendanceIsUnowned(s, newId);
      MoveToOwner(State(db, s.calls, s.awarded[newId := Due(c.event, cfg)]), id, Outcome(c, outcome).row);
    } else {
      MoveCall(s, id, Outcome(c, outcome));
    }
  }

  lemma RecordKeeps(s: State, id: nat, c: Call, cfg: Config)
    requires Inv(s) && id in s.calls && s.calls[id] == c && c.Recording?
    ensures Inv(ApplyCall(s, id, c, Record(id), cfg))
    ensures Grows(s.db, ApplyCall(s, id, c, Record(id), cfg).db)
  {
    assert CallSound(s.db, c);
    var (journal, row) := RecordScan(s.db.journal, c.row);
    if journal == s.db.journal {
      MoveCall(s, id, Replied(row, false));
    } else {
      var end := ApplyCall(s, id, c, Record(id), cfg);
      assert end.db.journal == s.db.journal + [c.row];
      assert end.db.journal[|s.db.journal|] == c.row;
      forall i | 0 <= i < |end.db.journal| ensures RowTrue(end.db, end.db.journal[i]) {
        RowTrueGrows(s.db, end.db, (s.db.journal + [c.row])[i]);
      }
      assert JournalUnique(end.db.journal) by {
        forall i | 0 <= i < |s.db.journal|
          ensures !SameDelivery(s.db.journal[i].source, c.row.source)
          ensures s.db.journal[i].attendance.Some? ==> s.db.journal[i].attendance != c.row.attendance
        {
          assert s.db.journal[i] in s.db.journal;
        }
      }
      forall d | d in end.calls ensures CallSound(end.db, end.calls[d]) {
        if d != id {
          assert CallSound(s.db, s.calls[d]);
          if s.calls[d].Recording? {
            RowTrueGrows(s.db, end.db, s.calls[d].row);
          }
        }
      }
    }
  }

  lemma ApproveCredits(s: State, a: AttendanceId, cfg: Config)
    requires Inv(s) && ApproveStep(s, a, cfg) != s
    ensures var end := ApproveStep(s, a, cfg);
            Valid(end.db.book) && s.db.book.rows <= end.db.book.rows && CreditsMatch(end)
  {
    var end := ApproveStep(s, a, cfg);
    var att := s.db.attendances[a];
    assert CreditIs(s.db.book, a, att.user, None);
    AwardWritesTheDue(s.db.book, a, att.user, s.db.events[att.event], cfg);
    CreditsSurvive(s, end, a);
  }

  lemma ReviewGrows(db: Db, later: Db, a: AttendanceId, status: Status)
    requires a in db.attendances && db.attendances[a].status == Pending
    requires later.events == db.events && later.attendances == db.attendances[a := db.attendances[a].(status := status)]
    requires later.journal == db.journal && db.book.rows <= later.book.rows
    ensures Grows(db, later)
  {}

  lemma ApproveKeeps(s: State, a: AttendanceId, cfg: Config)
    requires Inv(s)
    ensures Inv(ApproveStep(s, a, cfg))
    ensures Grows(s.db, ApproveStep(s, a, cfg).db)
  {
    var end := ApproveStep(s, a, cfg);
    if end != s {
      ApproveCredits(s, a, cfg);
      ReviewGrows(s.db, end.db, a, Approved);
      ReviewKeepsDays(s.db, end.db, a, Approved);
      DbChangeKeeps(s, end);
    }
  }

  /** While no key, approval or owner changes, the credits keep matching. */
  lemma BookUnchangedKeepsCredits(s: State, later: State)
    requires CreditsMatch(s) && later.awarded == s.awarded && later.db.book.rows == s.db.book.rows
    requires later.db.attendances.Keys == s.db.attendances.Keys
    requires forall a :: a in s.db.attendances ==>
               && later.db.attendances[a].user == s.db.attendances[a].user
               && (later.db.attendances[a].status == Approved <==> s.db.attendances[a].status == Approved)
    ensures CreditsMatch(later)
  {
    forall b | b in later.db.attendances
      ensures CreditIs(later.db.book, b, later.db.attendances[b].user,
                       if b in later.awarded then later.awarded[b] else None)
    {
      assert CreditIs(s.db.book, b, s.db.attendances[b].user, if b in s.awarded then s.awarded[b] else None);
    }
  }

  lemma RejectKeeps(s: State, a: AttendanceId)
    requires Inv(s)
    ensures Inv(RejectStep(s, a))
    ensures Grows(s.db, RejectStep(s, a).db)
  {
    var end := RejectStep(s, a);
    if end != s {
      ReviewGrows(s.db, end.db, a, Rejected);
      ReviewKeepsDays(s.db, end.db, a, Rejected);
      BookUnchangedKeepsCredits(s, end);
      DbChangeKeeps(s, end);
    }
  }

  lemma PostKeepsOtherKeys(b: Book, p: Posting, k: Key)
    requires k != p.key
    ensures FindKey(Post(b, p).0.rows, k) == FindKey(b.rows, k)
  {
    if Post(b, p).0 != b {
      FindKeyAppend(b.rows, Post(b, p).0.rows[|b.rows|], k);
    }
  }

  /** Ledger writers with keys of their own never touch an attendance's credit. */
  lemma OtherPostingKeeps(s: State, p: Posting)
    requires Inv(s) && !p.key.AttendanceKey?
    ensures Inv(s.(db := s.db.(book := Post(s.db.book, p).0)))
    ensures Grows(s.db, s.db.(book := Post(s.db.book, p).0))
  {
    PostKeepsValid(s.db.book, p);
    var end := s.(db := s.db.(book := Post(s.db.book, p).0));
    forall k: Key | k.AttendanceKey? ensures FindKey(end.db.book.rows, k) == FindKey(s.db.book.rows, k) {
      PostKeepsOtherKeys(s.db.book, p, k);
    }
    BookChangeKeeps(s, end.db.book);
  }

  lemma StatusKeeps(s: State, owner: UserId, status: AccountStatus, cfg: Config)
    requires Inv(s)
    ensures Inv(Apply(s, SetAccountStatus(owner, status), cfg))
    ensures Grows(s.db, Apply(s, SetAccountStatus(owner, status), cfg).db)
  {
    StatusKeepsValid(s.db.book, owner, status);
    BookChangeKeeps(s, WithStatus(s.db.book, owner, status));
  }

  lemma SaveEventKeeps(s: State, e: Event, cfg: Config)
    requires Inv(s)
    ensures Inv(Apply(s, SaveEvent(e), cfg))
    ensures Grows(s.db, Apply(s, SaveEvent(e), cfg).db)
  {
    var end := Apply(s, SaveEvent(e), cfg);
    forall a | a in s.db.attendances ensures AttendanceDay(end.db, a) == AttendanceDay(s.db, a) {}
    DbChangeKeeps(s, end);
  }

  lemma LoseKeeps(s: State, id: nat)
    requires Inv(s)
    ensures Inv(s.(calls := s.calls - {id}))
  {}

  /** Steps that read, retry or give up move one call and touch nothing else. */
  lemma QuietStepKeeps(s: State, id: nat, c: Call, step: Step, cfg: Config)
    requires Inv(s) && id in s.calls && s.calls[id] == c
    requires step.LookupPrior? || step.Resolve? || step.SerializationConflict? || step.OtherFailure?
    ensures Inv(ApplyCall(s, id, c, step, cfg))
    ensures Grows(s.db, ApplyCall(s, id, c, step, cfg).db)
  {
    var end := ApplyCall(s, id, c, step, cfg);
    assert CallSound(s.db, c);
    if end != s {
      MoveCall(s, id, end.calls[id]);
    }
  }

  lemma DuplicateIsTrue(db: Db, c: Call, a: AttendanceId)
    requires c.Crediting? && c.event.id in db.events && a in db.attendances
    requires db.attendances[a].user == c.user && db.attendances[a].event == c.event.id
    ensures RowTrue(db, Credited(c, None, Duplicate).row)
  {
    assert SameDay(db, c.user, DayOf(db.events[c.event.id].startsAt));
  }

  lemma DuplicateKeeps(s: State, id: nat, c: Call, a: AttendanceId)
    requires Inv(s) && CallSound(s.db, c) && c.Crediting? && a in s.db.attendances
    requires s.db.attendances[a].user == c.user && s.db.attendances[a].event == c.event.id
    ensures Inv(s.(calls := s.calls[id := Credited(c, None, Duplicate)]))
  {
    DuplicateIsTrue(s.db, c, a);
    MoveCall(s, id, Credited(c, None, Duplicate));
  }

  /** A unique violation means the (event, user) row is committed, so "duplicate" is true. */
  lemma UniqueViolationKeeps(s: State, id: nat, c: Call, cfg: Config)
    requires Inv(s) && id in s.calls && s.calls[id] == c && CallSound(s.db, c)
    ensures Inv(ApplyCall(s, id, c, UniqueViolation(id), cfg))
    ensures Grows(s.db, ApplyCall(s, id, c, UniqueViolation(id), cfg).db)
  {
    if c.Crediting? && exists a :: a in s.db.attendances && s.db.attendances[a].user == c.user
                                   && s.db.attendances[a].event == c.event.id {
      var a :| a in s.db.attendances && s.db.attendances[a].user == c.user && s.db.attendances[a].event == c.event.id;
      DuplicateKeeps(s, id, c, a);
      assert ApplyCall(s, id, c, UniqueViolation(id), cfg) ==
             s.(calls := s.calls[id := Credited(c, None, Duplicate)]);
    } else {
      assert ApplyCall(s, id, c, UniqueViolation(id), cfg) == s;
    }
  }

  lemma CallStepKeeps(s: State, id: nat, step: Step, cfg: Config)
    requires Inv(s) && id in s.calls
    ensures Inv(ApplyCall(s, id, s.calls[id], step, cfg))
    ensures Grows(s.db, ApplyCall(s, id, s.calls[id], step, cfg).db)
  {
    var c := s.calls[id];
    assert CallSound(s.db, c);
    match step
    case CommitCredit(_, newId) =>
      if c.Crediting? && newId !in s.db.attendances {
        CreditKeeps(s, id, c, newId, cfg);
      }
    case UniqueViolation(_) =>
      UniqueViolationKeeps(s, id, c, cfg);
    case LookupPrior(_) => QuietStepKeeps(s, id, c, step, cfg);
    case Resolve(_, _, _) => QuietStepKeeps(s, id, c, step, cfg);
    case SerializationConflict(_) => QuietStepKeeps(s, id, c, step, cfg);
    case OtherFailure(_) => QuietStepKeeps(s, id, c, step, cfg);
    case Record(_) =>
      if c.Recording? {
        RecordKeeps(s, id, c, cfg);
      }
    case Lose(_) =>
      LoseKeeps(s, id);
    case _ =>
  }

  lemma StepKeeps(s: State, step: Step, cfg: Config)
    requires Inv(s)
    ensures Inv(Apply(s, step, cfg))
    ensures Grows(s.db, Apply(s, step, cfg).db)
  {
    match step
    case Arrive(id, source) =>
      if id !in s.calls {
        MoveCall(s, id, if source.Device? then Arrived(source) else Resolving(source));
      }
    case Approve(a) => ApproveKeeps(s, a, cfg);
    case Reject(a) => RejectKeeps(s, a);
    case PostOther(p) =>
      if !p.key.AttendanceKey? {
        OtherPostingKeeps(s, p);
      }
    case SetAccountStatus(u, status) => StatusKeeps(s, u, status, cfg);
    case SaveEvent(e) => SaveEventKeeps(s, e, cfg);
    case _ =>
      if step.call in s.calls {
        CallStepKeeps(s, step.call, step, cfg);
      }
  }

  lemma GrowsTransitively(a: Db, b: Db, c: Db)
    requires Grows(a, b) && Grows(b, c)
    ensures Grows(a, c)
  {}

  lemma {:induction false} EveryRunKeeps(s: State, steps: seq<Step>, cfg: Config)
    requires Inv(s)
    ensures Inv(Run(s, steps, cfg))
    ensures Grows(s.db, Run(s, steps, cfg).db)
    decreases |steps|
  {
    if |steps| > 0 {
      var next := Apply(s, steps[0], cfg);
      StepKeeps(s, steps[0], cfg);
      EveryRunKeeps(next, steps[1..], cfg);
      GrowsTransitively(s.db, next.db, Run(s, steps, cfg).db);
    }
  }
}
