/** The check-in service as code: a scan handled from prior lookup to journal row, with the
    serialization-retry loop, and the proof that a delivery handled this way is a run of the
    protocol in which no other call moves. */
module CheckinService {
  import opened Domain
  import opened Ledger
  import opened Awards
  import opened Checkin

  /** How the database answers one attempt at the crediting transaction. */
  datatype Answer = Commits | Conflicts | Violates | Fails

  /** The attempt that decides: the first one not answered by a conflict, or the last one allowed. */
  function Deciding(answers: seq<Answer>, attempt: nat): (k: nat)
    requires |answers| == MAX_SERIALIZATION_RETRIES + 1 && attempt <= MAX_SERIALIZATION_RETRIES
    ensures attempt <= k <= MAX_SERIALIZATION_RETRIES
    ensures forall i :: attempt <= i < k ==> answers[i] == Conflicts
    ensures answers[k] == Conflicts ==> k == MAX_SERIALIZATION_RETRIES
    decreases MAX_SERIALIZATION_RETRIES - attempt
  {
    if answers[attempt].Conflicts? && attempt < MAX_SERIALIZATION_RETRIES
    then Deciding(answers, attempt + 1)
    else attempt
  }

  datatype Settlement = Settlement(db: Db, attendance: Option<AttendanceId>, result: ScanResult)

  /** Effect and outcome of crediting when the deciding attempt gets this answer. */
  function Settle(db: Db, user: UserId, e: Event, newId: AttendanceId, cfg: Config, answer: Answer): Settlement {
    match answer
    case Commits =>
      var (after, outcome) := CreditTx(db, user, e, newId, cfg);
      (match outcome
       case Created(a) => Settlement(after, Some(a), Matched)
       case AlreadyThere => Settlement(after, None, Duplicate)
       case AwardFailed(_) => Settlement(after, None, ProcessingError))
    case Violates => Settlement(db, None, Duplicate)
    case Conflicts => Settlement(db, None, ProcessingError)
    case Fails => Settlement(db, None, ProcessingError)
  }

  /** The look-up of the open occurrence, which materializes it: an event, none, or an exception that ends the
      request (the occurrence could not be made). It is made outside the crediting `try`. */
  datatype Lookup = Finds(event: Option<Event>) | Throws

  /** The journal row a scan asks to store, and the database just before it does. */
  function Resolution(db: Db, source: Source, user: Option<UserId>, e: Option<Event>, newId: AttendanceId, cfg: Config,
                      answer: Answer): (Db, ScanRow)
  {
    if user.None? then (db, ScanRow(source, None, None, None, UnknownCode))
    else if e.None? then (db, ScanRow(source, user, None, None, NoWindow))
    else
      var credit := Settle(db, user.value, e.value, newId, cfg, answer);
      (credit.db, ScanRow(source, user, Some(e.value.id), credit.attendance, credit.result))
  }

  datatype Reply = Reply(row: ScanRow, idempotent: bool)

  /** The request ends with an exception: a known runner, a scan not stored yet, and a look-up that throws. */
  predicate EndsInError(db: Db, source: Source, user: Option<UserId>, lookup: Lookup) {
    FindScan(db.journal, source).None? && user.Some? && lookup.Throws?
  }

  /** A whole delivery handled with nothing else running; None is the error answer. */
  function Deliver(db: Db, source: Source, user: Option<UserId>, lookup: Lookup, newId: AttendanceId, cfg: Config,
                   answer: Answer): (Db, Option<Reply>)
  {
    var prior := FindScan(db.journal, source);
    if prior.Some? then (db, Some(Reply(prior.value, true)))
    else if EndsInError(db, source, user, lookup) then (db, None)
    else
      var e := if lookup.Finds? then lookup.event else None;
      var (mid, row) := Resolution(db, source, user, e, newId, cfg, answer);
      var (journal, stored) := RecordScan(mid.journal, row);
      (mid.(journal := journal), Some(Reply(stored, false)))
  }

  /** A device delivery has its row afterwards if and only if it does not end in an error; then nothing is stored,
      and no attendance or credit either. */
  lemma DeliveredIsJournalledExactly(db: Db, source: Source, user: Option<UserId>, lookup: Lookup, newId: AttendanceId,
                                     cfg: Config, answer: Answer)
    requires source.Device?
    ensures var (after, reply) := Deliver(db, source, user, lookup, newId, cfg, answer);
            && (FindScan(after.journal, source).Some? <==> !EndsInError(db, source, user, lookup))
            && (reply.Some? <==> FindScan(after.journal, source).Some?)
            && (reply.Some? ==> reply.value.row in after.journal && SameDelivery(reply.value.row.source, source))
            && (reply.None? ==> after == db)
  {
    var (after, reply) := Deliver(db, source, user, lookup, newId, cfg, answer);
    if after.journal != db.journal {
      assert reply.value.row in after.journal;
    }
  }

  class CheckinService {
    var db: Db
    const config: Config

    constructor (db: Db, config: Config)
      ensures this.db == db && this.config == config
    {
      this.db, this.config := db, config;
    }

    /** Retries serialization conflicts at most MAX_SERIALIZATION_RETRIES times. */
    method CreateAttendanceAndAward(user: UserId, e: Event, newId: AttendanceId, answers: seq<Answer>)
      returns (attendance: Option<AttendanceId>, result: ScanResult, attempts: nat)
      requires |answers| == MAX_SERIALIZATION_RETRIES + 1
      modifies this
      ensures Settlement(db, attendance, result) ==
              Settle(old(db), user, e, newId, config, answers[Deciding(answers, 0)])
      ensures attempts == Deciding(answers, 0) + 1 <= 4 && (answers[attempts - 1].Conflicts? ==> attempts == 4)
    {
      var attempt := 0;
      while true
        invariant attempt <= MAX_SERIALIZATION_RETRIES && db == old(db)
        invariant Deciding(answers, attempt) == Deciding(answers, 0)
        decreases MAX_SERIALIZATION_RETRIES - attempt
      {
        attempts := attempt + 1;
        match answers[attempt] {
          case Commits =>
            var (after, outcome) := CreditTx(db, user, e, newId, config);
            db := after;
            match outcome {
              case Created(a) => return Some(a), Matched, attempts;
              case AlreadyThere => return None, Duplicate, attempts;
              case AwardFailed(_) => return None, ProcessingError, attempts;
            }
          case Violates =>
            return None, Duplicate, attempts;
          case Conflicts =>
            if attempt < MAX_SERIALIZATION_RETRIES {
              attempt := attempt + 1;
              continue;
            }
            return None, ProcessingError, attempts;
          case Fails =>
            return None, ProcessingError, attempts;
        }
      }
    }

    /** A device scan: replayed when its (device, scan) is known, else resolved, credited and journalled.
        A leader scan carries no delivery key and is never replayed. */
    method ProcessScan(source: Source, user: Option<UserId>, lookup: Lookup, newId: AttendanceId, answers: seq<Answer>)
      returns (reply: Option<Reply>)
      requires |answers| == MAX_SERIALIZATION_RETRIES + 1
      modifies this
      ensures (db, reply) == Deliver(old(db), source, user, lookup, newId, config, answers[Deciding(answers, 0)])
    {
      if source.Device? {
        var prior := FindScan(db.journal, source);
        if prior.Some? {
          return Some(Reply(prior.value, true));
        }
      }
      var e: Option<Event> := None;
      if user.Some? {
        match lookup {
          case Throws => return None;
          case Finds(event) => e := event;
        }
      }
      var result: ScanResult;
      var attendance: Option<AttendanceId> := None;
      if user.None? {
        result := UnknownCode;
      } else if e.None? {
        result := NoWindow;
      } else {
        var attempts;
        attendance, result, attempts := CreateAttendanceAndAward(user.value, e.value, newId, answers);
      }
      var eventId := if user.Some? && e.Some? then Some(e.value.id) else None;
      var row := RecordJournal(ScanRow(source, user, eventId, attendance, result));
      reply := Some(Reply(row, false));
    }

    /** Inserts the row; a lost race on (device, scan) re-reads and returns the winner. */
    method RecordJournal(row: ScanRow) returns (stored: ScanRow)
      modifies this
      ensures db == old(db).(journal := RecordScan(old(db.journal), row).0)
      ensures stored == RecordScan(old(db.journal), row).1
    {
      var winner := FindScan(db.journal, row.source);
      if winner.Some? {
        return winner.value;
      }
      db := db.(journal := db.journal + [row]);
      stored := row;
    }
  }

  // ---------------------------------------------------------------- the service runs the protocol

  /** The crediting steps of one call: conflicts, then the deciding answer. */
  function CreditSteps(id: nat, newId: AttendanceId, answers: seq<Answer>, attempt: nat): seq<Step>
    requires |answers| == MAX_SERIALIZATION_RETRIES + 1 && attempt <= MAX_SERIALIZATION_RETRIES
    decreases MAX_SERIALIZATION_RETRIES - attempt
  {
    match answers[attempt]
    case Commits => [CommitCredit(id, newId)]
    case Violates => [UniqueViolation(id)]
    case Fails => [OtherFailure(id)]
    case Conflicts =>
      [SerializationConflict(id)] +
      (if attempt < MAX_SERIALIZATION_RETRIES then CreditSteps(id, newId, answers, attempt + 1) else [])
  }

  lemma RunOne(s: State, step: Step, cfg: Config)
    ensures Run(s, [step], cfg) == Apply(s, step, cfg)
  {
    assert [step][1..] == [];
  }

  ghost predicate Answerable(db: Db, user: UserId, e: Event, answer: Answer) {
    answer == Violates ==>
      exists a :: a in db.attendances && db.attendances[a].user == user && db.attendances[a].event == e.id
  }

  lemma {:induction false} CreditingIsARun(s: State, id: nat, newId: AttendanceId, answers: seq<Answer>, attempt: nat,
                                           cfg: Config)
    requires |answers| == MAX_SERIALIZATION_RETRIES + 1 && attempt <= MAX_SERIALIZATION_RETRIES
    requires id in s.calls && s.calls[id].Crediting? && s.calls[id].attempt == attempt && newId !in s.db.attendances
    requires Answerable(s.db, s.calls[id].user, s.calls[id].event, answers[Deciding(answers, attempt)])
    ensures var end := Run(s, CreditSteps(id, newId, answers, attempt), cfg);
            var c := s.calls[id];
            var credit := Settle(s.db, c.user, c.event, newId, cfg, answers[Deciding(answers, attempt)]);
            && end.db == credit.db
            && id in end.calls
            && end.calls[id] ==
               Recording(ScanRow(c.source, Some(c.user), Some(c.event.id), credit.attendance, credit.result))
    decreases MAX_SERIALIZATION_RETRIES - attempt
  {
    var steps := CreditSteps(id, newId, answers, attempt);
    if answers[attempt].Conflicts? && attempt < MAX_SERIALIZATION_RETRIES {
      var next := Apply(s, SerializationConflict(id), cfg);
      assert steps[1..] == CreditSteps(id, newId, answers, attempt + 1);
      CreditingIsARun(next, id, newId, answers, attempt + 1, cfg);
    } else {
      assert steps == [steps[0]];
      RunOne(s, steps[0], cfg);
    }
  }

  /** What the look-up named is the stored event, at the moment of the delivery. */
  function LookupOf(db: Db, event: Option<EventId>, throws: bool): Lookup
    requires event.Some? ==> event.value in db.events
  {
    if throws then Throws else Finds(if event.Some? then Some(db.events[event.value]) else None)
  }

  lemma TwoSteps(s: State, x: Step, y: Step, cfg: Config)
    ensures Run(s, [x, y], cfg) == Apply(Apply(s, x, cfg), y, cfg)
  {
    RunConcat(s, [x], [y], cfg);
    assert [x] + [y] == [x, y];
    RunOne(s, x, cfg);
    RunOne(Apply(s, x, cfg), y, cfg);
  }

  lemma ErrorIsARun(s: State, id: nat, source: Source, cfg: Config)
    requires id !in s.calls && FindScan(s.db.journal, source).None?
    ensures var end := Run(s, [Arrive(id, source), LookupPrior(id)] + [Lose(id)], cfg);
            end.db == s.db && id !in end.calls
  {
    RunConcat(s, [Arrive(id, source), LookupPrior(id)], [Lose(id)], cfg);
    TwoSteps(s, Arrive(id, source), LookupPrior(id), cfg);
    RunOne(Run(s, [Arrive(id, source), LookupPrior(id)], cfg), Lose(id), cfg);
  }

  /** The steps that take a resolved call to its journal row. */
  function AfterResolve(id: nat, credits: bool, newId: AttendanceId, answers: seq<Answer>): seq<Step>
    requires |answers| == MAX_SERIALIZATION_RETRIES + 1
  {
    (if credits then CreditSteps(id, newId, answers, 0) else []) + [Record(id)]
  }

  lemma ResolvedIsARun(s: State, id: nat, source: Source, user: Option<UserId>, e: Option<Event>,
                       newId: AttendanceId, answers: seq<Answer>, cfg: Config)
    requires id in s.calls && s.calls[id] == Resolved(source, user, e) && newId !in s.db.attendances
    requires |answers| == MAX_SERIALIZATION_RETRIES + 1 && FindScan(s.db.journal, source).None?
    requires user.Some? && e.Some? ==> Answerable(s.db, user.value, e.value, answers[Deciding(answers, 0)])
    ensures var end := Run(s, AfterResolve(id, user.Some? && e.Some?, newId, answers), cfg);
            var (db, reply) := Deliver(s.db, source, user, Finds(e), newId, cfg, answers[Deciding(answers, 0)]);
            && reply.Some? && end.db == db && id in end.calls
            && end.calls[id] == Replied(reply.value.row, reply.value.idempotent)
  {
    if user.Some? && e.Some? {
      var credit := CreditSteps(id, newId, answers, 0);
      CreditingIsARun(s, id, newId, answers, 0, cfg);
      RunConcat(s, credit, [Record(id)], cfg);
      RunOne(Run(s, credit, cfg), Record(id), cfg);
    } else {
      assert [] + [Record(id)] == [Record(id)];
      RunOne(s, Record(id), cfg);
    }
  }

  lemma AnswerIsARun(s: State, id: nat, source: Source, user: Option<UserId>, event: Option<EventId>,
                     newId: AttendanceId, answers: seq<Answer>, cfg: Config)
    requires id !in s.calls && |answers| == MAX_SERIALIZATION_RETRIES + 1 && newId !in s.db.attendances
    requires event.Some? ==> event.value in s.db.events
    requires user.Some? && event.Some? ==>
               Answerable(s.db, user.value, s.db.events[event.value], answers[Deciding(answers, 0)])
    ensures exists steps ::
              var end := Run(s, steps, cfg);
              var lookup := LookupOf(s.db, event, false);
              var (db, reply) := Deliver(s.db, source, user, lookup, newId, cfg, answers[Deciding(answers, 0)]);
              && reply.Some? && end.db == db && id in end.calls
              && end.calls[id] == Replied(reply.value.row, reply.value.idempotent)
  {
    var begin := [Arrive(id, source), LookupPrior(id)];
    var found := Run(s, begin, cfg);
    TwoSteps(s, Arrive(id, source), LookupPrior(id), cfg);
    if FindScan(s.db.journal, source).None? {
      var e := if event.Some? then Some(s.db.events[event.value]) else None;
      var resolve := Resolve(id, user, event);
      var rest := AfterResolve(id, user.Some? && e.Some?, newId, answers);
      assert found.db == s.db && id in found.calls && found.calls[id] == Resolving(source);
      RunConcat(s, begin, [resolve] + rest, cfg);
      RunConcat(found, [resolve], rest, cfg);
      RunOne(found, resolve, cfg);
      ResolvedIsARun(Apply(found, resolve, cfg), id, source, user, e, newId, answers, cfg);
    }
  }

  /** Handling a delivery from start to reply is a run of the protocol: same database, same answer; and an error is a
      run in which the call dies while it resolves. */
  lemma DeliveryIsARun(s: State, id: nat, source: Source, user: Option<UserId>, event: Option<EventId>, throws: bool,
                       newId: AttendanceId, answers: seq<Answer>, cfg: Config)
    requires id !in s.calls && |answers| == MAX_SERIALIZATION_RETRIES + 1 && newId !in s.db.attendances
    requires event.Some? ==> event.value in s.db.events
    requires user.Some? && event.Some? ==>
               Answerable(s.db, user.value, s.db.events[event.value], answers[Deciding(answers, 0)])
    ensures exists steps ::
              var end := Run(s, steps, cfg);
              var lookup := LookupOf(s.db, event, throws);
              var (db, reply) := Deliver(s.db, source, user, lookup, newId, cfg, answers[Deciding(answers, 0)]);
              && end.db == db
              && (reply.Some? ==> id in end.calls && end.calls[id] == Replied(reply.value.row, reply.value.idempotent))
              && (reply.None? ==> id !in end.calls)
  {
    if EndsInError(s.db, source, user, LookupOf(s.db, event, throws)) {
      ErrorIsARun(s, id, source, cfg);
    } else {
      AnswerIsARun(s, id, source, user, if throws then None else event, newId, answers, cfg);
    }
  }
}
