/** A scan from the scanner's POST through the open occurrence to the journal, in terms of the event catalog: when
    it is stored, when the scanner drops it for good, and when it keeps trying. */
module CheckinOutcomes {
  import opened Domain
  import opened Recurrence
  import opened RecurrenceViews
  import A = Awards
  import C = Checkin
  import S = CheckinService
  import H = CheckinChoice
  import M = Materialize
  import O = Outbox

  /** What the service learns from looking up the open occurrence; `columns` are the award columns of a row. */
  function LookedUp(db: M.Db, at: Instant, newEvent: EventId, choice: Option<H.Candidate>,
                    columns: EventRow -> A.Event): S.Lookup
  {
    var (_, answer) := H.Answer(db, at, newEvent, choice);
    match answer
    case Ok(None) => S.Finds(None)
    case Ok(Some(row)) => S.Finds(Some(columns(row)))
    case Err(_) => S.Throws
  }

  /** How the scanner reads the answer: a reply is a 2xx, a not-found exception a 4xx, a refused insert a 5xx. */
  function Posted(db: M.Db, at: Instant, newEvent: EventId, choice: Option<H.Candidate>, reply: Option<S.Reply>):
    O.Outcome
  {
    if reply.Some? then O.Accepted
    else
      var (_, answer) := H.Answer(db, at, newEvent, choice);
      if answer == Err(M.Conflict) then O.NotReached else O.Rejected
  }

  /** The open occurrence has no row yet and cannot get one for want of a location. */
  ghost predicate NowhereToRun(db: M.Db, at: Instant, choice: Option<H.Candidate>) {
    && choice.Some? && FindOverride(db.cat.events, choice.value.rule.id, DayOf(at)).None?
    && !HasOpenLocation(db.cat, choice.value.rule, DayOf(at))
  }

  /** The open occurrence has no row yet and cannot get one as its slug is taken. */
  ghost predicate SlugIsTaken(db: M.Db, at: Instant, choice: Option<H.Candidate>) {
    && choice.Some? && FindOverride(db.cat.events, choice.value.rule.id, DayOf(at)).None?
    && HasOpenLocation(db.cat, choice.value.rule, DayOf(at))
    && M.SlugOf(choice.value.rule.id, DayOf(at)) in db.slugs
  }

  lemma LookUpThrowsExactly(db: M.Db, loc: LocationId, at: Instant, newEvent: EventId, choice: Option<H.Candidate>)
    requires Formed(db.cat) && H.Best(db.cat, loc, at, choice)
    ensures var (_, answer) := H.Answer(db, at, newEvent, choice);
            && (answer.Err? <==> NowhereToRun(db, at, choice) || SlugIsTaken(db, at, choice))
            && (answer == Err(M.Conflict) <==> SlugIsTaken(db, at, choice))
    ensures NowhereToRun(db, at, choice) ==> ExcludedByAny(db.cat, DayOf(at), loc)
  {
    if choice.Some? {
      var r, d := choice.value.rule, DayOf(at);
      H.OpenRefusedExactly(db, r, loc, at, newEvent);
      SameRule(db.cat, FindRule(db.cat.rules, r.id).value, r);
      M.OpenLocationsAre(db.cat, r, d);
      var open := M.OpenLocations(db.cat, r, d);
      assert |open| > 0 ==> open[0] in open;
    }
  }

  /** One delivery of a scan at `loc`: it is stored and answered unless it is new, its runner is known and the open
      occurrence cannot be made. Then nothing is stored, and the scanner drops it exactly when every location
      of the occurrence is excluded that day, the scanned one among them; with the slug taken it keeps it. */
  lemma ScanFateExactly(db: C.Db, source: C.Source, user: Option<UserId>, events: M.Db, loc: LocationId, at: Instant,
                        newEvent: EventId, choice: Option<H.Candidate>, columns: EventRow -> A.Event,
                        newId: AttendanceId, cfg: A.Config, answer: S.Answer)
    requires source.Device? && Formed(events.cat) && H.Best(events.cat, loc, at, choice)
    ensures var lookup := LookedUp(events, at, newEvent, choice, columns);
            var (after, reply) := S.Deliver(db, source, user, lookup, newId, cfg, answer);
            var outcome := Posted(events, at, newEvent, choice, reply);
            var unseen := C.FindScan(db.journal, source).None? && user.Some?;
            && (outcome == O.Accepted <==> C.FindScan(after.journal, source).Some?)
            && (outcome == O.Rejected <==> unseen && NowhereToRun(events, at, choice))
            && (!O.Delivered(outcome) <==> unseen && SlugIsTaken(events, at, choice))
            && (outcome != O.Accepted ==> after == db)
            && (outcome == O.Rejected ==> ExcludedByAny(events.cat, DayOf(at), loc))
  {
    var lookup := LookedUp(events, at, newEvent, choice, columns);
    LookUpThrowsExactly(events, loc, at, newEvent, choice);
    S.DeliveredIsJournalledExactly(db, source, user, lookup, newId, cfg, answer);
  }
}
