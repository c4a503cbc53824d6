/** RSVP calls in every interleaving, one runner's among themselves included: exactly when a date can
    end up with two. */
module InterestRuns {
  import opened Domain
  import opened Recurrence
  import M = Materialize
  import opened Interests

  /** A call that passed its checks and has not written yet; `looked` is what its look-up of an older RSVP to
      the same key answered, once made. */
  datatype Pending = Pending(user: UserId, key: EventKey, location: LocationId, looked: Option<Option<nat>>)

  datatype State = State(world: Rsvps, pending: map<nat, Pending>)

  datatype Step =
    | StartMark(call: nat, user: UserId, key: EventKey, location: LocationId, newId: EventId)
    | LookUp(call: nat)
    | FinishMark(call: nat)
    | DoCancel(user: UserId, key: EventKey)
    | Edit(db: M.Db, open: set<LocationId>)      // keeps the day every known event starts on

  ghost function Apply(s: State, step: Step): State {
    var w := s.world;
    match step
    case StartMark(call, user, key, location, newId) =>
      if call in s.pending then s
      else
        var (after, checked) := Check(w.db, w.open, w.rows, user, key, location, newId);
        State(w.(db := after),
              if checked.Err? then s.pending else s.pending[call := Pending(user, key, location, None)])
    case LookUp(call) =>
      if call !in s.pending then s
      else
        var p := s.pending[call];
        s.(pending := s.pending[call := p.(looked := Some(FindInterest(w.rows, p.user, p.key)))])
    case FinishMark(call) =>
      if call !in s.pending || s.pending[call].looked.None? then s
      else
        var p := s.pending[call];
        State(w.(rows := Write(w.rows, p.user, p.key, p.location, p.looked.value).0), s.pending - {call})
    case DoCancel(user, key) => s.(world := w.(rows := WithoutGoing(w.rows, user, key)))
    case Edit(db, open) => if KeepsDays(w.db, db) then s.(world := w.(db := db, open := open)) else s
  }

  ghost function Run(s: State, steps: seq<Step>): State
    decreases |steps|
  {
    if |steps| == 0 then s else Run(Apply(s, steps[0]), steps[1..])
  }

  /** Pending calls have a dated key, and what they looked up is where they saw it. */
  ghost predicate CallsSound(s: State) {
    forall c :: c in s.pending ==>
      var p := s.pending[c];
      && DateOf(s.world.db.cat.events, p.key).Some?
      && (p.looked.Some? ==> FoundRight(s.world.rows, p.user, p.key, p.looked.value))
  }

  ghost predicate RowsSound(s: State) { Sound(s.world.db, s.world.rows) }

  // ---------------------------------------------------------------- exactly which writes break the rule

  /** A checked call writes while another RSVP of the runner on that date is on. */
  ghost predicate Collides(s: State, step: Step) {
    && step.FinishMark? && step.call in s.pending
    && var p := s.pending[step.call];
       && p.looked.Some? && Write(s.world.rows, p.user, p.key, p.location, p.looked.value).1.Ok?
       && HasClash(s.world.db.cat.events, s.world.rows, p.user, p.key)
  }

  lemma WorldChange(s: State, db: M.Db, open: set<LocationId>)
    requires RowsSound(s) && CallsSound(s) && SameDates(s.world.db.cat.events, db.cat.events)
    ensures var later := s.(world := s.world.(db := db, open := open));
            RowsSound(later) && CallsSound(later)
  {
    LaterStillSound(s.world.db.cat.events, db.cat.events, s.world.rows);
  }

  lemma GrownCallsSound(s: State, rows: seq<Interest>)
    requires CallsSound(s) && Grows(s.world.rows, rows)
    ensures CallsSound(s.(world := s.world.(rows := rows)))
  {}

  lemma CancelKeepsRows(events: seq<EventRow>, rows: seq<Interest>, user: UserId, key: EventKey)
    requires KeysUnique(rows) && OnePerDay(events, rows)
    ensures var later := WithoutGoing(rows, user, key);
            KeysUnique(later) && OnePerDay(events, later) && Grows(rows, later)
  {}

  lemma StartKeeps(s: State, call: nat, user: UserId, key: EventKey, location: LocationId, newId: EventId)
    requires RowsSound(s) && CallsSound(s)
    ensures var next := Apply(s, StartMark(call, user, key, location, newId));
            RowsSound(next) && CallsSound(next)
  {
    var w := s.world;
    if call !in s.pending {
      var (after, checked) := Check(w.db, w.open, w.rows, user, key, location, newId);
      MaterializingKeepsDates(w.db, key, newId);
      WorldChange(s, after, w.open);
      if checked.Ok? {
        KnownDates(w.db, w.open, w.rows, user, key, location, newId);
      }
    }
  }

  /** A step keeps one row per key and one RSVP per date if and only if it is not a collision. */
  lemma StepKeepsExactly(s: State, step: Step)
    requires RowsSound(s) && CallsSound(s)
    ensures RowsSound(Apply(s, step)) <==> !Collides(s, step)
    ensures CallsSound(Apply(s, step)) && Grows(s.world.rows, Apply(s, step).world.rows)
  {
    var w := s.world;
    match step
    case StartMark(call, user, key, location, newId) => StartKeeps(s, call, user, key, location, newId);
    case DoCancel(user, key) =>
      CancelKeepsRows(w.db.cat.events, w.rows, user, key);
      GrownCallsSound(s, WithoutGoing(w.rows, user, key));
    case Edit(db, open) =>
      if KeepsDays(w.db, db) {
        EditKeepsDates(w.db, db);
        WorldChange(s, db, open);
      }
    case LookUp(_) =>
    case FinishMark(call) =>
      if call in s.pending && s.pending[call].looked.Some? {
        var p := s.pending[call];
        WriteExactly(w.db.cat.events, w.rows, p.user, p.key, p.location, p.looked.value);
        GrownCallsSound(s, Write(w.rows, p.user, p.key, p.location, p.looked.value).0);
      }
  }

  ghost predicate SoundThroughout(s: State, steps: seq<Step>)
    decreases |steps|
  {
    RowsSound(s) && (|steps| > 0 ==> SoundThroughout(Apply(s, steps[0]), steps[1..]))
  }

  ghost predicate NeverCollides(s: State, steps: seq<Step>)
    decreases |steps|
  {
    |steps| > 0 ==> !Collides(s, steps[0]) && NeverCollides(Apply(s, steps[0]), steps[1..])
  }

  lemma NotSoundLater(s: State, steps: seq<Step>)
    requires !RowsSound(s)
    ensures !SoundThroughout(s, steps)
  {}

  /** Over every interleaving a runner has at most one RSVP on per date, throughout, if and only if no
      checked call writes while another one of its date is on. */
  lemma {:induction false} OnePerDayExactly(s: State, steps: seq<Step>)
    requires RowsSound(s) && CallsSound(s)
    ensures SoundThroughout(s, steps) <==> NeverCollides(s, steps)
    decreases |steps|
  {
    if |steps| > 0 {
      var next := Apply(s, steps[0]);
      StepKeepsExactly(s, steps[0]);
      if RowsSound(next) {
        OnePerDayExactly(next, steps[1..]);
      } else {
        NotSoundLater(next, steps[1..]);
      }
    }
  }

  // ---------------------------------------------------------------- overlaps that cannot collide

  /** A call starts while another of the same runner, for a different event of the same date, is pending. */
  predicate Crowds(s: State, step: Step) {
    && step.StartMark?
    && exists c :: c in s.pending && s.pending[c].user == step.user && s.pending[c].key != step.key
                   && DateOf(s.world.db.cat.events, s.pending[c].key) == DateOf(s.world.db.cat.events, step.key)
  }

  /** Calls overlap as they like, except those of one runner for different events of one date. */
  ghost predicate Uncrowded(s: State, steps: seq<Step>)
    decreases |steps|
  {
    |steps| > 0 ==> !Crowds(s, steps[0]) && Uncrowded(Apply(s, steps[0]), steps[1..])
  }

  /** What pending calls were told still holds, and no two of them want one runner's date. */
  ghost predicate NoneInTheWay(s: State) {
    && (forall c :: c in s.pending ==> !HasClash(s.world.db.cat.events, s.world.rows, s.pending[c].user,
                                                 s.pending[c].key))
    && (forall c, d | c in s.pending && d in s.pending && s.pending[c].user == s.pending[d].user ::
          s.pending[c].key == s.pending[d].key
          || DateOf(s.world.db.cat.events, s.pending[c].key) != DateOf(s.world.db.cat.events, s.pending[d].key))
  }

  ghost predicate Inv(s: State) { RowsSound(s) && CallsSound(s) && NoneInTheWay(s) }

  lemma WorldChangeKeepsWay(s: State, db: M.Db, open: set<LocationId>)
    requires Inv(s) && SameDates(s.world.db.cat.events, db.cat.events)
    ensures NoneInTheWay(s.(world := s.world.(db := db, open := open)))
  {
    forall c | c in s.pending
      ensures !HasClash(db.cat.events, s.world.rows, s.pending[c].user, s.pending[c].key)
    {
      SameClashes(s.world.db.cat.events, db.cat.events, s.world.rows, s.pending[c].user, s.pending[c].key);
    }
  }

  /** A call joins when nothing holds its date and no pending call of its runner wants it. */
  lemma JoinKeepsWay(s: State, call: nat, p: Pending)
    requires NoneInTheWay(s) && !HasClash(s.world.db.cat.events, s.world.rows, p.user, p.key)
    requires forall c :: c in s.pending && s.pending[c].user == p.user && s.pending[c].key != p.key ==>
                           DateOf(s.world.db.cat.events, s.pending[c].key) != DateOf(s.world.db.cat.events, p.key)
    ensures NoneInTheWay(s.(pending := s.pending[call := p]))
  {}

  lemma StartKeepsWay(s: State, call: nat, user: UserId, key: EventKey, location: LocationId, newId: EventId)
    requires Inv(s) && !Crowds(s, StartMark(call, user, key, location, newId))
    ensures NoneInTheWay(Apply(s, StartMark(call, user, key, location, newId)))
  {
    var w := s.world;
    if call !in s.pending {
      var (after, checked) := Check(w.db, w.open, w.rows, user, key, location, newId);
      MaterializingKeepsDates(w.db, key, newId);
      WorldChangeKeepsWay(s, after, w.open);
      if checked.Ok? {
        var later := s.(world := w.(db := after));
        KnownDates(w.db, w.open, w.rows, user, key, location, newId);
        assert !HasClash(after.cat.events, w.rows, user, key);
        forall c | c in s.pending && s.pending[c].user == user && s.pending[c].key != key
          ensures DateOf(after.cat.events, s.pending[c].key) != DateOf(after.cat.events, key)
        {
          assert DateOf(w.db.cat.events, s.pending[c].key) != DateOf(w.db.cat.events, key);
        }
        JoinKeepsWay(later, call, Pending(user, key, location, None));
      }
    }
  }

  lemma FinishKeepsWay(s: State, call: nat)
    requires Inv(s)
    ensures NoneInTheWay(Apply(s, FinishMark(call)))
  {
    if call in s.pending && s.pending[call].looked.Some? {
      var p, events := s.pending[call], s.world.db.cat.events;
      var found := p.looked.value;
      forall c | c in s.pending
        ensures !HasClash(events, Write(s.world.rows, p.user, p.key, p.location, found).0, s.pending[c].user,
                          s.pending[c].key)
      {
        ClashAfterWrite(events, s.world.rows, p.user, p.key, p.location, found, s.pending[c].user, s.pending[c].key);
      }
    }
  }

  lemma CancelKeepsWay(s: State, user: UserId, key: EventKey)
    requires Inv(s)
    ensures NoneInTheWay(Apply(s, DoCancel(user, key)))
  {
    var rows := WithoutGoing(s.world.rows, user, key);
    forall c | c in s.pending ensures !HasClash(s.world.db.cat.events, rows, s.pending[c].user, s.pending[c].key) {
      forall i | 0 <= i < |rows| ensures !Clashes(s.world.db.cat.events, rows[i], s.pending[c].user, s.pending[c].key) {
        assert !Clashes(s.world.db.cat.events, s.world.rows[i], s.pending[c].user, s.pending[c].key);
      }
    }
  }

  lemma StepKeeps(s: State, step: Step)
    requires Inv(s) && !Crowds(s, step)
    ensures Inv(Apply(s, step)) && Grows(s.world.rows, Apply(s, step).world.rows)
  {
    StepKeepsExactly(s, step);
    match step
    case StartMark(call, user, key, location, newId) => StartKeepsWay(s, call, user, key, location, newId);
    case LookUp(_) =>
    case FinishMark(call) => FinishKeepsWay(s, call);
    case DoCancel(user, key) => CancelKeepsWay(s, user, key);
    case Edit(db, open) =>
      if KeepsDays(s.world.db, db) {
        EditKeepsDates(s.world.db, db);
        WorldChangeKeepsWay(s, db, open);
      }
  }

  /** One row per (user, key) and one RSVP on per (user, date) over every run in which no two calls of one
      runner for different events of one date overlap; all other calls may, the same runner's for other
      dates or for the same event included. Rows are never lost. */
  lemma {:induction false} EveryRunKeeps(s: State, steps: seq<Step>)
    requires Inv(s) && Uncrowded(s, steps)
    ensures Inv(Run(s, steps)) && Grows(s.world.rows, Run(s, steps).world.rows)
    decreases |steps|
  {
    if |steps| > 0 {
      StepKeeps(s, steps[0]);
      EveryRunKeeps(Apply(s, steps[0]), steps[1..]);
    }
  }

  /** In particular from an empty table. */
  lemma OnePerDayFromOpening(db: M.Db, open: set<LocationId>, steps: seq<Step>)
    requires Uncrowded(State(Rsvps(db, open, []), map[]), steps)
    ensures var w := Run(State(Rsvps(db, open, []), map[]), steps).world;
            KeysUnique(w.rows) && OnePerDay(w.db.cat.events, w.rows)
  {
    EveryRunKeeps(State(Rsvps(db, open, []), map[]), steps);
  }

  /** Two open events on day 0. */
  function TwoEvents(): Rsvps {
    var morning := EventRow(1, Regular, true, 0, 1, None, None, [], []);
    var evening := EventRow(2, Special, true, 2, 3, None, None, [], []);
    Rsvps(M.Db(Catalog([], [morning, evening]), {}), {0}, [])
  }

  /** One runner's two taps at once: both pass the check, and both RSVPs are on. */
  lemma TwoRsvpsOneDate()
    ensures var w := TwoEvents();
            var (db1, c1) := Check(w.db, w.open, w.rows, 0, UuidKey(1), 0, 3);
            var (db2, c2) := Check(db1, w.open, w.rows, 0, UuidKey(2), 0, 4);
            && Sound(w.db, w.rows) && c1.Ok? && c2.Ok?
            && !OnePerDay(db2.cat.events, Write(Write(w.rows, 0, UuidKey(1), 0, c1.value).0, 0, UuidKey(2), 0,
                                                c2.value).0)
  {
    var w := TwoEvents();
    assert FindEvent(w.db.cat.events, 1) == Some(w.db.cat.events[0]);
    assert FindEvent(w.db.cat.events, 2) == Some(w.db.cat.events[1]);
    RacingMarksExactly(w, 0, UuidKey(1), UuidKey(2), 0, 0, 3, 4);
  }
}
