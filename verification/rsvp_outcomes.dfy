/** When "I am going" succeeds and what each refusal means, in terms of events, rules and dates. */
module RsvpOutcomes {
  import opened Domain
  import opened Seqs
  import opened Recurrence
  import opened RecurrenceViews
  import opened Interests
  import M = Materialize
  import N = MaterializeAnswers
  import R = InterestRuns

  /** The stored event of this id starts on this day. */
  ghost predicate EventOn(events: seq<EventRow>, id: EventId, d: Day) {
    exists e :: e in events && e.id == id && DayOf(e.startsAt) == d
  }

  /** The date of a key: an event's day, the day written in a rule's key, none for other texts. */
  ghost predicate OnDate(events: seq<EventRow>, key: EventKey, d: Day) {
    match key
    case UuidKey(id) => EventOn(events, id, d)
    case RuleKey(_, day) => day == d
    case UnknownKey(_) => false
  }

  lemma FoundEvent(cat: Catalog, id: EventId, e: EventRow)
    requires Formed(cat) && e in cat.events && e.id == id
    ensures FindEvent(cat.events, id) == Some(e)
  {
    var key := (x: EventRow) => x.id;
    var found := FindEvent(cat.events, id).value;
    var i :| 0 <= i < |cat.events| && cat.events[i] == e;
    var j :| 0 <= j < |cat.events| && cat.events[j] == found;
    assert key(cat.events[i]) == key(cat.events[j]);
  }

  lemma DateIs(cat: Catalog, key: EventKey, d: Day)
    requires Formed(cat)
    ensures DateOf(cat.events, key) == Some(d) <==> OnDate(cat.events, key, d)
  {
    if key.UuidKey? && EventOn(cat.events, key.event, d) {
      var e :| e in cat.events && e.id == key.event && DayOf(e.startsAt) == d;
      FoundEvent(cat, key.event, e);
    }
  }

  /** Another RSVP of the runner is on for a date of this key. */
  ghost predicate Taken(cat: Catalog, rows: seq<Interest>, user: UserId, key: EventKey) {
    exists row, d :: row in rows && row.user == user && row.status == Going && row.key != key
                     && OnDate(cat.events, key, d) && OnDate(cat.events, row.key, d)
  }

  lemma ClashIsTaken(cat: Catalog, rows: seq<Interest>, user: UserId, key: EventKey)
    requires Formed(cat)
    ensures HasClash(cat.events, rows, user, key) <==> Taken(cat, rows, user, key)
  {
    if HasClash(cat.events, rows, user, key) {
      var i :| 0 <= i < |rows| && Clashes(cat.events, rows[i], user, key);
      var d := DateOf(cat.events, key).value;
      DateIs(cat, key, d);
      DateIs(cat, rows[i].key, d);
      assert rows[i] in rows;
    }
    if Taken(cat, rows, user, key) {
      var row, d :| row in rows && row.user == user && row.status == Going && row.key != key
                    && OnDate(cat.events, key, d) && OnDate(cat.events, row.key, d);
      DateIs(cat, key, d);
      DateIs(cat, row.key, d);
      var i :| 0 <= i < |rows| && rows[i] == row;
      assert Clashes(cat.events, rows[i], user, key);
    }
  }

  ghost predicate Stored(cat: Catalog, id: EventId) { exists e :: e in cat.events && e.id == id }

  ghost predicate OnSale(cat: Catalog, id: EventId) { exists e :: e in cat.events && e.id == id && e.published }

  ghost predicate ActiveRule(cat: Catalog, rule: RuleId) {
    exists r :: r in cat.rules && r.id == rule && r.active
  }

  lemma EventCheck(db: M.Db, key: EventKey)
    requires Formed(db.cat)
    ensures key.UuidKey? ==>
              && (EventProblem(db, key) == Some(EventNotFound) <==> !Stored(db.cat, key.event))
              && (EventProblem(db, key) == Some(EventNotOpen) <==>
                    Stored(db.cat, key.event) && !OnSale(db.cat, key.event))
              && (EventProblem(db, key).None? <==> OnSale(db.cat, key.event))
    ensures key.RuleKey? ==>
              && (EventProblem(db, key) == Some(EventNotFound) <==> !ActiveRule(db.cat, key.rule))
              && (EventProblem(db, key).None? <==> ActiveRule(db.cat, key.rule))
    ensures key.UnknownKey? ==> EventProblem(db, key) == Some(EventNotFound)
  {
    match key
    case UuidKey(id) =>
      if e :| e in db.cat.events && e.id == id && e.published {
        FoundEvent(db.cat, id, e);
      }
    case RuleKey(rule, _) => N.NoActiveRule(db.cat, rule);
    case UnknownKey(_) =>
  }

  /** A day that cannot be given its row, for an active rule. */
  ghost predicate Unbacked(db: M.Db, key: EventKey) {
    && key.RuleKey? && !N.HasRow(db.cat, key.rule, key.day)
    && exists r :: r in db.cat.rules && r.id == key.rule && r.active
                   && (Weekday(key.day) != r.weekday || (forall l :: !N.Left(db.cat, r, key.day, l))
                       || M.SlugOf(key.rule, key.day) in db.slugs)
  }

  lemma BackedExactly(db: M.Db, key: EventKey, newId: EventId)
    requires Formed(db.cat) && EventProblem(db, key).None?
    ensures Materialized(db, key, newId).1.Some? <==> Unbacked(db, key)
  {
    EventCheck(db, key);
    if key.RuleKey? {
      var r :| r in db.cat.rules && r.id == key.rule && r.active;
      if N.HasRow(db.cat, key.rule, key.day) {
        var e :| e in db.cat.events && e.rule == Some(key.rule) && e.overrides == Some(key.day);
        N.ExistingIsReturned(db, key.rule, key.day, newId, e);
      } else {
        N.RefusedExactly(db, r, key.day, newId);
        forall q | q in db.cat.rules && q.id == key.rule ensures q == r {
          SameRule(db.cat, q, r);
        }
      }
    }
  }

  ghost predicate KeyOpen(cat: Catalog, key: EventKey) {
    match key
    case UuidKey(id) => OnSale(cat, id)
    case RuleKey(rule, _) => ActiveRule(cat, rule)
    case UnknownKey(_) => false
  }

  lemma WrittenRows(rows: seq<Interest>, user: UserId, key: EventKey, location: LocationId)
    requires KeysUnique(rows)
    ensures var (later, r) := Write(rows, user, key, location, FindInterest(rows, user, key));
            && r.Ok? && Interest(user, key, location, Going) in later
            && (forall row: Interest :: row.user != user || row.key != key ==> (row in later <==> row in rows))
            && (forall row :: row in later && row.user == user && row.key == key ==>
                  row == Interest(user, key, location, Going))
  {
    var found := FindInterest(rows, user, key);
    var later := Write(rows, user, key, location, found).0;
    var on := Interest(user, key, location, Going);
    if found.Some? {
      assert later[found.value] == on;
      forall row: Interest | row.user != user || row.key != key ensures row in later <==> row in rows {
        if row in rows {
          var i :| 0 <= i < |rows| && rows[i] == row;
          assert later[i] == row;
        }
        if row in later {
          var i :| 0 <= i < |later| && later[i] == row;
          assert rows[i] == row;
        }
      }
      forall row | row in later && row.user == user && row.key == key ensures row == on {
        var i :| 0 <= i < |later| && later[i] == row;
        assert i == found.value;
      }
    } else {
      assert later == rows + [on];
    }
  }

  /** A call succeeds if and only if it names a published event or an active rule, the location is open, a rule's
      day has its row or can get one, and no other RSVP of the runner is on for that date. Then the runner has one
      RSVP under this key, on, at this location, and every other row is as it was. */
  lemma GoingExactly(w: Rsvps, user: UserId, key: EventKey, location: LocationId, newId: EventId)
    requires Formed(w.db.cat) && Sound(w.db, w.rows)
    ensures var (after, rows, r) := Marked(w.db, w.open, w.rows, user, key, location, newId);
            && (r.Ok? <==>
                  KeyOpen(w.db.cat, key) && location in w.open && !Unbacked(w.db, key)
                  && !Taken(w.db.cat, w.rows, user, key))
            && (r.Err? ==> rows == w.rows)
            && (r.Ok? ==>
                  && Interest(user, key, location, Going) in rows
                  && (forall row: Interest :: row.user != user || row.key != key ==> (row in rows <==> row in w.rows))
                  && (forall row :: row in rows && row.user == user && row.key == key ==>
                        row == Interest(user, key, location, Going)))
  {
    MarkGoingMeans(w, user, key, location, newId);
    ClashIsTaken(w.db.cat, w.rows, user, key);
    EventCheck(w.db, key);
    if EventProblem(w.db, key).None? {
      BackedExactly(w.db, key, newId);
    }
    if Marked(w.db, w.open, w.rows, user, key, location, newId).2.Ok? {
      WrittenRows(w.rows, user, key, location);
    }
  }

  /** Each refusal, in the order the checks are made. */
  lemma RefusedExactly(w: Rsvps, user: UserId, key: EventKey, location: LocationId, newId: EventId)
    requires Formed(w.db.cat) && Sound(w.db, w.rows)
    ensures var r := Marked(w.db, w.open, w.rows, user, key, location, newId).2;
            var open := KeyOpen(w.db.cat, key);
            && (r == Err(EventNotFound) <==> !open && !(key.UuidKey? && Stored(w.db.cat, key.event)))
            && (r == Err(EventNotOpen) <==> !open && key.UuidKey? && Stored(w.db.cat, key.event))
            && (r == Err(LocationNotFound) <==> open && location !in w.open)
            && (r == Err(DateTaken) <==>
                  open && location in w.open && !Unbacked(w.db, key) && Taken(w.db.cat, w.rows, user, key))
  {
    ClashIsTaken(w.db.cat, w.rows, user, key);
    EventCheck(w.db, key);
    if EventProblem(w.db, key).None? {
      BackedExactly(w.db, key, newId);
      MaterializingKeepsDates(w.db, key, newId);
      SameClashes(w.db.cat.events, Materialized(w.db, key, newId).0.cat.events, w.rows, user, key);
      if !HasClash(w.db.cat.events, w.rows, user, key) {
        WrittenRows(w.rows, user, key, location);
      }
    }
  }

  /** Cancelling turns off the runner's RSVP under this key if it is on, and leaves every other row alone. */
  lemma CancelledExactly(rows: seq<Interest>, user: UserId, key: EventKey)
    ensures var after := WithoutGoing(rows, user, key);
            && |after| == |rows|
            && forall i :: 0 <= i < |rows| ==>
                 after[i] == if rows[i].user == user && rows[i].key == key && rows[i].status == Going
                             then Interest(user, key, rows[i].location, NotGoing) else rows[i]
  {}

  /** A call with nothing else running is the run check, look-up, write. */
  lemma MarkIsARun(w: Rsvps, call: nat, user: UserId, key: EventKey, location: LocationId, newId: EventId)
    ensures var checked := R.Apply(R.State(w, map[]), R.StartMark(call, user, key, location, newId));
            var end := R.Apply(R.Apply(checked, R.LookUp(call)), R.FinishMark(call));
            var (after, rows, _) := Marked(w.db, w.open, w.rows, user, key, location, newId);
            end == R.State(Rsvps(after, w.open, rows), map[])
  {
    var checked := R.Apply(R.State(w, map[]), R.StartMark(call, user, key, location, newId));
    if call in checked.pending {
      assert checked.pending - {call} == map[];
      assert R.Apply(checked, R.LookUp(call)).pending - {call} == map[];
    }
  }
}
