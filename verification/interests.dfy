/** "I am going": one RSVP per runner and calendar date, through a check and a later write. */
module Interests {
  import opened Domain
  import opened Seqs
  import opened Recurrence
  import opened RecurrenceViews
  import opened Materialize

  /** What an RSVP names: a stored event, a rule's day, or a text that is neither. */
  datatype EventKey = UuidKey(event: EventId) | RuleKey(rule: RuleId, day: Day) | UnknownKey(text: nat)

  datatype InterestStatus = Going | NotGoing

  datatype Interest = Interest(user: UserId, key: EventKey, location: LocationId, status: InterestStatus)

  datatype Refusal =
    | EventNotFound
    | EventNotOpen
    | LocationNotFound
    | NotMaterialized(error: Materialize.Error)
    | DateTaken
    | DuplicateRow

  function HasId(id: EventId): EventRow -> bool { (e: EventRow) => e.id == id }

  function FindEvent(events: seq<EventRow>, id: EventId): Option<EventRow> { First(events, HasId(id)) }

  /** A stored event's key has its start's date, a rule key the date written in it. */
  function DateOf(events: seq<EventRow>, key: EventKey): Option<Day> {
    match key
    case UuidKey(id) =>
      var e := FindEvent(events, id);
      if e.Some? then Some(DayOf(e.value.startsAt)) else None
    case RuleKey(_, day) => Some(day)
    case UnknownKey(_) => None
  }

  function EventProblem(db: Db, key: EventKey): Option<Refusal> {
    match key
    case UuidKey(id) =>
      var e := FindEvent(db.cat.events, id);
      if e.None? then Some(EventNotFound) else if !e.value.published then Some(EventNotOpen) else None
    case RuleKey(rule, _) =>
      var r := FindRule(db.cat.rules, rule);
      if r.None? || !r.value.active then Some(EventNotFound) else None
    case UnknownKey(_) => Some(EventNotFound)
  }

  /** Another RSVP of the runner, still on, on the same date. */
  predicate Clashes(events: seq<EventRow>, row: Interest, user: UserId, key: EventKey) {
    && row.user == user && row.status == Going && row.key != key
    && DateOf(events, key).Some? && DateOf(events, row.key) == DateOf(events, key)
  }

  function FindInterest(rows: seq<Interest>, user: UserId, key: EventKey): (i: Option<nat>)
    ensures i.Some? ==> i.value < |rows| && rows[i.value].user == user && rows[i.value].key == key
    ensures i.None? ==> forall j :: 0 <= j < |rows| ==> rows[j].user != user || rows[j].key != key
  {
    if |rows| == 0 then None
    else if rows[|rows| - 1].user == user && rows[|rows| - 1].key == key then Some(|rows| - 1)
    else FindInterest(rows[..|rows| - 1], user, key)
  }

  /** What a call works on: events and rules, open locations, RSVPs. */
  datatype Rsvps = Rsvps(db: Db, open: set<LocationId>, rows: seq<Interest>)

  // ---------------------------------------------------------------- one call, in its two halves

  /** A rule's day gets its Event row before the RSVP is recorded. */
  function Materialized(db: Db, key: EventKey, newId: EventId): (Db, Option<Refusal>) {
    if !key.RuleKey? then (db, None)
    else
      var (after, made) := Ensure(db, key.rule, key.day, newId);
      (after, if made.Err? then Some(NotMaterialized(made.error)) else None)
  }

  predicate HasClash(events: seq<EventRow>, rows: seq<Interest>, user: UserId, key: EventKey) {
    exists i :: 0 <= i < |rows| && Clashes(events, rows[i], user, key)
  }

  /** The first half: all checks, and the look-up of an older RSVP to the same key. */
  function Check(db: Db, open: set<LocationId>, rows: seq<Interest>, user: UserId, key: EventKey,
                 location: LocationId, newId: EventId):
    (Db, Result<Option<nat>, Refusal>)
  {
    var problem := EventProblem(db, key);
    if problem.Some? then (db, Err(problem.value))
    else if location !in open then (db, Err(LocationNotFound))
    else
      var (after, failed) := Materialized(db, key, newId);
      if failed.Some? then (after, Err(failed.value))
      else if HasClash(after.cat.events, rows, user, key) then (after, Err(DateTaken))
      else (after, Ok(FindInterest(rows, user, key)))
  }

  /** The second half: update the row that was found, or insert one; (user, key) is unique. */
  function Write(rows: seq<Interest>, user: UserId, key: EventKey, location: LocationId,
                 found: Option<nat>):
    (seq<Interest>, Result<Interest, Refusal>)
  {
    if found.Some? && found.value < |rows| then
      var row := rows[found.value].(location := location, status := Going);
      (rows[found.value := row], Ok(row))
    else if FindInterest(rows, user, key).Some? then (rows, Err(DuplicateRow))
    else
      var row := Interest(user, key, location, Going);
      (rows + [row], Ok(row))
  }

  function Marked(db: Db, open: set<LocationId>, rows: seq<Interest>, user: UserId, key: EventKey,
                  location: LocationId, newId: EventId):
    (Db, seq<Interest>, Result<Interest, Refusal>)
  {
    var (after, checked) := Check(db, open, rows, user, key, location, newId);
    if checked.Err? then (after, rows, Err(checked.error))
    else
      var (written, r) := Write(rows, user, key, location, checked.value);
      (after, written, r)
  }

  function CancelOne(row: Interest, user: UserId, key: EventKey): Interest {
    if row.user == user && row.key == key && row.status == Going then row.(status := NotGoing) else row
  }

  function WithoutGoing(rows: seq<Interest>, user: UserId, key: EventKey): (r: seq<Interest>) {
    seq(|rows|, i requires 0 <= i < |rows| => CancelOne(rows[i], user, key))
  }

  class EventInterestsService {
    var db: Db
    var open: set<LocationId>
    var rows: seq<Interest>

    /** The scan over the runner's other RSVPs. */
    method AssertNoConflictingInterest(user: UserId, key: EventKey) returns (taken: bool)
      ensures taken == HasClash(db.cat.events, rows, user, key)
    {
      var mine := DateOf(db.cat.events, key);
      if mine.None? {
        return false;
      }
      for i := 0 to |rows|
        invariant forall j :: 0 <= j < i ==> !Clashes(db.cat.events, rows[j], user, key)
      {
        if rows[i].user == user && rows[i].status == Going && rows[i].key != key {
          var other := DateOf(db.cat.events, rows[i].key);
          if other.Some? && other.value == mine.value {
            assert Clashes(db.cat.events, rows[i], user, key);
            return true;
          }
        }
      }
      taken := false;
    }

    method MarkGoing(user: UserId, key: EventKey, location: LocationId, newId: EventId)
      returns (r: Result<Interest, Refusal>)
      modifies this
      ensures (db, rows, r) == Marked(old(db), old(open), old(rows), user, key, location, newId) && open == old(open)
    {
      var problem := EventProblem(db, key);
      if problem.Some? {
        return Err(problem.value);
      }
      if location !in open {
        return Err(LocationNotFound);
      }
      var (after, failed) := Materialized(db, key, newId);
      db := after;
      if failed.Some? {
        return Err(failed.value);
      }
      var taken := AssertNoConflictingInterest(user, key);
      if taken {
        return Err(DateTaken);
      }
      var existing := FindInterest(rows, user, key);
      if existing.Some? {
        var row := rows[existing.value].(location := location, status := Going);
        rows := rows[existing.value := row];
        return Ok(row);
      }
      var row := Interest(user, key, location, Going);
      rows := rows + [row];
      r := Ok(row);
    }

    method Cancel(user: UserId, key: EventKey)
      modifies this
      ensures rows == WithoutGoing(old(rows), user, key) && db == old(db) && open == old(open)
    {
      var all := rows;
      for i := 0 to |all|
        invariant |rows| == |all| && db == old(db) && open == old(open)
        invariant forall j :: 0 <= j < i ==> rows[j] == CancelOne(all[j], user, key)
        invariant forall j :: i <= j < |all| ==> rows[j] == all[j]
      {
        if rows[i].user == user && rows[i].key == key && rows[i].status == Going {
          rows := rows[i := rows[i].(status := NotGoing)];
        }
      }
      assert rows == WithoutGoing(all, user, key);
    }
  }

  // ---------------------------------------------------------------- the rule of one RSVP per date

  /** At most one row per (user, key). */
  ghost predicate KeysUnique(rows: seq<Interest>) {
    forall i, j :: 0 <= i < j < |rows| ==> rows[i].user != rows[j].user || rows[i].key != rows[j].key
  }

  predicate BothOn(a: Interest, b: Interest) { a.status == Going && b.status == Going }

  /** At most one RSVP that is on per (user, date); every stored key has a date. */
  ghost predicate OnePerDay(events: seq<EventRow>, rows: seq<Interest>) {
    && (forall i :: 0 <= i < |rows| ==> DateOf(events, rows[i].key).Some?)
    && (forall i, j | 0 <= i < j < |rows| && rows[i].user == rows[j].user && BothOn(rows[i], rows[j]) ::
          DateOf(events, rows[i].key) != DateOf(events, rows[j].key))
  }

  ghost predicate Sound(db: Db, rows: seq<Interest>) { KeysUnique(rows) && OnePerDay(db.cat.events, rows) }

  /** Rows are never removed and keep their owner and key. */
  ghost predicate Grows(rows: seq<Interest>, later: seq<Interest>) {
    |rows| <= |later| && forall i :: 0 <= i < |rows| ==> later[i].user == rows[i].user && later[i].key == rows[i].key
  }

  /** Admin edits may change anything but the day a known event starts on. */
  ghost predicate KeepsDays(db: Db, later: Db) {
    forall id :: FindEvent(db.cat.events, id).Some? ==>
      DateOf(later.cat.events, UuidKey(id)) == DateOf(db.cat.events, UuidKey(id))
  }

  // ---------------------------------------------------------------- dates stay

  ghost predicate SameDates(events: seq<EventRow>, later: seq<EventRow>) {
    forall key :: DateOf(events, key).Some? ==> DateOf(later, key) == DateOf(events, key)
  }

  lemma MaterializingKeepsDates(db: Db, key: EventKey, newId: EventId)
    ensures SameDates(db.cat.events, Materialized(db, key, newId).0.cat.events)
  {
    var events := db.cat.events;
    var later := Materialized(db, key, newId).0.cat.events;
    forall k | DateOf(events, k).Some? ensures DateOf(later, k) == DateOf(events, k) {
      if k.UuidKey? && later != events {
        FirstAppend(events, later[|events|], HasId(k.event));
      }
    }
  }

  lemma EditKeepsDates(db: Db, later: Db)
    requires KeepsDays(db, later)
    ensures SameDates(db.cat.events, later.cat.events)
  {
    forall k | DateOf(db.cat.events, k).Some? ensures DateOf(later.cat.events, k) == DateOf(db.cat.events, k) {
      if k.UuidKey? {
        assert FindEvent(db.cat.events, k.event).Some?;
      }
    }
  }

  lemma SameClashes(events: seq<EventRow>, later: seq<EventRow>, rows: seq<Interest>, user: UserId, key: EventKey)
    requires SameDates(events, later) && DateOf(events, key).Some?
    requires forall i :: 0 <= i < |rows| ==> DateOf(events, rows[i].key).Some?
    ensures HasClash(later, rows, user, key) == HasClash(events, rows, user, key)
  {
    forall i | 0 <= i < |rows| ensures Clashes(later, rows[i], user, key) == Clashes(events, rows[i], user, key) {}
  }

  lemma {:induction false} FindSame(rows: seq<Interest>, later: seq<Interest>, user: UserId, key: EventKey)
    requires |rows| == |later| && Grows(rows, later)
    ensures FindInterest(later, user, key) == FindInterest(rows, user, key)
    decreases |rows|
  {
    if |rows| > 0 {
      FindSame(rows[..|rows| - 1], later[..|rows| - 1], user, key);
    }
  }

  /** A look-up of (user, key) made at any earlier time: rows never move. */
  ghost predicate FoundRight(rows: seq<Interest>, user: UserId, key: EventKey, found: Option<nat>) {
    found.Some? ==> found.value < |rows| && rows[found.value].user == user && rows[found.value].key == key
  }

  lemma NoOtherThatDay(events: seq<EventRow>, rows: seq<Interest>, later: seq<Interest>, user: UserId, key: EventKey,
                       at: nat)
    requires OnePerDay(events, rows) && DateOf(events, key).Some? && !HasClash(events, rows, user, key)
    requires at < |later| && later[at].user == user && later[at].key == key && |rows| <= |later| <= |rows| + 1
    requires forall i :: 0 <= i < |later| && i != at ==>
             i < |rows| && later[i] == rows[i] && (rows[i].user == user ==> rows[i].key != key)
    ensures OnePerDay(events, later)
  {
    forall i | 0 <= i < |later| && i != at && later[i].user == user && later[i].status == Going
      ensures DateOf(events, later[i].key) != DateOf(events, key)
    {
      assert !Clashes(events, rows[i], user, key);
    }
  }

  lemma TwoOnOneDate(events: seq<EventRow>, rows: seq<Interest>, i: nat, j: nat)
    requires i < |rows| && j < |rows| && i != j && rows[i].user == rows[j].user
    requires rows[i].status == Going && rows[j].status == Going
    requires DateOf(events, rows[i].key) == DateOf(events, rows[j].key)
    ensures !OnePerDay(events, rows)
  {
    var a, b := if i < j then i else j, if i < j then j else i;
    assert 0 <= a < b < |rows| && DateOf(events, rows[a].key) == DateOf(events, rows[b].key);
  }

  /** A write that succeeds keeps one RSVP per date if and only if no other one of that date is on. */
  lemma WriteExactly(events: seq<EventRow>, rows: seq<Interest>, user: UserId, key: EventKey, location: LocationId,
                     found: Option<nat>)
    requires KeysUnique(rows) && OnePerDay(events, rows) && DateOf(events, key).Some?
    requires FoundRight(rows, user, key, found)
    ensures var (later, r) := Write(rows, user, key, location, found);
            && KeysUnique(later) && Grows(rows, later)
            && (r.Ok? ==> (OnePerDay(events, later) <==> !HasClash(events, rows, user, key)))
            && (r.Err? ==> later == rows)
  {
    var (later, r) := Write(rows, user, key, location, found);
    if r.Ok? {
      var at := if found.Some? then found.value else |rows|;
      assert later[at] == Interest(user, key, location, Going);
      if HasClash(events, rows, user, key) {
        var i :| 0 <= i < |rows| && Clashes(events, rows[i], user, key);
        assert later[i] == rows[i];
        TwoOnOneDate(events, later, i, at);
      } else {
        NoOtherThatDay(events, rows, later, user, key, at);
      }
    }
  }

  /** A write is seen by another check only if both are for different events of one runner and date. */
  lemma ClashAfterWrite(events: seq<EventRow>, rows: seq<Interest>, user: UserId, key: EventKey, location: LocationId,
                        found: Option<nat>, other: UserId, k: EventKey)
    requires FoundRight(rows, user, key, found) && !HasClash(events, rows, other, k)
    requires other != user || k == key || DateOf(events, k) != DateOf(events, key)
    ensures !HasClash(events, Write(rows, user, key, location, found).0, other, k)
  {
    var later := Write(rows, user, key, location, found).0;
    forall i | 0 <= i < |later| ensures !Clashes(events, later[i], other, k) {
      if i < |rows| {
        assert !Clashes(events, rows[i], other, k);
      }
    }
  }

  // ---------------------------------------------------------------- what a call achieves

  predicate IsGoing(rows: seq<Interest>, user: UserId, key: EventKey) {
    exists i :: 0 <= i < |rows| && rows[i].user == user && rows[i].key == key && rows[i].status == Going
  }

  lemma WrittenIsOn(events: seq<EventRow>, rows: seq<Interest>, user: UserId, key: EventKey, location: LocationId)
    requires !HasClash(events, rows, user, key)
    ensures var (later, r) := Write(rows, user, key, location, FindInterest(rows, user, key));
            r == Ok(Interest(user, key, location, Going)) && IsGoing(later, user, key)
              && !HasClash(events, later, user, key)
  {
    var found := FindInterest(rows, user, key);
    var later := Write(rows, user, key, location, found).0;
    var at := if found.Some? then found.value else |rows|;
    assert later[at] == Interest(user, key, location, Going);
    forall i | 0 <= i < |later| ensures !Clashes(events, later[i], user, key) {
      if i != at {
        assert !Clashes(events, rows[i], user, key);
      }
    }
  }

  /** A call succeeds if and only if the event and the location are open, a rule's day can be backed and
      no other RSVP of that date is on; then its key is the runner's one RSVP of the date. A refused
      call leaves the RSVPs alone. */
  lemma MarkGoingMeans(w: Rsvps, user: UserId, key: EventKey, location: LocationId, newId: EventId)
    requires Sound(w.db, w.rows)
    ensures var (after, rows, r) := Marked(w.db, w.open, w.rows, user, key, location, newId);
            var (backed, failed) := Materialized(w.db, key, newId);
            && (r.Ok? <==> EventProblem(w.db, key).None? && location in w.open && failed.None?
                           && !HasClash(w.db.cat.events, w.rows, user, key))
            && (r.Ok? ==>
                  && r.value == Interest(user, key, location, Going)
                  && IsGoing(rows, user, key) && !HasClash(after.cat.events, rows, user, key))
            && (r.Err? ==> rows == w.rows)
  {
    var (after, rows, r) := Marked(w.db, w.open, w.rows, user, key, location, newId);
    MaterializingKeepsDates(w.db, key, newId);
    if EventProblem(w.db, key).None? {
      SameClashes(w.db.cat.events, Materialized(w.db, key, newId).0.cat.events, w.rows, user, key);
      if r.Ok? {
        WrittenIsOn(after.cat.events, w.rows, user, key, location);
      }
    }
  }

  lemma OnAlready(rows: seq<Interest>, at: nat, location: LocationId)
    requires at < |rows| && rows[at].location == location && rows[at].status == Going
    ensures rows[at := rows[at].(location := location, status := Going)] == rows
  {}

  lemma RowFoundAgain(rows: seq<Interest>, user: UserId, key: EventKey, location: LocationId)
    requires KeysUnique(rows)
    ensures var (later, r) := Write(rows, user, key, location, FindInterest(rows, user, key));
            Write(later, user, key, location, FindInterest(later, user, key)) == (later, r)
  {
    var found := FindInterest(rows, user, key);
    var (later, r) := Write(rows, user, key, location, found);
    if found.Some? {
      FindSame(rows, later, user, key);
      OnAlready(later, found.value, location);
    } else {
      OnAlready(later, |rows|, location);
    }
  }

  lemma StillBacked(db: Db, key: EventKey, newId: EventId, laterId: EventId)
    requires EventProblem(db, key).None? && Materialized(db, key, newId).1.None?
    ensures var after := Materialized(db, key, newId).0;
            EventProblem(after, key).None? && Materialized(after, key, laterId) == (after, None)
  {
    var after := Materialized(db, key, newId).0;
    if key.RuleKey? && FindOverride(db.cat.events, key.rule, key.day).None? {
      assert Overrides(after.cat.events[|db.cat.events|], key.rule, key.day);
    }
  }

  /** The same call again changes nothing and returns the same row. */
  lemma MarkingTwiceIsMarkingOnce(w: Rsvps, user: UserId, key: EventKey, location: LocationId, newId: EventId,
                                  laterId: EventId)
    requires Sound(w.db, w.rows) && Marked(w.db, w.open, w.rows, user, key, location, newId).2.Ok?
    ensures var (after, rows, r) := Marked(w.db, w.open, w.rows, user, key, location, newId);
            Marked(after, w.open, rows, user, key, location, laterId) == (after, rows, r)
  {
    var (after, rows, r) := Marked(w.db, w.open, w.rows, user, key, location, newId);
    MarkGoingMeans(w, user, key, location, newId);
    StillBacked(w.db, key, newId, laterId);
    RowFoundAgain(w.rows, user, key, location);
  }

  /** Cancelling the RSVP that held a date frees it for any other key. */
  lemma CancelFreesTheDay(w: Rsvps, user: UserId, held: EventKey, key: EventKey)
    requires Sound(w.db, w.rows) && IsGoing(w.rows, user, held)
    requires DateOf(w.db.cat.events, key) == DateOf(w.db.cat.events, held)
    ensures !HasClash(w.db.cat.events, WithoutGoing(w.rows, user, held), user, key)
  {
    var events, rows := w.db.cat.events, WithoutGoing(w.rows, user, held);
    var h :| 0 <= h < |w.rows| && w.rows[h].user == user && w.rows[h].key == held && w.rows[h].status == Going;
    forall i | 0 <= i < |rows| ensures !Clashes(events, rows[i], user, key) {
      if w.rows[i].user == user && w.rows[i].status == Going && i != h {
        assert DateOf(events, w.rows[i].key) != DateOf(events, w.rows[h].key);
      }
    }
  }

  lemma LaterStillSound(events: seq<EventRow>, later: seq<EventRow>, rows: seq<Interest>)
    requires OnePerDay(events, rows) && SameDates(events, later)
    ensures OnePerDay(later, rows)
  {}

  lemma BothWritten(rows: seq<Interest>, user: UserId, k1: EventKey, k2: EventKey, l1: LocationId, l2: LocationId)
    requires k1 != k2
    ensures var once := Write(rows, user, k1, l1, FindInterest(rows, user, k1)).0;
            var twice := Write(once, user, k2, l2, FindInterest(rows, user, k2)).0;
            IsGoing(twice, user, k1) && IsGoing(twice, user, k2)
  {
    var f1, f2 := FindInterest(rows, user, k1), FindInterest(rows, user, k2);
    var once := Write(rows, user, k1, l1, f1).0;
    var twice := Write(once, user, k2, l2, f2).0;
    var at1 := if f1.Some? then f1.value else |rows|;
    assert once[at1] == Interest(user, k1, l1, Going);
    if f1.Some? {
      FindSame(rows, once, user, k2);
    } else {
      assert once[..|rows|] == rows;
    }
    var at2 := if f2.Some? then f2.value else |once|;
    assert twice[at2] == Interest(user, k2, l2, Going);
    assert twice[at1] == once[at1];
  }

  lemma TwoWrites(events: seq<EventRow>, rows: seq<Interest>, user: UserId, k1: EventKey, k2: EventKey,
                  l1: LocationId, l2: LocationId)
    requires KeysUnique(rows) && OnePerDay(events, rows) && k1 != k2
    requires DateOf(events, k1).Some? && DateOf(events, k2).Some?
    requires !HasClash(events, rows, user, k1) && !HasClash(events, rows, user, k2)
    ensures var once := Write(rows, user, k1, l1, FindInterest(rows, user, k1)).0;
            var twice := Write(once, user, k2, l2, FindInterest(rows, user, k2)).0;
            && IsGoing(twice, user, k1) && IsGoing(twice, user, k2)
            && (OnePerDay(events, twice) <==> DateOf(events, k1) != DateOf(events, k2))
  {
    var f1, f2 := FindInterest(rows, user, k1), FindInterest(rows, user, k2);
    var once := Write(rows, user, k1, l1, f1).0;
    var twice := Write(once, user, k2, l2, f2).0;
    WriteExactly(events, rows, user, k1, l1, f1);
    BothWritten(rows, user, k1, k2, l1, l2);
    if DateOf(events, k1) != DateOf(events, k2) {
      ClashAfterWrite(events, rows, user, k1, l1, f1, user, k2);
      WriteExactly(events, once, user, k2, l2, f2);
    } else {
      var i :| 0 <= i < |twice| && twice[i].user == user && twice[i].key == k1 && twice[i].status == Going;
      var j :| 0 <= j < |twice| && twice[j].user == user && twice[j].key == k2 && twice[j].status == Going;
      TwoOnOneDate(events, twice, i, j);
    }
  }

  lemma KnownDates(db: Db, open: set<LocationId>, rows: seq<Interest>, user: UserId, key: EventKey,
                   location: LocationId, newId: EventId)
    requires Check(db, open, rows, user, key, location, newId).1.Ok?
    ensures var (after, checked) := Check(db, open, rows, user, key, location, newId);
            && SameDates(db.cat.events, after.cat.events) && DateOf(db.cat.events, key).Some?
            && checked.value == FindInterest(rows, user, key) && !HasClash(after.cat.events, rows, user, key)
  {
    MaterializingKeepsDates(db, key, newId);
  }

  /** The check is not repeated by the write. Two calls of one runner for different events that both
      passed it before either wrote leave at most one RSVP per date if and only if their dates differ. */
  lemma RacingMarksExactly(w: Rsvps, user: UserId, k1: EventKey, k2: EventKey, l1: LocationId, l2: LocationId,
                           id1: EventId, id2: EventId)
    requires Sound(w.db, w.rows) && k1 != k2
    requires Check(w.db, w.open, w.rows, user, k1, l1, id1).1.Ok?
    requires Check(Check(w.db, w.open, w.rows, user, k1, l1, id1).0, w.open, w.rows, user, k2, l2, id2).1.Ok?
    ensures var (db1, c1) := Check(w.db, w.open, w.rows, user, k1, l1, id1);
            var (db2, c2) := Check(db1, w.open, w.rows, user, k2, l2, id2);
            var twice := Write(Write(w.rows, user, k1, l1, c1.value).0, user, k2, l2, c2.value).0;
            && IsGoing(twice, user, k1) && IsGoing(twice, user, k2)
            && (OnePerDay(db2.cat.events, twice) <==> DateOf(db2.cat.events, k1) != DateOf(db2.cat.events, k2))
  {
    var (db1, c1) := Check(w.db, w.open, w.rows, user, k1, l1, id1);
    var (db2, c2) := Check(db1, w.open, w.rows, user, k2, l2, id2);
    KnownDates(w.db, w.open, w.rows, user, k1, l1, id1);
    KnownDates(db1, w.open, w.rows, user, k2, l2, id2);
    LaterStillSound(w.db.cat.events, db1.cat.events, w.rows);
    LaterStillSound(db1.cat.events, db2.cat.events, w.rows);
    SameClashes(db1.cat.events, db2.cat.events, w.rows, user, k1);
    TwoWrites(db2.cat.events, w.rows, user, k1, k2, l1, l2);
  }
}
