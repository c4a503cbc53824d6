/** The Event row behind a rule occurrence, created on demand: one call as code, and every
    interleaving of callers with each other and with admin edits. */
module Materialize {
  import opened Domain
  import opened Seqs
  import opened Recurrence
  import opened RecurrenceViews

  /** Slugs are unique; a materialized row's slug is made of the first 32 bits of its rule's id
      (eight hex digits of a UUID) and the day. */
  datatype Slug = MatSlug(prefix: nat, day: Day) | OtherSlug(text: nat)

  const TWO_POW_96: nat := 0x1_0000_0000_0000_0000_0000_0000

  function SlugOf(rule: RuleId, d: Day): Slug { MatSlug(rule / TWO_POW_96, d) }

  datatype Db = Db(cat: Catalog, slugs: set<Slug>)

  datatype Error = RuleNotFound | OccurrenceInvalid | FullyExcluded | Conflict

  /** The rule an occurrence of `d` can be created from. */
  function UsableRule(cat: Catalog, rule: RuleId, d: Day): Result<Rule, Error> {
    var r := FindRule(cat.rules, rule);
    if r.None? || !r.value.active then Err(RuleNotFound)
    else if Weekday(DayOf(ComposeOccurrence(r.value, d))) != r.value.weekday then Err(OccurrenceInvalid)
    else Ok(r.value)
  }

  /** The starting points a row of this day is created with. */
  function OpenLocations(cat: Catalog, r: Rule, d: Day): seq<LocationId> {
    VisibleLocations(r, ExcludedOn(PublishedOn(cat.events, d), d))
  }

  function NewRow(id: EventId, r: Rule, d: Day, locations: seq<LocationId>): EventRow {
    var t := ComposeOccurrence(r, d);
    EventRow(id, r.kind, true, t, t + r.minutes * MINUTE_MS, Some(r.id), Some(d), [], locations)
  }

  /** The insert of event and sync rule: one transaction, refused by either unique. */
  function InsertRow(db: Db, row: EventRow, rule: RuleId, d: Day): Option<Db> {
    if FindOverride(db.cat.events, rule, d).Some? || SlugOf(rule, d) in db.slugs then None
    else Some(Db(db.cat.(events := db.cat.events + [row]), db.slugs + {SlugOf(rule, d)}))
  }

  /** One call with nothing else running. */
  function Ensure(db: Db, rule: RuleId, d: Day, newId: EventId): (Db, Result<EventRow, Error>) {
    var existing := FindOverride(db.cat.events, rule, d);
    if existing.Some? then (db, Ok(existing.value))
    else
      var usable := UsableRule(db.cat, rule, d);
      if usable.Err? then (db, Err(usable.error))
      else
        var locations := OpenLocations(db.cat, usable.value, d);
        if |locations| == 0 then (db, Err(FullyExcluded))
        else
          var row := NewRow(newId, usable.value, d, locations);
          var inserted := InsertRow(db, row, rule, d);
          if inserted.None? then (db, Err(Conflict)) else (inserted.value, Ok(row))
  }

  /** Materializing against the detail view: without a row, it succeeds exactly on an active rule's
      weekday with a location left and the slug free. Unlike the detail view it does not look at
      the rule's date range. */
  lemma EnsureVersusDetail(db: Db, r: Rule, d: Day, newId: EventId)
    requires Formed(db.cat) && r in db.cat.rules && FindOverride(db.cat.events, r.id, d).None?
    ensures var (_, made) := Ensure(db, r.id, d, newId);
            var detail := RuleOccurrenceById(db.cat, r.id, d);
            && (made.Ok? <==>
                  r.active && Weekday(d) == r.weekday && HasOpenLocation(db.cat, r, d) && SlugOf(r.id, d) !in db.slugs)
            && (detail.Some? ==> (made.Ok? <==> |detail.value.locations| > 0 && SlugOf(r.id, d) !in db.slugs))
            && (made.Ok? ==> (detail.Some? <==> r.startsFrom <= d && (r.endsAt.None? || d <= r.endsAt.value)))
            && (made.Ok? && detail.Some? ==>
                  detail.value == Detail(made.value.startsAt, made.value.endsAt, made.value.sync))
  {
    SameRule(db.cat, FindRule(db.cat.rules, r.id).value, r);
    DayOfCompose(r, d);
    DetailAcceptsCalendarDays(db.cat, r, d);
    forall l ensures l in ExcludedOn(PublishedOn(db.cat.events, d), d) <==> ExcludedByAny(db.cat, d, l) {
      DetailExclusions(db.cat, d, l);
    }
    var open := OpenLocations(db.cat, r, d);
    if |open| > 0 {
      assert open[0] in open;
    }
  }

  class EventOccurrenceService {
    var db: Db

    constructor (db: Db)
      ensures this.db == db
    {
      this.db := db;
    }

    method EnsureMaterializedEvent(rule: RuleId, occurrence: Instant, newId: EventId)
      returns (r: Result<EventRow, Error>)
      modifies this
      ensures (db, r) == Ensure(old(db), rule, DayOf(occurrence), newId)
    {
      var day := DayOf(occurrence);
      var existing := FindOverride(db.cat.events, rule, day);
      if existing.Some? {
        return Ok(existing.value);
      }
      var usable := UsableRule(db.cat, rule, day);
      if usable.Err? {
        return Err(usable.error);
      }
      var locations := OpenLocations(db.cat, usable.value, day);
      if |locations| == 0 {
        return Err(FullyExcluded);
      }
      var row := NewRow(newId, usable.value, day, locations);
      var inserted := InsertRow(db, row, rule, day);
      match inserted {
        case Some(after) =>
          db := after;
          r := Ok(row);
        case None =>
          // With a single caller the re-read that follows finds nothing: the slug was taken.
          r := Err(Conflict);
      }
    }
  }

  // ---------------------------------------------------------------- interleaved callers

  /** Where a call is; `since` is the edit count when its rule was read. */
  datatype Call =
    | Asked(rule: RuleId, day: Day)
    | NotThere(rule: RuleId, day: Day)
    | RuleRead(rule: RuleId, day: Day, copy: Rule, since: nat)
    | Ready(rule: RuleId, day: Day, copy: Rule, locations: seq<LocationId>, since: nat)
    | Clashed(rule: RuleId, day: Day)
    | Returned(rule: RuleId, day: Day, event: EventId)
    | Refused(rule: RuleId, day: Day, error: Error)

  /** `edits` counts admin edits of rules and events. */
  datatype State = State(db: Db, calls: map<nat, Call>, edits: nat)

  datatype Step =
    | Ask(call: nat, rule: RuleId, day: Day)
    | Lookup(call: nat)
    | ReadRule(call: nat)
    | ReadExclusions(call: nat)
    | Insert(call: nat, newId: EventId)
    | Reread(call: nat)
    | Lose(call: nat)
    | SaveRule(saved: Rule)                    // creates or edits a rule
    | SaveEvent(event: EventRow, slug: nat)    // creates or edits an event; an edit keeps what it overrides

  function EventIds(events: seq<EventRow>): set<EventId> { set e | e in events :: e.id }

  function ReplaceEvent(events: seq<EventRow>, e: EventRow): seq<EventRow> {
    if |events| == 0 then []
    else
      var last := events[|events| - 1];
      ReplaceEvent(events[..|events| - 1], e) +
        [if last.id == e.id then e.(rule := last.rule, overrides := last.overrides) else last]
  }

  function PutRule(rules: seq<Rule>, r: Rule): seq<Rule> {
    Filter(rules, (x: Rule) => x.id != r.id) + [r]
  }

  function CallStep(s: State, id: nat, step: Step): State
    requires id in s.calls
  {
    var c := s.calls[id];
    var cat := s.db.cat;
    match step
    case Lookup(_) =>
      if !c.Asked? then s
      else
        var existing := FindOverride(cat.events, c.rule, c.day);
        s.(calls := s.calls[id := if existing.Some? then Returned(c.rule, c.day, existing.value.id)
                                  else NotThere(c.rule, c.day)])
    case ReadRule(_) =>
      if !c.NotThere? then s
      else
        var usable := UsableRule(cat, c.rule, c.day);
        s.(calls := s.calls[id := if usable.Ok? then RuleRead(c.rule, c.day, usable.value, s.edits)
                                  else Refused(c.rule, c.day, usable.error)])
    case ReadExclusions(_) =>
      if !c.RuleRead? then s
      else
        var locations := OpenLocations(cat, c.copy, c.day);
        s.(calls := s.calls[id := if |locations| > 0 then Ready(c.rule, c.day, c.copy, locations, c.since)
                                  else Refused(c.rule, c.day, FullyExcluded)])
    case Insert(_, newId) =>
      if !c.Ready? || newId in EventIds(cat.events) then s
      else
        var inserted := InsertRow(s.db, NewRow(newId, c.copy, c.day, c.locations), c.rule, c.day);
        if inserted.Some? then s.(db := inserted.value, calls := s.calls[id := Returned(c.rule, c.day, newId)])
        else s.(calls := s.calls[id := Clashed(c.rule, c.day)])
    case Reread(_) =>
      if !c.Clashed? then s
      else
        var winner := FindOverride(cat.events, c.rule, c.day);
        s.(calls := s.calls[id := if winner.Some? then Returned(c.rule, c.day, winner.value.id)
                                  else Refused(c.rule, c.day, Conflict)])
    case Lose(_) => s.(calls := s.calls - {id})
    case _ => s
  }

  function Apply(s: State, step: Step): State {
    match step
    case Ask(id, rule, day) => if id in s.calls then s else s.(calls := s.calls[id := Asked(rule, day)])
    case SaveRule(r) =>
      s.(db := s.db.(cat := s.db.cat.(rules := PutRule(s.db.cat.rules, r))), edits := s.edits + 1)
    case SaveEvent(e, slug) =>
      if e.id in EventIds(s.db.cat.events) then
        s.(db := s.db.(cat := s.db.cat.(events := ReplaceEvent(s.db.cat.events, e))), edits := s.edits + 1)
      else if OtherSlug(slug) in s.db.slugs then s
      else
        s.(db := Db(s.db.cat.(events := s.db.cat.events + [e.(rule := None, overrides := None)]),
                    s.db.slugs + {OtherSlug(slug)}),
           edits := s.edits + 1)
    case _ => if step.call in s.calls then CallStep(s, step.call, step) else s
  }

  function Run(s: State, steps: seq<Step>): State
    decreases |steps|
  {
    if |steps| == 0 then s else Run(Apply(s, steps[0]), steps[1..])
  }

  /** Row `e` stands for the occurrence. */
  ghost predicate Stands(db: Db, rule: RuleId, d: Day, e: EventId) {
    exists row :: row in db.cat.events && Overrides(row, rule, d) && row.id == e
  }

  ghost predicate IdsUnique(events: seq<EventRow>) { Distinct(events, (e: EventRow) => e.id) }

  ghost predicate RulesUnique(rules: seq<Rule>) { Distinct(rules, (r: Rule) => r.id) }

  /** `locations` are the rule's active locations minus the exclusions in force now. */
  ghost predicate SameLocations(cat: Catalog, r: Rule, d: Day, locations: seq<LocationId>) {
    forall l :: l in locations <==> RuleLocation(l, true) in r.locations && !ExcludedByAny(cat, d, l)
  }

  ghost predicate CallSound(s: State, c: Call) {
    match c
    case RuleRead(rule, day, copy, since) =>
      copy.id == rule && since <= s.edits && (since == s.edits ==> copy in s.db.cat.rules)
    case Ready(rule, day, copy, locations, since) =>
      && copy.id == rule && |locations| > 0 && since <= s.edits
      && (since == s.edits ==> copy in s.db.cat.rules && SameLocations(s.db.cat, copy, day, locations))
    case Returned(rule, day, event) => Stands(s.db, rule, day, event)
    case _ => true
  }

  ghost predicate Inv(s: State) {
    && IdsUnique(s.db.cat.events) && OneOverride(s.db.cat.events) && RulesUnique(s.db.cat.rules)
    && (forall c :: c in s.calls ==> CallSound(s, s.calls[c]))
  }

  // ---------------------------------------------------------------- the invariant is kept

  /** Nothing that stands for an occurrence ever stops standing for it. */
  ghost predicate KeepsStanding(db: Db, later: Db) {
    forall rule, d, e :: Stands(db, rule, d, e) ==> Stands(later, rule, d, e)
  }

  lemma OpenLocationsAre(cat: Catalog, r: Rule, d: Day)
    ensures SameLocations(cat, r, d, OpenLocations(cat, r, d))
  {
    forall l ensures l in ExcludedOn(PublishedOn(cat.events, d), d) <==> ExcludedByAny(cat, d, l) {
      DetailExclusions(cat, d, l);
    }
  }

  lemma AppendKeepsStanding(db: Db, later: Db, row: EventRow)
    requires later.cat.events == db.cat.events + [row]
    ensures KeepsStanding(db, later)
  {
    forall rule, d, e | Stands(db, rule, d, e) ensures Stands(later, rule, d, e) {
      var x :| x in db.cat.events && Overrides(x, rule, d) && x.id == e;
      assert x in later.cat.events;
    }
  }

  /** A materialized row excludes nothing, so it moves nobody's open locations. */
  lemma NewRowExcludesNothing(cat: Catalog, row: EventRow, d: Day, loc: LocationId)
    requires row.excludes == []
    ensures ExcludedByAny(cat.(events := cat.events + [row]), d, loc) <==> ExcludedByAny(cat, d, loc)
  {
    var later := cat.(events := cat.events + [row]);
    if ExcludedByAny(cat, d, loc) {
      var e :| e in cat.events && e.published && Excludes(e, d, loc);
      assert e in later.events;
    }
  }

  lemma InsertKeeps(s: State, id: nat, newId: EventId)
    requires Inv(s) && id in s.calls && s.calls[id].Ready?
    ensures Inv(CallStep(s, id, Insert(id, newId)))
    ensures KeepsStanding(s.db, CallStep(s, id, Insert(id, newId)).db)
  {
    var c := s.calls[id];
    assert CallSound(s, c);
    var end := CallStep(s, id, Insert(id, newId));
    if end.db != s.db {
      var row := NewRow(newId, c.copy, c.day, c.locations);
      assert end.db.cat.events == s.db.cat.events + [row];
      AppendKeepsStanding(s.db, end.db, row);
      DistinctAppend(s.db.cat.events, row, (e: EventRow) => e.id);
      assert row in end.db.cat.events && Overrides(row, c.rule, c.day);
      forall d, l ensures ExcludedByAny(end.db.cat, d, l) <==> ExcludedByAny(s.db.cat, d, l) {
        NewRowExcludesNothing(s.db.cat, row, d, l);
      }
      forall x | x in end.calls ensures CallSound(end, end.calls[x]) {
        assert x != id ==> CallSound(s, s.calls[x]);
      }
    }
  }

  lemma MoveKeeps(s: State, id: nat, c: Call)
    requires Inv(s) && CallSound(s, c)
    ensures Inv(s.(calls := s.calls[id := c]))
  {
    var end := s.(calls := s.calls[id := c]);
    forall x | x in end.calls ensures CallSound(end, end.calls[x]) {
      assert x != id ==> CallSound(s, s.calls[x]);
    }
  }

  lemma CallStepKeeps(s: State, id: nat, step: Step)
    requires Inv(s) && id in s.calls
    ensures Inv(CallStep(s, id, step))
    ensures KeepsStanding(s.db, CallStep(s, id, step).db)
  {
    var c := s.calls[id];
    var end := CallStep(s, id, step);
    assert CallSound(s, c);
    match step
    case Insert(_, newId) =>
      if c.Ready? {
        InsertKeeps(s, id, newId);
      }
    case ReadExclusions(_) =>
      if c.RuleRead? {
        OpenLocationsAre(s.db.cat, c.copy, c.day);
        MoveKeeps(s, id, end.calls[id]);
      }
    case Lookup(_) =>
      if c.Asked? {
        MoveKeeps(s, id, end.calls[id]);
      }
    case ReadRule(_) =>
      if c.NotThere? {
        MoveKeeps(s, id, end.calls[id]);
      }
    case Reread(_) =>
      if c.Clashed? {
        MoveKeeps(s, id, end.calls[id]);
      }
    case Lose(_) =>
      forall x | x in end.calls ensures CallSound(end, end.calls[x]) {
        assert CallSound(s, s.calls[x]);
      }
    case _ =>
  }

  lemma {:induction false} ReplacedEvents(events: seq<EventRow>, e: EventRow)
    ensures var after := ReplaceEvent(events, e);
            && |after| == |events|
            && (forall i :: 0 <= i < |events| ==>
                  after[i] == if events[i].id == e.id
                              then e.(rule := events[i].rule, overrides := events[i].overrides)
                              else events[i])
    decreases |events|
  {
    if |events| > 0 {
      ReplacedEvents(events[..|events| - 1], e);
    }
  }

  lemma ReplaceKeepsIds(events: seq<EventRow>, e: EventRow)
    requires IdsUnique(events)
    ensures IdsUnique(ReplaceEvent(events, e))
  {
    ReplacedEvents(events, e);
    var after := ReplaceEvent(events, e);
    var key := (x: EventRow) => x.id;
    forall i, j | 0 <= i < j < |after| ensures key(after[i]) != key(after[j]) {
      assert key(events[i]) != key(events[j]);
    }
  }

  lemma SamePosition(events: seq<EventRow>, i: nat, j: nat)
    requires IdsUnique(events) && i < |events| && j < |events| && events[i] == events[j]
    ensures i == j
  {
    var key := (x: EventRow) => x.id;
    assert key(events[i]) == key(events[j]);
  }

  lemma OneOverrideAt(events: seq<EventRow>, i: nat, j: nat)
    requires OneOverride(events) && i < |events| && j < |events| && IsOverride(events[i])
    requires events[i].rule == events[j].rule && events[i].overrides == events[j].overrides
    ensures events[i] == events[j]
  {
    assert events[i] in events && events[j] in events;
  }

  lemma ReplacedOverride(events: seq<EventRow>, e: EventRow, i: nat, j: nat)
    requires IdsUnique(events) && OneOverride(events)
    requires i < |ReplaceEvent(events, e)| && j < |ReplaceEvent(events, e)|
    requires var x, y := ReplaceEvent(events, e)[i], ReplaceEvent(events, e)[j];
             IsOverride(x) && x.rule == y.rule && x.overrides == y.overrides
    ensures i == j
  {
    ReplacedEvents(events, e);
    OneOverrideAt(events, i, j);
    SamePosition(events, i, j);
  }

  lemma ReplaceKeepsOverrides(events: seq<EventRow>, e: EventRow)
    requires IdsUnique(events) && OneOverride(events)
    ensures OneOverride(ReplaceEvent(events, e))
  {
    var after := ReplaceEvent(events, e);
    forall x, y | x in after && y in after && IsOverride(x) && IsOverride(y) && x.rule == y.rule
      && x.overrides == y.overrides
      ensures x == y
    {
      var i :| 0 <= i < |after| && after[i] == x;
      var j :| 0 <= j < |after| && after[j] == y;
      ReplacedOverride(events, e, i, j);
    }
  }

  lemma ReplaceKeepsStanding(db: Db, later: Db, e: EventRow)
    requires later.cat.events == ReplaceEvent(db.cat.events, e)
    ensures KeepsStanding(db, later)
  {
    ReplacedEvents(db.cat.events, e);
    forall rule, d, id | Stands(db, rule, d, id) ensures Stands(later, rule, d, id) {
      var x :| x in db.cat.events && Overrides(x, rule, d) && x.id == id;
      var i :| 0 <= i < |db.cat.events| && db.cat.events[i] == x;
      assert later.cat.events[i] in later.cat.events && Overrides(later.cat.events[i], rule, d);
    }
  }

  /** An edit only outdates what calls have read. */
  lemma EditKeepsCalls(s: State, later: State)
    requires Inv(s) && later.calls == s.calls && later.edits == s.edits + 1 && KeepsStanding(s.db, later.db)
    ensures forall c :: c in later.calls ==> CallSound(later, later.calls[c])
  {
    forall c | c in later.calls ensures CallSound(later, later.calls[c]) {
      assert CallSound(s, s.calls[c]);
    }
  }

  lemma EditKeeps(s: State, step: Step)
    requires Inv(s) && (step.SaveRule? || step.SaveEvent?)
    ensures Inv(Apply(s, step)) && KeepsStanding(s.db, Apply(s, step).db)
  {
    var end := Apply(s, step);
    if step.SaveRule? {
      var rules := s.db.cat.rules;
      FilterDistinct(rules, (x: Rule) => x.id != step.saved.id, (x: Rule) => x.id);
      DistinctAppend(Filter(rules, (x: Rule) => x.id != step.saved.id), step.saved, (x: Rule) => x.id);
      EditKeepsCalls(s, end);
    } else if step.event.id in EventIds(s.db.cat.events) {
      ReplaceKeepsIds(s.db.cat.events, step.event);
      ReplaceKeepsOverrides(s.db.cat.events, step.event);
      ReplaceKeepsStanding(s.db, end.db, step.event);
      EditKeepsCalls(s, end);
    } else if end != s {
      var row := step.event.(rule := None, overrides := None);
      DistinctAppend(s.db.cat.events, row, (e: EventRow) => e.id);
      AppendKeepsStanding(s.db, end.db, row);
      EditKeepsCalls(s, end);
    }
  }

  lemma StepKeeps(s: State, step: Step)
    requires Inv(s)
    ensures Inv(Apply(s, step)) && KeepsStanding(s.db, Apply(s, step).db)
  {
    match step
    case Ask(id, rule, day) =>
      if id !in s.calls {
        MoveKeeps(s, id, Asked(rule, day));
      }
    case SaveRule(_) => EditKeeps(s, step);
    case SaveEvent(_, _) => EditKeeps(s, step);
    case _ =>
      if step.call in s.calls {
        CallStepKeeps(s, step.call, step);
      }
  }

  lemma {:induction false} EveryRunKeeps(s: State, steps: seq<Step>)
    requires Inv(s)
    ensures Inv(Run(s, steps)) && KeepsStanding(s.db, Run(s, steps).db)
    decreases |steps|
  {
    if |steps| > 0 {
      StepKeeps(s, steps[0]);
      EveryRunKeeps(Apply(s, steps[0]), steps[1..]);
    }
  }

  // ---------------------------------------------------------------- the guarantees

  lemma OneStands(db: Db, rule: RuleId, d: Day, e: EventId, f: EventId)
    requires OneOverride(db.cat.events) && Stands(db, rule, d, e) && Stands(db, rule, d, f)
    ensures e == f
  {
    var x :| x in db.cat.events && Overrides(x, rule, d) && x.id == e;
    var y :| y in db.cat.events && Overrides(y, rule, d) && y.id == f;
    assert IsOverride(x) && IsOverride(y);
  }

  /** Materialize once: under any interleaving there is at most one Event row per (rule, day), and
      every call that returns, early or late, returns that row. */
  lemma EveryCallReturnsTheOneRow(s: State, before: seq<Step>, after: seq<Step>, c: nat, d: nat)
    requires Inv(s)
    requires var mid := Run(s, before);
             var end := Run(mid, after);
             && c in mid.calls && mid.calls[c].Returned? && d in end.calls && end.calls[d].Returned?
             && mid.calls[c].rule == end.calls[d].rule && mid.calls[c].day == end.calls[d].day
    ensures var mid := Run(s, before);
            var end := Run(mid, after);
            && mid.calls[c].event == end.calls[d].event
            && OneOverride(end.db.cat.events)
            && Stands(end.db, end.calls[d].rule, end.calls[d].day, end.calls[d].event)
  {
    EveryRunKeeps(s, before);
    var mid := Run(s, before);
    EveryRunKeeps(mid, after);
    var end := Run(mid, after);
    assert CallSound(mid, mid.calls[c]) && CallSound(end, end.calls[d]);
    OneStands(end.db, end.calls[d].rule, end.calls[d].day, mid.calls[c].event, end.calls[d].event);
  }

  /** A created row has starting points; they are the rule's active locations minus the exclusions in
      force at creation whenever no admin edit was committed since the call read the rule. */
  lemma CreatedLocations(s: State, steps: seq<Step>, id: nat, newId: EventId)
    requires Inv(s)
    requires var mid := Run(s, steps);
             id in mid.calls && mid.calls[id].Ready? && Apply(mid, Insert(id, newId)).db != mid.db
    ensures var mid := Run(s, steps);
            var c := mid.calls[id];
            var end := Apply(mid, Insert(id, newId));
            var row := NewRow(newId, c.copy, c.day, c.locations);
            && end.db.cat.events == mid.db.cat.events + [row] && Overrides(row, c.rule, c.day)
            && end.calls[id] == Returned(c.rule, c.day, newId)
            && |row.sync| > 0
            && (c.since == mid.edits ==>
                  c.copy in end.db.cat.rules && SameLocations(end.db.cat, c.copy, c.day, row.sync))
  {
    EveryRunKeeps(s, steps);
    var mid := Run(s, steps);
    var c := mid.calls[id];
    assert CallSound(mid, c);
    var row := NewRow(newId, c.copy, c.day, c.locations);
    forall l
      ensures ExcludedByAny(mid.db.cat.(events := mid.db.cat.events + [row]), c.day, l) <==>
              ExcludedByAny(mid.db.cat, c.day, l)
    {
      NewRowExcludesNothing(mid.db.cat, row, c.day, l);
    }
  }

  /** An event saved between the read and the insert is missed: the row keeps a location that is
      excluded by the time it is created. */
  lemma LateExclusionIsMissed(s: State, id: nat, newId: EventId, special: EventRow, slug: nat, loc: LocationId)
    requires Inv(s) && id in s.calls && s.calls[id].Ready? && loc in s.calls[id].locations
    requires FindOverride(s.db.cat.events, s.calls[id].rule, s.calls[id].day).None?
    requires SlugOf(s.calls[id].rule, s.calls[id].day) !in s.db.slugs && OtherSlug(slug) !in s.db.slugs
    requires special.published && special.rule.None? && special.overrides.None?
    requires Excludes(special, s.calls[id].day, loc)
    requires special.id !in EventIds(s.db.cat.events) && newId !in EventIds(s.db.cat.events) && newId != special.id
    ensures var edited := Apply(s, SaveEvent(special, slug));
            var end := Apply(edited, Insert(id, newId));
            var row := NewRow(newId, s.calls[id].copy, s.calls[id].day, s.calls[id].locations);
            && row in end.db.cat.events && loc in row.sync
            && ExcludedByAny(end.db.cat, s.calls[id].day, loc)
  {
    var c := s.calls[id];
    var edited := Apply(s, SaveEvent(special, slug));
    assert edited.db.cat.events == s.db.cat.events + [special];
    forall x | x in edited.db.cat.events ensures !Overrides(x, c.rule, c.day) {
      assert x in s.db.cat.events || x == special;
    }
    var end := Apply(edited, Insert(id, newId));
    var row := NewRow(newId, c.copy, c.day, c.locations);
    assert end.db.cat.events == edited.db.cat.events + [row];
    assert special in end.db.cat.events;
  }

  lemma OverrideOfOther(events: seq<EventRow>, row: EventRow, rule: RuleId, d: Day)
    requires row.rule != Some(rule) && FindOverride(events, rule, d).None?
    ensures FindOverride(events + [row], rule, d).None?
  {}

  lemma SameOpenLocations(cat: Catalog, row: EventRow, r: Rule, d: Day)
    requires row.excludes == []
    ensures OpenLocations(cat.(events := cat.events + [row]), r, d) == OpenLocations(cat, r, d)
  {
    var later := cat.(events := cat.events + [row]);
    var before, now := ExcludedOn(PublishedOn(cat.events, d), d), ExcludedOn(PublishedOn(later.events, d), d);
    forall l ensures l in now <==> l in before {
      DetailExclusions(cat, d, l);
      DetailExclusions(later, d, l);
      NewRowExcludesNothing(cat, row, d, l);
    }
    assert now == before;
  }

  /** Two rules that could each be materialized on a day, one after the other: the second call succeeds if and
      only if their ids differ in the first eight digits. Otherwise it clashes on the slug, finds no row of
      its own and is refused. */
  lemma SharedPrefixIsRefused(db: Db, first: RuleId, other: RuleId, d: Day, id1: EventId, id2: EventId)
    requires first != other && Ensure(db, first, d, id1).0 != db && Ensure(db, other, d, id2).0 != db
    ensures var after := Ensure(db, first, d, id1).0;
            && (Ensure(after, other, d, id2).1.Ok? <==> first / TWO_POW_96 != other / TWO_POW_96)
            && (Ensure(after, other, d, id2).1.Err? ==> Ensure(after, other, d, id2) == (after, Err(Conflict)))
  {
    var after := Ensure(db, first, d, id1).0;
    var row := Ensure(db, first, d, id1).1.value;
    assert after.cat.events == db.cat.events + [row];
    OverrideOfOther(db.cat.events, row, other, d);
    SameOpenLocations(db.cat, row, UsableRule(db.cat, other, d).value, d);
  }
}
