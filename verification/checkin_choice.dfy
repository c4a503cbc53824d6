/** Which rule occurrence a scan at a location lands in. */
module CheckinChoice {
  import opened Domain
  import opened Seqs
  import opened Recurrence
  import opened RecurrenceViews
  import opened Materialize

  const OPEN_BEFORE_MS: int := 60 * MINUTE_MS
  const OPEN_AFTER_MS: int := 30 * MINUTE_MS

  datatype Candidate = Candidate(rule: Rule, start: Instant)

  predicate WindowOpen(r: Rule, start: Instant, at: Instant) {
    start - OPEN_BEFORE_MS <= at <= start + r.minutes * MINUTE_MS + OPEN_AFTER_MS
  }

  /** A points-eligible rule of this location runs on the day of `at` with its window open then. */
  ghost predicate OpenRule(r: Rule, loc: LocationId, at: Instant) {
    && r.eligible && RunsOn(r, DayOf(at)) && RuleLocation(loc, true) in r.locations
    && WindowOpen(r, ComposeOccurrence(r, DayOf(at)), at)
  }

  /** The query for rules that may be open. */
  predicate Attached(r: Rule, loc: LocationId, at: Instant) {
    && r.active && r.eligible && r.weekday == Weekday(DayOf(at)) && Midnight(r.startsFrom) <= at
    && (r.endsAt.None? || Midnight(r.endsAt.value) >= Midnight(DayOf(at)))
    && RuleLocation(loc, true) in r.locations
  }

  function Distance(c: Candidate, at: Instant): int { if c.start > at then c.start - at else at - c.start }

  /** Special before partner before regular, then the nearest start. */
  predicate Preferred(a: Candidate, b: Candidate, at: Instant) {
    || TypeRank(a.rule.kind) < TypeRank(b.rule.kind)
    || (TypeRank(a.rule.kind) == TypeRank(b.rule.kind) && Distance(a, at) <= Distance(b, at))
  }

  function Preference(at: Instant): (Candidate, Candidate) -> bool {
    (a: Candidate, b: Candidate) => Preferred(a, b, at)
  }

  lemma PreferenceIsPreorder(at: Instant)
    ensures Preorder(Preference(at))
  {}

  lemma AttachedRunsToday(r: Rule, loc: LocationId, at: Instant)
    ensures Attached(r, loc, at) <==> r.eligible && RunsOn(r, DayOf(at)) && RuleLocation(loc, true) in r.locations
  {
    assert Midnight(r.startsFrom) <= at <==> r.startsFrom <= DayOf(at);
  }

  /** None if no rule of the location is open; otherwise an open rule that no other open one beats. */
  ghost predicate Best(cat: Catalog, loc: LocationId, at: Instant, choice: Option<Candidate>) {
    && (choice.None? <==> forall r :: r in cat.rules ==> !OpenRule(r, loc, at))
    && (choice.Some? ==>
          && choice.value.rule in cat.rules && OpenRule(choice.value.rule, loc, at)
          && choice.value.start == ComposeOccurrence(choice.value.rule, DayOf(at))
          && forall r :: r in cat.rules && OpenRule(r, loc, at) ==>
               Preferred(choice.value, Candidate(r, ComposeOccurrence(r, DayOf(at))), at))
  }

  method FindOpenCheckinOccurrence(cat: Catalog, loc: LocationId, at: Instant) returns (choice: Option<Candidate>)
    ensures Best(cat, loc, at, choice)
  {
    var rules := Filter(cat.rules, (r: Rule) => Attached(r, loc, at));
    forall r
      ensures Attached(r, loc, at) <==> r.eligible && RunsOn(r, DayOf(at)) && RuleLocation(loc, true) in r.locations
    {
      AttachedRunsToday(r, loc, at);
    }
    var open: seq<Candidate> := [];
    for i := 0 to |rules|
      invariant forall c :: c in open <==> c.rule in rules[..i] && OpenRule(c.rule, loc, at)
                                           && c.start == ComposeOccurrence(c.rule, DayOf(at))
    {
      assert rules[..i + 1] == rules[..i] + [rules[i]];
      assert rules[i] in rules;
      var start := ComposeOccurrence(rules[i], DayOf(at));
      if WindowOpen(rules[i], start, at) {
        open := open + [Candidate(rules[i], start)];
      }
    }
    assert rules[..|rules|] == rules;
    forall r | r in cat.rules && OpenRule(r, loc, at) ensures Candidate(r, ComposeOccurrence(r, DayOf(at))) in open {}
    if |open| == 0 {
      return None;
    }
    PreferenceIsPreorder(at);
    SortSorts(open, Preference(at));
    var sorted := Sort(open, Preference(at));
    assert sorted[0] in open;
    forall c | c in open ensures Preferred(sorted[0], c, at) {
      assert c in sorted;
      var j :| 0 <= j < |sorted| && sorted[j] == c;
      assert j > 0 ==> Preference(at)(sorted[0], sorted[j]);
    }
    choice := Some(sorted[0]);
  }

  /** What the call answers for a choice: no event, or what materializing it answers. */
  function Answer(db: Db, at: Instant, newId: EventId, choice: Option<Candidate>):
    (Db, Result<Option<EventRow>, Materialize.Error>)
  {
    if choice.None? then (db, Ok(None))
    else
      var (after, row) := Ensure(db, choice.value.rule.id, DayOf(at), newId);
      (after, if row.Ok? then Ok(Some(row.value)) else Err(row.error))
  }

  /** The whole call: the event row of the best open rule, made if need be, or its refusal. */
  method OpenCheckinEvent(service: EventOccurrenceService, loc: LocationId, at: Instant, newId: EventId)
    returns (r: Result<Option<EventRow>, Materialize.Error>, ghost choice: Option<Candidate>)
    requires Formed(service.db.cat)
    modifies service
    ensures Best(old(service.db).cat, loc, at, choice)
    ensures (service.db, r) == Answer(old(service.db), at, newId, choice)
  {
    var found := FindOpenCheckinOccurrence(service.db.cat, loc, at);
    choice := found;
    if found.None? {
      return Ok(None), found;
    }
    DayOfCompose(found.value.rule, DayOf(at));
    var row := service.EnsureMaterializedEvent(found.value.rule.id, found.value.start, newId);
    match row {
      case Ok(e) => r := Ok(Some(e));
      case Err(error) => r := Err(error);
    }
  }

  /** An open rule's occurrence is refused if and only if it has no row yet and either every location is excluded
      that day, the scanned one among them, or its slug is taken. */
  lemma OpenRefusedExactly(db: Db, r: Rule, loc: LocationId, at: Instant, newId: EventId)
    requires Formed(db.cat) && r in db.cat.rules && OpenRule(r, loc, at)
    ensures Ensure(db, r.id, DayOf(at), newId).1.Err? <==>
            && FindOverride(db.cat.events, r.id, DayOf(at)).None?
            && (!HasOpenLocation(db.cat, r, DayOf(at)) || SlugOf(r.id, DayOf(at)) in db.slugs)
    ensures !HasOpenLocation(db.cat, r, DayOf(at)) ==> ExcludedByAny(db.cat, DayOf(at), loc)
  {
    if FindOverride(db.cat.events, r.id, DayOf(at)).None? {
      EnsureVersusDetail(db, r, DayOf(at), newId);
    }
  }

  /** Check-in and detail views: an occurrence open for check-in is one the detail view accepts, but
      the scanned location is among the shown ones if and only if no published event of that day
      excludes it: check-in does not look at exclusions. */
  lemma OpenOccurrenceHasDetail(cat: Catalog, r: Rule, loc: LocationId, at: Instant)
    requires Formed(cat) && r in cat.rules && OpenRule(r, loc, at)
    ensures var detail := RuleOccurrenceById(cat, r.id, DayOf(at));
            && detail.Some?
            && (FindOverride(cat.events, r.id, DayOf(at)).None? ==>
                  (loc in detail.value.locations <==> !ExcludedByAny(cat, DayOf(at), loc)))
  {
    DetailAcceptsCalendarDays(cat, r, DayOf(at));
    SameRule(cat, FindRule(cat.rules, r.id).value, r);
    DayOfCompose(r, DayOf(at));
    DetailExclusions(cat, DayOf(at), loc);
  }
}
