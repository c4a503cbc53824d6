/** Weekly rules expanded over a window: the loop over time, overrides, exclusions, standalone
    events, and the declarative set of occurrences the listing equals. */
module Recurrence {
  import opened Domain
  import opened Seqs

  datatype RuleLocation = RuleLocation(location: LocationId, active: bool)

  /** `time` is the time of day in milliseconds; both dates are calendar days. */
  datatype Rule = Rule(id: RuleId, kind: EventType, active: bool, weekday: nat, time: int, minutes: int, eligible: bool,
                       startsFrom: Day, endsAt: Option<Day>, locations: seq<RuleLocation>)

  /** A stored event; with both `rule` and `overrides` it replaces one occurrence of that rule.
      `sync` are its own active starting points (none without a sync rule). */
  datatype EventRow = EventRow(id: EventId, kind: EventType, published: bool, startsAt: Instant, endsAt: Instant,
                               rule: Option<RuleId>, overrides: Option<Day>, excludes: seq<LocationId>,
                               sync: seq<LocationId>)

  datatype Catalog = Catalog(rules: seq<Rule>, events: seq<EventRow>)

  /** Public ids: `rule:<rule>:<day>` for any rule occurrence, the event's own id otherwise. */
  datatype OccurrenceId = RuleOccurrence(rule: RuleId, day: Day) | Standalone(event: EventId)

  datatype Occurrence = Occurrence(id: OccurrenceId, fromRule: bool, kind: EventType, startsAt: Instant,
                                   endsAt: Instant, locations: seq<LocationId>)

  const WEEK_MS: int := 7 * DAY_MS

  ghost predicate RuleFormed(r: Rule) { r.weekday < 7 && 0 <= r.time < DAY_MS }

  ghost predicate IsOverride(e: EventRow) { e.rule.Some? && e.overrides.Some? }

  /** At most one override row per (rule, day). */
  ghost predicate OneOverride(events: seq<EventRow>) {
    forall d, e | d in events && e in events && IsOverride(d) && IsOverride(e) ::
      d.rule == e.rule && d.overrides == e.overrides ==> d == e
  }

  /** Primary keys, the unique (rule, day) of overrides, and the checked ranges of rule fields. */
  ghost predicate Formed(cat: Catalog) {
    && Distinct(cat.rules, (r: Rule) => r.id)
    && Distinct(cat.events, (e: EventRow) => e.id)
    && (forall r :: r in cat.rules ==> RuleFormed(r))
    && OneOverride(cat.events)
  }

  // ---------------------------------------------------------------- calendar arithmetic

  /** The rule's occurrence on a day. */
  function ComposeOccurrence(r: Rule, d: Day): Instant { Midnight(d) + r.time }

  ghost predicate Match(r: Rule, t: Instant) {
    Weekday(DayOf(t)) == r.weekday && t == ComposeOccurrence(r, DayOf(t))
  }

  lemma DayOfCompose(r: Rule, d: Day)
    requires RuleFormed(r)
    ensures DayOf(ComposeOccurrence(r, d)) == d
  {}

  lemma DayLater(t: Instant, n: int)
    ensures DayOf(t + n * DAY_MS) == DayOf(t) + n
  {}

  lemma WeekdayApart(d: Day, e: Day)
    requires Weekday(d) == Weekday(e) && d < e
    ensures d + 7 <= e
  {}

  /** Matching instants are whole weeks apart. */
  lemma NextMatch(r: Rule, t: Instant, u: Instant)
    requires RuleFormed(r) && Match(r, t)
    ensures Match(r, t + WEEK_MS)
    ensures Match(r, u) && t <= u < t + WEEK_MS ==> u == t
  {
    DayLater(t, 7);
    if Match(r, u) && t < u {
      assert DayOf(t) <= DayOf(u);
      if DayOf(t) < DayOf(u) {
        WeekdayApart(DayOf(t), DayOf(u));
      }
    }
  }

  lemma NextWeekday(d: Day)
    ensures Weekday(d + 1) == if Weekday(d) == 6 then 0 else Weekday(d) + 1
  {}

  /** Seven days in a row always hold the wanted weekday. */
  lemma WeekdaySoon(d: Day, weekday: nat)
    requires weekday < 7
    ensures exists e :: d <= e < d + 7 && Weekday(e) == weekday
  {
    NextWeekday(d);
    NextWeekday(d + 1);
    NextWeekday(d + 2);
    NextWeekday(d + 3);
    NextWeekday(d + 4);
    NextWeekday(d + 5);
  }

  /** No match lies on the days rolled over. */
  lemma EarliestDay(r: Rule, first: Day, day: Day, t: Instant)
    requires RuleFormed(r) && Match(r, t) && first <= day && first <= DayOf(t)
    requires forall d :: first <= d < day ==> Weekday(d) != r.weekday
    ensures ComposeOccurrence(r, day) <= t
  {
    assert DayOf(t) >= day;
  }

  /** Rolls at most six days forward to the rule's weekday, then sets its time of day; an
      occurrence already past on the first day moves a week. */
  method FirstOccurrenceOnOrAfter(r: Rule, from: Instant) returns (date: Instant, ghost rolls: nat)
    requires RuleFormed(r)
    ensures Match(r, date) && date >= from && date >= Midnight(r.startsFrom)
    ensures forall t :: Match(r, t) && t >= from && t >= Midnight(r.startsFrom) ==> date <= t
    ensures rolls <= 6
  {
    var base := if Midnight(r.startsFrom) > from then Midnight(r.startsFrom) else from;
    date := base;
    rolls := 0;
    while Weekday(DayOf(date)) != r.weekday
      invariant 0 <= rolls <= 6
      invariant date == base + rolls * DAY_MS && DayOf(date) == DayOf(base) + rolls
      invariant forall d :: DayOf(base) <= d < DayOf(date) ==> Weekday(d) != r.weekday
      decreases 6 - rolls
    {
      WeekdaySoon(DayOf(base), r.weekday);
      DayLater(date, 1);
      date := date + DAY_MS;
      rolls := rolls + 1;
    }
    var day := DayOf(date);
    date := ComposeOccurrence(r, day);
    DayOfCompose(r, day);
    assert Match(r, date);
    ghost var sameWeek := date;
    if date < from {
      date := date + WEEK_MS;
    }
    NextMatch(r, sameWeek, sameWeek);
    forall t | Match(r, t) && t >= from && t >= Midnight(r.startsFrom) ensures date <= t {
      EarliestDay(r, DayOf(base), day, t);
      NextMatch(r, sameWeek, t);
    }
  }

  // ---------------------------------------------------------------- what a listing contains

  predicate InWindow(t: Instant, from: Instant, to: Instant) { from <= t <= to }

  /** A published event whose own start lies in the window. */
  predicate Visible(e: EventRow, from: Instant, to: Instant) { e.published && InWindow(e.startsAt, from, to) }

  predicate RuleInReach(r: Rule, from: Instant, to: Instant) {
    r.active && Midnight(r.startsFrom) <= to && (r.endsAt.None? || Midnight(r.endsAt.value) >= from)
  }

  function RuleEnd(r: Rule, to: Instant): Instant {
    if r.endsAt.Some? && Midnight(r.endsAt.value) < to then Midnight(r.endsAt.value) + DAY_MS - 1 else to
  }

  /** The instants at which the listing visits a rule. */
  ghost predicate InScope(r: Rule, from: Instant, to: Instant, t: Instant) {
    RuleInReach(r, from, to) && Match(r, t) && from <= t && Midnight(r.startsFrom) <= t <= RuleEnd(r, to)
  }

  predicate Overrides(e: EventRow, rule: RuleId, d: Day) { e.rule == Some(rule) && e.overrides == Some(d) }

  predicate Excludes(e: EventRow, d: Day, loc: LocationId) { DayOf(e.startsAt) == d && loc in e.excludes }

  /** Locations pulled away from regular occurrences of `d` by some of `events`. */
  ghost predicate Excluded(events: seq<EventRow>, d: Day, loc: LocationId) {
    exists e :: e in events && Excludes(e, d, loc)
  }

  function VisibleIn(ls: seq<RuleLocation>, excluded: set<LocationId>): (locs: seq<LocationId>)
    ensures forall l :: l in locs <==> RuleLocation(l, true) in ls && l !in excluded
  {
    if |ls| == 0 then []
    else
      var last := ls[|ls| - 1];
      VisibleIn(ls[..|ls| - 1], excluded) + (if last.active && last.location !in excluded then [last.location] else [])
  }

  /** A rule's active starting points that are not among `excluded`, in stored order. */
  function VisibleLocations(r: Rule, excluded: set<LocationId>): (locs: seq<LocationId>)
    ensures forall l :: l in locs <==> RuleLocation(l, true) in r.locations && l !in excluded
  {
    VisibleIn(r.locations, excluded)
  }

  /** The locations excluded on `d`, as a set. */
  function ExcludedOn(events: seq<EventRow>, d: Day): (r: set<LocationId>)
    ensures forall l :: l in r <==> Excluded(events, d, l)
  {
    set e, l | e in events && DayOf(e.startsAt) == d && l in e.excludes :: l
  }

  function FromRule(r: Rule, t: Instant, excluded: set<LocationId>): Occurrence {
    var end := t + r.minutes * MINUTE_MS;
    Occurrence(RuleOccurrence(r.id, DayOf(t)), true, r.kind, t, end, VisibleLocations(r, excluded))
  }

  /** An event's own locations when it has any, else those of the rule it belongs to. */
  function FromEvent(e: EventRow, r: Option<Rule>): Occurrence {
    var inherited := if r.Some? then VisibleLocations(r.value, {}) else [];
    Occurrence(Standalone(e.id), false, e.kind, e.startsAt, e.endsAt, if |e.sync| > 0 then e.sync else inherited)
  }

  function Shown(events: seq<EventRow>, from: Instant, to: Instant): seq<EventRow> {
    Filter(events, (e: EventRow) => Visible(e, from, to))
  }

  /** The listing's entry for a rule at a visited instant: the visible override of that day under the
      rule's public id, else the rule's own occurrence unless every location was pulled away. */
  ghost predicate Entry(cat: Catalog, from: Instant, to: Instant, r: Rule, t: Instant, o: Occurrence) {
    var d := DayOf(t);
    if exists e :: e in cat.events && Visible(e, from, to) && Overrides(e, r.id, d)
    then exists e :: e in cat.events && Visible(e, from, to) && Overrides(e, r.id, d)
                     && o == FromEvent(e, Some(r)).(id := RuleOccurrence(r.id, d))
    else
      var own := FromRule(r, t, ExcludedOn(Shown(cat.events, from, to), d));
      o == own && |own.locations| > 0
  }

  ghost predicate FromSomeRule(cat: Catalog, from: Instant, to: Instant, o: Occurrence) {
    exists r, t :: r in cat.rules && InScope(r, from, to, t) && Entry(cat, from, to, r, t, o)
  }

  ghost predicate FromStandalone(cat: Catalog, from: Instant, to: Instant, o: Occurrence) {
    exists e :: e in cat.events && Visible(e, from, to) && !IsOverride(e) && o == FromEvent(e, None)
  }

  ghost predicate Listed(cat: Catalog, from: Instant, to: Instant, o: Occurrence) {
    FromSomeRule(cat, from, to, o) || FromStandalone(cat, from, to, o)
  }

  /** Time ascending; at the same instant special before partner before regular. */
  predicate Before(a: Occurrence, b: Occurrence) {
    a.startsAt < b.startsAt || (a.startsAt == b.startsAt && TypeRank(a.kind) <= TypeRank(b.kind))
  }

  function Order(): (Occurrence, Occurrence) -> bool { (a: Occurrence, b: Occurrence) => Before(a, b) }

  function OccId(): Occurrence -> OccurrenceId { (o: Occurrence) => o.id }

  // ---------------------------------------------------------------- the listing as code

  /** Splits the shown events into overrides by (rule, day) and standalone events. */
  method SplitEvents(events: seq<EventRow>) returns (overrides: map<(RuleId, Day), EventRow>,
                     standalones: seq<EventRow>)
    requires Distinct(events, (e: EventRow) => e.id)
    requires OneOverride(events)
    ensures forall k :: k in overrides ==> overrides[k] in events && Overrides(overrides[k], k.0, k.1)
    ensures forall e :: e in events && IsOverride(e) ==>
              (e.rule.value, e.overrides.value) in overrides && overrides[(e.rule.value, e.overrides.value)] == e
    ensures forall e :: e in standalones <==> e in events && !IsOverride(e)
    ensures Distinct(standalones, (e: EventRow) => e.id)
  {
    overrides, standalones := map[], [];
    for i := 0 to |events|
      invariant forall k :: k in overrides ==> overrides[k] in events[..i] && Overrides(overrides[k], k.0, k.1)
      invariant forall e :: e in events[..i] && IsOverride(e) ==>
                  (e.rule.value, e.overrides.value) in overrides && overrides[(e.rule.value, e.overrides.value)] == e
      invariant forall e :: e in standalones <==> e in events[..i] && !IsOverride(e)
      invariant Distinct(standalones, (e: EventRow) => e.id)
    {
      var e := events[i];
      assert events[..i + 1] == events[..i] + [e];
      if e.rule.Some? && e.overrides.Some? {
        overrides := overrides[(e.rule.value, e.overrides.value) := e];
      } else {
        standalones := standalones + [e];
      }
    }
    assert events[..|events|] == events;
  }

  lemma AddExclusions(events: seq<EventRow>, e: EventRow, d: Day)
    ensures ExcludedOn(events + [e], d) ==
            ExcludedOn(events, d) + (if DayOf(e.startsAt) == d then (set l | l in e.excludes) else {})
  {
    var both := ExcludedOn(events + [e], d);
    forall l ensures l in both <==> l in ExcludedOn(events, d) || (DayOf(e.startsAt) == d && l in e.excludes) {
      if l in ExcludedOn(events, d) {
        var x :| x in events && Excludes(x, d, l);
        assert x in events + [e] && Excludes(x, d, l);
      }
      if DayOf(e.startsAt) == d && l in e.excludes {
        assert e in events + [e] && Excludes(e, d, l);
      }
    }
  }

  /** Unions, day by day, the locations the shown events exclude. */
  method IndexExclusions(events: seq<EventRow>) returns (excluded: map<Day, set<LocationId>>)
    ensures forall d :: (if d in excluded then excluded[d] else {}) == ExcludedOn(events, d)
  {
    excluded := map[];
    for i := 0 to |events|
      invariant forall d :: (if d in excluded then excluded[d] else {}) == ExcludedOn(events[..i], d)
    {
      var e := events[i];
      var d := DayOf(e.startsAt);
      assert events[..i + 1] == events[..i] + [e];
      ghost var before := excluded;
      if |e.excludes| > 0 {
        var known := if d in excluded then excluded[d] else {};
        excluded := excluded[d := known + (set l | l in e.excludes)];
      }
      forall c ensures (if c in excluded then excluded[c] else {}) == ExcludedOn(events[..i + 1], c) {
        assert (if c in before then before[c] else {}) == ExcludedOn(events[..i], c);
        AddExclusions(events[..i], e, c);
      }
    }
    assert events[..|events|] == events;
  }

  /** The override index answers as the declarative lookup does. */
  ghost predicate IndexesOverrides(cat: Catalog, from: Instant, to: Instant, overrides: map<(RuleId, Day), EventRow>) {
    && (forall k :: k in overrides ==>
          overrides[k] in cat.events && Visible(overrides[k], from, to) && Overrides(overrides[k], k.0, k.1))
    && (forall e :: e in cat.events && Visible(e, from, to) && IsOverride(e) ==>
          (e.rule.value, e.overrides.value) in overrides && overrides[(e.rule.value, e.overrides.value)] == e)
  }

  ghost predicate IndexesExclusions(cat: Catalog, from: Instant, to: Instant, excluded: map<Day, set<LocationId>>) {
    forall d :: (if d in excluded then excluded[d] else {}) == ExcludedOn(Shown(cat.events, from, to), d)
  }

  /** Entries of `r` at visited instants before `end`. */
  ghost predicate EntryBefore(cat: Catalog, from: Instant, to: Instant, r: Rule, end: Instant, o: Occurrence) {
    exists t :: InScope(r, from, to, t) && t < end && Entry(cat, from, to, r, t, o)
  }

  /** One visit: at most one entry is pushed, and it is the listing's entry. */
  method Visit(ghost cat: Catalog, ghost from: Instant, ghost to: Instant, r: Rule, cursor: Instant,
               overrides: map<(RuleId, Day), EventRow>, excluded: map<Day, set<LocationId>>)
    returns (entry: Option<Occurrence>)
    requires IndexesOverrides(cat, from, to, overrides) && IndexesExclusions(cat, from, to, excluded)
    ensures forall o :: Entry(cat, from, to, r, cursor, o) <==> entry == Some(o)
    ensures entry.Some? ==> entry.value.id == RuleOccurrence(r.id, DayOf(cursor))
  {
    var d := DayOf(cursor);
    if (r.id, d) in overrides {
      var e := overrides[(r.id, d)];
      entry := Some(FromEvent(e, Some(r)).(id := RuleOccurrence(r.id, d)));
      assert e in cat.events && Visible(e, from, to) && Overrides(e, r.id, d);
      forall x | x in cat.events && Visible(x, from, to) && Overrides(x, r.id, d) ensures x == e {
        assert IsOverride(x);
      }
    } else {
      forall x | x in cat.events && Visible(x, from, to) ensures !Overrides(x, r.id, d) {
        assert IsOverride(x) ==> (x.rule.value, x.overrides.value) in overrides;
      }
      var own := FromRule(r, cursor, if d in excluded then excluded[d] else {});
      entry := if |own.locations| > 0 then Some(own) else None;
    }
  }

  lemma OneMoreWeek(cat: Catalog, from: Instant, to: Instant, r: Rule, cursor: Instant, o: Occurrence)
    requires RuleFormed(r) && InScope(r, from, to, cursor)
    ensures EntryBefore(cat, from, to, r, cursor + WEEK_MS, o) <==>
              EntryBefore(cat, from, to, r, cursor, o) || Entry(cat, from, to, r, cursor, o)
  {
    forall t | InScope(r, from, to, t) && cursor <= t < cursor + WEEK_MS ensures t == cursor {
      NextMatch(r, cursor, t);
    }
  }

  /** Walks one rule through the window a week at a time. */
  method ExpandRule(ghost cat: Catalog, r: Rule, from: Instant, to: Instant,
                    overrides: map<(RuleId, Day), EventRow>, excluded: map<Day, set<LocationId>>)
    returns (out: seq<Occurrence>)
    requires RuleFormed(r) && RuleInReach(r, from, to)
    requires IndexesOverrides(cat, from, to, overrides) && IndexesExclusions(cat, from, to, excluded)
    ensures forall o :: o in out <==> exists t :: InScope(r, from, to, t) && Entry(cat, from, to, r, t, o)
    ensures Distinct(out, OccId())
    ensures forall o :: o in out ==> o.id.RuleOccurrence? && o.id.rule == r.id
  {
    out := [];
    var cursor, _ := FirstOccurrenceOnOrAfter(r, from);
    var ruleEnd := RuleEnd(r, to);
    while cursor <= ruleEnd
      invariant Match(r, cursor) && from <= cursor && Midnight(r.startsFrom) <= cursor
      invariant forall o :: o in out <==> EntryBefore(cat, from, to, r, cursor, o)
      invariant forall o :: o in out ==> o.id.RuleOccurrence? && o.id.rule == r.id && o.id.day < DayOf(cursor)
      invariant Distinct(out, OccId())
      decreases ruleEnd - cursor
    {
      var entry := Visit(cat, from, to, r, cursor, overrides, excluded);
      ghost var before := out;
      if entry.Some? {
        DistinctAppend(out, entry.value, OccId());
        out := out + [entry.value];
      }
      NextMatch(r, cursor, cursor);
      DayLater(cursor, 7);
      forall o ensures o in out <==> EntryBefore(cat, from, to, r, cursor + WEEK_MS, o) {
        OneMoreWeek(cat, from, to, r, cursor, o);
        assert o in out <==> o in before || entry == Some(o);
      }
      cursor := cursor + WEEK_MS;
    }
    forall o ensures o in out <==> exists t :: InScope(r, from, to, t) && Entry(cat, from, to, r, t, o) {
      if t :| InScope(r, from, to, t) && Entry(cat, from, to, r, t, o) {
        assert EntryBefore(cat, from, to, r, cursor, o);
      }
    }
  }

  method ExpandRules(ghost cat: Catalog, rules: seq<Rule>, from: Instant, to: Instant,
                     overrides: map<(RuleId, Day), EventRow>, excluded: map<Day, set<LocationId>>)
    returns (out: seq<Occurrence>)
    requires Distinct(rules, (r: Rule) => r.id)
    requires forall r :: r in rules <==> r in cat.rules && RuleInReach(r, from, to)
    requires forall r :: r in rules ==> RuleFormed(r)
    requires IndexesOverrides(cat, from, to, overrides) && IndexesExclusions(cat, from, to, excluded)
    ensures forall o :: o in out <==> FromSomeRule(cat, from, to, o)
    ensures Distinct(out, OccId())
    ensures forall o :: o in out ==> o.id.RuleOccurrence?
  {
    out := [];
    for i := 0 to |rules|
      invariant forall o :: o in out <==>
                  exists j, t :: 0 <= j < i && InScope(rules[j], from, to, t) && Entry(cat, from, to, rules[j], t, o)
      invariant forall o :: o in out ==> o.id.RuleOccurrence? && exists j :: 0 <= j < i && o.id.rule == rules[j].id
      invariant Distinct(out, OccId())
    {
      var more := ExpandRule(cat, rules[i], from, to, overrides, excluded);
      DistinctConcat(out, more, OccId());
      out := out + more;
    }
    forall o ensures o in out <==> FromSomeRule(cat, from, to, o) {
      if FromSomeRule(cat, from, to, o) {
        var r, t :| r in cat.rules && InScope(r, from, to, t) && Entry(cat, from, to, r, t, o);
        assert r in rules;
        var j :| 0 <= j < |rules| && rules[j] == r;
        assert InScope(rules[j], from, to, t) && Entry(cat, from, to, rules[j], t, o);
      }
    }
  }

  method ListStandalones(standalones: seq<EventRow>) returns (out: seq<Occurrence>)
    requires Distinct(standalones, (e: EventRow) => e.id)
    ensures forall o :: o in out <==> exists e :: e in standalones && o == FromEvent(e, None)
    ensures Distinct(out, OccId())
    ensures forall o :: o in out ==> o.id.Standalone?
  {
    out := [];
    for i := 0 to |standalones|
      invariant |out| == i
      invariant forall j :: 0 <= j < i ==> out[j] == FromEvent(standalones[j], None)
    {
      out := out + [FromEvent(standalones[i], None)];
    }
  }

  lemma OrderIsPreorder()
    ensures Preorder(Order())
  {}

  /** Everything in [from, to]: rule occurrences, then standalone events, sorted. */
  method ListInRange(cat: Catalog, from: Instant, to: Instant) returns (out: seq<Occurrence>)
    requires Formed(cat)
    ensures forall o :: o in out <==> Listed(cat, from, to, o)
    ensures Distinct(out, OccId())
    ensures Sorted(out, Order())
  {
    var rules := Filter(cat.rules, (r: Rule) => RuleInReach(r, from, to));
    FilterDistinct(cat.rules, (r: Rule) => RuleInReach(r, from, to), (r: Rule) => r.id);
    var explicits := Shown(cat.events, from, to);
    FilterDistinct(cat.events, (e: EventRow) => Visible(e, from, to), (e: EventRow) => e.id);
    var overrides, standalones := SplitEvents(explicits);
    var excluded := IndexExclusions(explicits);
    var fromRules := ExpandRules(cat, rules, from, to, overrides, excluded);
    var singles := ListStandalones(standalones);
    DistinctConcat(fromRules, singles, OccId());
    SortDistinct(fromRules + singles, Order(), OccId());
    OrderIsPreorder();
    SortSorts(fromRules + singles, Order());
    out := Sort(fromRules + singles, Order());
    forall o ensures o in singles <==> FromStandalone(cat, from, to, o) {}
  }
}
