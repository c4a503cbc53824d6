/** The listing against a calendar reading of it, and against the detail view of one occurrence. */
module RecurrenceViews {
  import opened Domain
  import opened Seqs
  import opened Recurrence

  /** A day-aligned window: first midnight to last millisecond. */
  function WindowStart(first: Day): Instant { Midnight(first) }

  function WindowEnd(last: Day): Instant { Midnight(last + 1) - 1 }

  /** The rule runs on this day, by calendar alone. */
  ghost predicate RunsOn(r: Rule, d: Day) {
    r.active && Weekday(d) == r.weekday && r.startsFrom <= d && (r.endsAt.None? || d <= r.endsAt.value)
  }

  /** On a day-aligned window the loop visits a rule on exactly its calendar days of the window. */
  lemma AlignedScope(r: Rule, first: Day, last: Day, t: Instant)
    requires RuleFormed(r)
    ensures InScope(r, WindowStart(first), WindowEnd(last), t) <==>
              t == ComposeOccurrence(r, DayOf(t)) && first <= DayOf(t) <= last && RunsOn(r, DayOf(t))
  {
    var d := DayOf(t);
    if t == ComposeOccurrence(r, d) {
      assert t >= Midnight(first) <==> d >= first;
      assert t >= Midnight(r.startsFrom) <==> d >= r.startsFrom;
      assert t <= WindowEnd(last) <==> d <= last;
      if r.endsAt.Some? {
        assert t <= Midnight(r.endsAt.value) + DAY_MS - 1 <==> d <= r.endsAt.value;
      }
    }
  }

  ghost predicate HasVisibleOverride(cat: Catalog, from: Instant, to: Instant, rule: RuleId, d: Day) {
    exists e :: e in cat.events && Visible(e, from, to) && Overrides(e, rule, d)
  }

  /** Some published event of that day excludes the location, whatever the window. */
  ghost predicate ExcludedByAny(cat: Catalog, d: Day, loc: LocationId) {
    exists e :: e in cat.events && e.published && Excludes(e, d, loc)
  }

  ghost predicate HasOpenLocation(cat: Catalog, r: Rule, d: Day) {
    exists l :: RuleLocation(l, true) in r.locations && !ExcludedByAny(cat, d, l)
  }

  /** A day-aligned window holding `d` sees all of that day's exclusions. */
  lemma AlignedExclusions(cat: Catalog, first: Day, last: Day, d: Day, loc: LocationId)
    requires first <= d <= last
    ensures loc in ExcludedOn(Shown(cat.events, WindowStart(first), WindowEnd(last)), d) <==> ExcludedByAny(cat, d, loc)
  {
    var shown := Shown(cat.events, WindowStart(first), WindowEnd(last));
    if ExcludedByAny(cat, d, loc) {
      var e :| e in cat.events && e.published && Excludes(e, d, loc);
      assert e in shown;
      assert Excluded(shown, d, loc);
    }
    if loc in ExcludedOn(shown, d) {
      var e :| e in shown && Excludes(e, d, loc);
      assert ExcludedByAny(cat, d, loc);
    }
  }

  lemma SameRule(cat: Catalog, q: Rule, r: Rule)
    requires Formed(cat) && q in cat.rules && r in cat.rules && q.id == r.id
    ensures q == r
  {
    var i :| 0 <= i < |cat.rules| && cat.rules[i] == q;
    var j :| 0 <= j < |cat.rules| && cat.rules[j] == r;
    var key := (x: Rule) => x.id;
    assert key(cat.rules[i]) == key(cat.rules[j]);
  }

  /** Without a visible override the entry is the rule's own, and has an open location or is dropped. */
  lemma OwnEntry(cat: Catalog, first: Day, last: Day, r: Rule, d: Day)
    requires RuleFormed(r) && first <= d <= last
    ensures var own := FromRule(r, ComposeOccurrence(r, d),
                                ExcludedOn(Shown(cat.events, WindowStart(first), WindowEnd(last)), d));
            && (|own.locations| > 0 <==> HasOpenLocation(cat, r, d))
            && (forall l :: l in own.locations <==> RuleLocation(l, true) in r.locations && !ExcludedByAny(cat, d, l))
  {
    DayOfCompose(r, d);
    var excluded := ExcludedOn(Shown(cat.events, WindowStart(first), WindowEnd(last)), d);
    var own := FromRule(r, ComposeOccurrence(r, d), excluded);
    forall l ensures l in own.locations <==> RuleLocation(l, true) in r.locations && !ExcludedByAny(cat, d, l) {
      AlignedExclusions(cat, first, last, d, l);
    }
    if |own.locations| > 0 {
      assert own.locations[0] in own.locations;
    }
  }

  lemma EntryExists(cat: Catalog, first: Day, last: Day, r: Rule, d: Day)
    requires RuleFormed(r) && first <= d <= last
    ensures var from := WindowStart(first);
            var to := WindowEnd(last);
            (exists o :: Entry(cat, from, to, r, ComposeOccurrence(r, d), o)) <==>
              HasVisibleOverride(cat, from, to, r.id, d) || HasOpenLocation(cat, r, d)
  {
    var from, to := WindowStart(first), WindowEnd(last);
    var t := ComposeOccurrence(r, d);
    DayOfCompose(r, d);
    if HasVisibleOverride(cat, from, to, r.id, d) {
      var e :| e in cat.events && Visible(e, from, to) && Overrides(e, r.id, d);
      assert Entry(cat, from, to, r, t, FromEvent(e, Some(r)).(id := RuleOccurrence(r.id, d)));
    } else {
      OwnEntry(cat, first, last, r, d);
      var own := FromRule(r, t, ExcludedOn(Shown(cat.events, from, to), d));
      if |own.locations| > 0 {
        assert Entry(cat, from, to, r, t, own);
      }
    }
  }

  /** The window expansion is exact: `rule:R:d` is listed if and only if the calendar puts R on d in
      the window and a visible override or an open location is there. (The listing has no
      duplicate ids, so it is listed exactly once.) */
  lemma AlignedWindowIsExact(cat: Catalog, first: Day, last: Day, r: Rule, d: Day)
    requires Formed(cat) && r in cat.rules
    ensures var from := WindowStart(first);
            var to := WindowEnd(last);
            (exists o :: Listed(cat, from, to, o) && o.id == RuleOccurrence(r.id, d)) <==>
              first <= d <= last && RunsOn(r, d)
                && (HasVisibleOverride(cat, from, to, r.id, d) || HasOpenLocation(cat, r, d))
  {
    var from, to := WindowStart(first), WindowEnd(last);
    var t := ComposeOccurrence(r, d);
    DayOfCompose(r, d);
    AlignedScope(r, first, last, t);
    if first <= d <= last {
      EntryExists(cat, first, last, r, d);
    }
    var shown := HasVisibleOverride(cat, from, to, r.id, d) || HasOpenLocation(cat, r, d);
    forall o | Listed(cat, from, to, o) && o.id == RuleOccurrence(r.id, d)
      ensures first <= d <= last && RunsOn(r, d) && shown
    {
      assert FromSomeRule(cat, from, to, o);
      var q, u :| q in cat.rules && InScope(q, from, to, u) && Entry(cat, from, to, q, u, o);
      SameRule(cat, q, r);
      AlignedScope(q, first, last, u);
      assert u == t;
    }
    if first <= d <= last && RunsOn(r, d) && shown {
      var o :| Entry(cat, from, to, r, t, o);
      assert FromSomeRule(cat, from, to, o);
      assert Listed(cat, from, to, o) && o.id == RuleOccurrence(r.id, d);
    }
  }

  // ---------------------------------------------------------------- windows that are not day-aligned

  /** What a caller expects of any window: the calendar occurrence lies in it. */
  ghost predicate Expected(r: Rule, from: Instant, to: Instant, t: Instant) {
    t == ComposeOccurrence(r, DayOf(t)) && RunsOn(r, DayOf(t)) && from <= t <= to
  }

  /** An expected occurrence is missed exactly when it is later on a last day whose midnight the
      window starts after. */
  lemma MissedExactlyAfterLastMidnight(r: Rule, from: Instant, to: Instant, t: Instant)
    requires RuleFormed(r) && Expected(r, from, to, t)
    ensures !InScope(r, from, to, t) <==> r.endsAt.Some? && Midnight(r.endsAt.value) < from
  {
    assert Midnight(DayOf(t)) <= t;
    if r.endsAt.Some? {
      assert DayOf(t) <= r.endsAt.value;
      assert t <= Midnight(r.endsAt.value) + DAY_MS - 1;
    }
  }

  /** A visited instant is unexpected exactly when it lies past `to`, which needs the rule to end on
      the day `to` falls on. */
  lemma OverrunExactlyPastTheEnd(r: Rule, from: Instant, to: Instant, t: Instant)
    requires RuleFormed(r) && InScope(r, from, to, t)
    ensures !Expected(r, from, to, t) <==> to < t
    ensures to < t ==> r.endsAt == Some(DayOf(to)) && DayOf(t) == DayOf(to)
  {
    assert DayOf(t) >= r.startsFrom;
    if r.endsAt.Some? && Midnight(r.endsAt.value) < to {
      assert DayOf(t) <= r.endsAt.value;
    }
    if r.endsAt.Some? && to <= Midnight(r.endsAt.value) {
      assert t <= to ==> DayOf(t) <= r.endsAt.value;
    }
  }

  /** The condition on rule and window: the rule ends on the day `to` falls on, runs that day, and starts
      after `to`, in a window that began before that day. */
  predicate EndsAfterWindow(r: Rule, from: Instant, to: Instant) {
    var d := DayOf(to);
    && r.active && r.endsAt == Some(d) && r.startsFrom <= d && Weekday(d) == r.weekday
    && from <= Midnight(d) < to < ComposeOccurrence(r, d)
  }

  /** The loop visits an instant no reading of the window expects if and only if that condition holds, and
      then the only such instant is the rule's last occurrence. */
  lemma OverrunExactly(r: Rule, from: Instant, to: Instant)
    requires RuleFormed(r)
    ensures (exists t :: InScope(r, from, to, t) && !Expected(r, from, to, t)) <==> EndsAfterWindow(r, from, to)
    ensures forall t :: InScope(r, from, to, t) && !Expected(r, from, to, t) ==> t == ComposeOccurrence(r, DayOf(to))
  {
    forall t | InScope(r, from, to, t) && !Expected(r, from, to, t)
      ensures EndsAfterWindow(r, from, to) && t == ComposeOccurrence(r, DayOf(to))
    {
      OverrunExactlyPastTheEnd(r, from, to, t);
      DayOfCompose(r, DayOf(t));
    }
    if EndsAfterWindow(r, from, to) {
      var t := ComposeOccurrence(r, DayOf(to));
      DayOfCompose(r, DayOf(to));
      assert InScope(r, from, to, t) && !Expected(r, from, to, t);
    }
  }

  /** The rule's last occurrence is missed if and only if the window starts on its last day after midnight and
      not after it, and ends no earlier than it. */
  lemma MissedExactly(r: Rule, from: Instant, to: Instant)
    requires RuleFormed(r)
    ensures (exists t :: Expected(r, from, to, t) && !InScope(r, from, to, t)) <==>
            && r.active && r.endsAt.Some? && r.startsFrom <= r.endsAt.value && Weekday(r.endsAt.value) == r.weekday
            && Midnight(r.endsAt.value) < from <= ComposeOccurrence(r, r.endsAt.value) <= to
  {
    forall t | Expected(r, from, to, t) && !InScope(r, from, to, t)
      ensures r.endsAt.Some? && t == ComposeOccurrence(r, r.endsAt.value) && DayOf(t) == r.endsAt.value
    {
      MissedExactlyAfterLastMidnight(r, from, to, t);
      DayOfCompose(r, DayOf(t));
    }
    if r.endsAt.Some? {
      var t := ComposeOccurrence(r, r.endsAt.value);
      DayOfCompose(r, r.endsAt.value);
      if r.active && r.startsFrom <= r.endsAt.value && Weekday(r.endsAt.value) == r.weekday
         && Midnight(r.endsAt.value) < from <= t <= to {
        MissedExactlyAfterLastMidnight(r, from, to, t);
        assert Expected(r, from, to, t);
      }
    }
  }

  // ---------------------------------------------------------------- the detail view

  datatype Detail = Detail(startsAt: Instant, endsAt: Instant, locations: seq<LocationId>)

  function FindRule(rules: seq<Rule>, id: RuleId): (r: Option<Rule>)
    ensures r.Some? ==> r.value in rules && r.value.id == id
    ensures r.None? ==> forall x :: x in rules ==> x.id != id
  {
    First(rules, (r: Rule) => r.id == id)
  }

  /** Any override row of the occurrence, whatever its status. */
  function FindOverride(events: seq<EventRow>, rule: RuleId, d: Day): (e: Option<EventRow>)
    ensures e.Some? ==> e.value in events && Overrides(e.value, rule, d)
    ensures e.None? ==> forall x :: x in events ==> !Overrides(x, rule, d)
  {
    First(events, (e: EventRow) => Overrides(e, rule, d))
  }

  function PublishedOn(events: seq<EventRow>, d: Day): seq<EventRow> {
    Filter(events, (e: EventRow) => e.published && Midnight(d) <= e.startsAt < Midnight(d) + DAY_MS)
  }

  /** Resolves `rule:<rule>:<day>`; None is the not-found answer. */
  function RuleOccurrenceById(cat: Catalog, rule: RuleId, d: Day): Option<Detail> {
    var found := FindRule(cat.rules, rule);
    if found.None? || !found.value.active then None
    else
      var r := found.value;
      var startsAt := ComposeOccurrence(r, d);
      if Weekday(DayOf(startsAt)) != r.weekday then None
      else if startsAt < Midnight(r.startsFrom) then None
      else if r.endsAt.Some? && DayOf(startsAt) > r.endsAt.value then None
      else
        var override := FindOverride(cat.events, r.id, DayOf(startsAt));
        if override.Some? then Some(Detail(override.value.startsAt, override.value.endsAt, override.value.sync))
        else
          Some(Detail(startsAt, startsAt + r.minutes * MINUTE_MS,
                      VisibleLocations(r, ExcludedOn(PublishedOn(cat.events, d), d))))
  }

  /** The detail view accepts exactly the calendar days of an active rule. */
  lemma DetailAcceptsCalendarDays(cat: Catalog, r: Rule, d: Day)
    requires Formed(cat) && r in cat.rules
    ensures RuleOccurrenceById(cat, r.id, d).Some? <==> RunsOn(r, d)
  {
    SameRule(cat, FindRule(cat.rules, r.id).value, r);
    DayOfCompose(r, d);
    assert ComposeOccurrence(r, d) >= Midnight(r.startsFrom) <==> d >= r.startsFrom;
  }

  lemma DetailExclusions(cat: Catalog, d: Day, loc: LocationId)
    ensures loc in ExcludedOn(PublishedOn(cat.events, d), d) <==> ExcludedByAny(cat, d, loc)
  {
    var shown := PublishedOn(cat.events, d);
    if ExcludedByAny(cat, d, loc) {
      var e :| e in cat.events && e.published && Excludes(e, d, loc);
      assert e in shown;
      assert Excluded(shown, d, loc);
    }
  }

  /** An aligned window and the detail view see the same exclusions. */
  lemma SameExclusions(cat: Catalog, first: Day, last: Day, d: Day)
    requires first <= d <= last
    ensures ExcludedOn(Shown(cat.events, WindowStart(first), WindowEnd(last)), d) ==
            ExcludedOn(PublishedOn(cat.events, d), d)
  {
    var listed := ExcludedOn(Shown(cat.events, WindowStart(first), WindowEnd(last)), d);
    forall l ensures l in listed <==> l in ExcludedOn(PublishedOn(cat.events, d), d) {
      AlignedExclusions(cat, first, last, d, l);
      DetailExclusions(cat, d, l);
    }
  }

  /** A listed rule id comes from that rule's visit on that day. */
  lemma ListedEntry(cat: Catalog, first: Day, last: Day, r: Rule, d: Day, o: Occurrence)
    requires Formed(cat) && r in cat.rules
    requires Listed(cat, WindowStart(first), WindowEnd(last), o) && o.id == RuleOccurrence(r.id, d)
    ensures Entry(cat, WindowStart(first), WindowEnd(last), r, ComposeOccurrence(r, d), o)
    ensures first <= d <= last && RunsOn(r, d)
  {
    var from, to := WindowStart(first), WindowEnd(last);
    assert FromSomeRule(cat, from, to, o);
    var q, u :| q in cat.rules && InScope(q, from, to, u) && Entry(cat, from, to, q, u, o);
    assert o.id == RuleOccurrence(q.id, DayOf(u));
    SameRule(cat, q, r);
    AlignedScope(q, first, last, u);
  }

  lemma ListedIsDetail(cat: Catalog, first: Day, last: Day, r: Rule, d: Day, o: Occurrence)
    requires Formed(cat) && r in cat.rules && FindOverride(cat.events, r.id, d).None?
    requires Listed(cat, WindowStart(first), WindowEnd(last), o) && o.id == RuleOccurrence(r.id, d)
    ensures RuleOccurrenceById(cat, r.id, d) == Some(Detail(o.startsAt, o.endsAt, o.locations))
  {
    ListedEntry(cat, first, last, r, d, o);
    DetailAcceptsCalendarDays(cat, r, d);
    SameRule(cat, FindRule(cat.rules, r.id).value, r);
    DayOfCompose(r, d);
    SameExclusions(cat, first, last, d);
  }

  /** List and detail agree: for an occurrence without an override row the listing shows it exactly
      when the detail view accepts its id with some location left, and then both give the same
      start, end and locations. */
  lemma ListAndDetailAgree(cat: Catalog, first: Day, last: Day, r: Rule, d: Day)
    requires Formed(cat) && r in cat.rules && FindOverride(cat.events, r.id, d).None?
    ensures var from := WindowStart(first);
            var to := WindowEnd(last);
            var detail := RuleOccurrenceById(cat, r.id, d);
            && ((exists o :: Listed(cat, from, to, o) && o.id == RuleOccurrence(r.id, d)) <==>
                  first <= d <= last && detail.Some? && |detail.value.locations| > 0)
            && (forall o :: Listed(cat, from, to, o) && o.id == RuleOccurrence(r.id, d) ==>
                  detail == Some(Detail(o.startsAt, o.endsAt, o.locations)))
  {
    var from, to := WindowStart(first), WindowEnd(last);
    AlignedWindowIsExact(cat, first, last, r, d);
    DetailAcceptsCalendarDays(cat, r, d);
    SameRule(cat, FindRule(cat.rules, r.id).value, r);
    DayOfCompose(r, d);
    forall l ensures l in ExcludedOn(PublishedOn(cat.events, d), d) <==> ExcludedByAny(cat, d, l) {
      DetailExclusions(cat, d, l);
    }
    var seen := VisibleLocations(r, ExcludedOn(PublishedOn(cat.events, d), d));
    assert |seen| > 0 <==> HasOpenLocation(cat, r, d) by {
      if |seen| > 0 {
        assert seen[0] in seen;
      }
    }
    forall o | Listed(cat, from, to, o) && o.id == RuleOccurrence(r.id, d)
      ensures RuleOccurrenceById(cat, r.id, d) == Some(Detail(o.startsAt, o.endsAt, o.locations))
    {
      ListedIsDetail(cat, first, last, r, d, o);
    }
  }

  // ---------------------------------------------------------------- list and detail in any window

  /** An active location of the rule is excluded that day, but only by events the window does not show. */
  ghost predicate HidesExclusion(cat: Catalog, from: Instant, to: Instant, r: Rule, d: Day) {
    exists l :: RuleLocation(l, true) in r.locations && ExcludedByAny(cat, d, l)
                && !Excluded(Shown(cat.events, from, to), d, l)
  }

  ghost predicate ListedAs(cat: Catalog, from: Instant, to: Instant, rule: RuleId, d: Day, o: Occurrence) {
    Listed(cat, from, to, o) && o.id == RuleOccurrence(rule, d)
  }

  lemma {:induction false} SameVisible(ls: seq<RuleLocation>, a: set<LocationId>, b: set<LocationId>)
    requires forall l :: RuleLocation(l, true) in ls ==> (l in a <==> l in b)
    ensures VisibleIn(ls, a) == VisibleIn(ls, b)
  {
    if |ls| > 0 {
      var last := ls[|ls| - 1];
      assert last.active ==> RuleLocation(last.location, true) in ls;
      SameVisible(ls[..|ls| - 1], a, b);
    }
  }

  lemma HiddenExclusions(cat: Catalog, from: Instant, to: Instant, r: Rule, d: Day)
    ensures HidesExclusion(cat, from, to, r, d) <==>
            VisibleLocations(r, ExcludedOn(Shown(cat.events, from, to), d)) !=
            VisibleLocations(r, ExcludedOn(PublishedOn(cat.events, d), d))
  {
    var shown, all := ExcludedOn(Shown(cat.events, from, to), d), ExcludedOn(PublishedOn(cat.events, d), d);
    forall l
      ensures l in all <==> ExcludedByAny(cat, d, l)
      ensures l in shown ==> l in all
    {
      DetailExclusions(cat, d, l);
      if l in shown {
        var e :| e in Shown(cat.events, from, to) && Excludes(e, d, l);
        assert e in cat.events && e.published;
      }
    }
    if HidesExclusion(cat, from, to, r, d) {
      var l :| RuleLocation(l, true) in r.locations && ExcludedByAny(cat, d, l)
               && !Excluded(Shown(cat.events, from, to), d, l);
      assert l in VisibleLocations(r, shown) && l !in VisibleLocations(r, all);
    } else {
      SameVisible(r.locations, shown, all);
    }
  }

  lemma OwnListing(cat: Catalog, from: Instant, to: Instant, r: Rule, d: Day, o: Occurrence)
    requires Formed(cat) && r in cat.rules && FindOverride(cat.events, r.id, d).None?
    ensures var t := ComposeOccurrence(r, d);
            ListedAs(cat, from, to, r.id, d, o) <==>
              && InScope(r, from, to, t) && |o.locations| > 0
              && o == FromRule(r, t, ExcludedOn(Shown(cat.events, from, to), d))
  {
    var t := ComposeOccurrence(r, d);
    DayOfCompose(r, d);
    if ListedAs(cat, from, to, r.id, d, o) {
      assert FromSomeRule(cat, from, to, o);
      var q, u :| q in cat.rules && InScope(q, from, to, u) && Entry(cat, from, to, q, u, o);
      SameRule(cat, q, r);
      assert u == t;
    }
    if InScope(r, from, to, t) && o == FromRule(r, t, ExcludedOn(Shown(cat.events, from, to), d)) && |o.locations| > 0 {
      assert Entry(cat, from, to, r, t, o);
    }
  }

  lemma DetailOfOwn(cat: Catalog, from: Instant, to: Instant, r: Rule, d: Day)
    requires Formed(cat) && r in cat.rules && FindOverride(cat.events, r.id, d).None?
    requires InScope(r, from, to, ComposeOccurrence(r, d))
    ensures var t := ComposeOccurrence(r, d);
            RuleOccurrenceById(cat, r.id, d) ==
            Some(Detail(t, t + r.minutes * MINUTE_MS, VisibleLocations(r, ExcludedOn(PublishedOn(cat.events, d), d))))
  {
    DayOfCompose(r, d);
    SameRule(cat, FindRule(cat.rules, r.id).value, r);
  }

  /** In any window an occurrence without an override row is listed exactly when its instant is visited and some
      active location is not excluded by an event the window shows. */
  lemma AnyWindowIsExact(cat: Catalog, from: Instant, to: Instant, r: Rule, d: Day)
    requires Formed(cat) && r in cat.rules && FindOverride(cat.events, r.id, d).None?
    ensures (exists o :: ListedAs(cat, from, to, r.id, d, o)) <==>
              && InScope(r, from, to, ComposeOccurrence(r, d))
              && exists l :: RuleLocation(l, true) in r.locations && !Excluded(Shown(cat.events, from, to), d, l)
  {
    var own := FromRule(r, ComposeOccurrence(r, d), ExcludedOn(Shown(cat.events, from, to), d));
    OwnListing(cat, from, to, r, d, own);
    if |own.locations| > 0 {
      assert own.locations[0] in own.locations;
    }
    if o :| ListedAs(cat, from, to, r.id, d, o) {
      OwnListing(cat, from, to, r, d, o);
    }
  }

  /** List and detail agree in any window, for an occurrence without an override row: the detail view knows what is
      listed and gives the same times, and the same locations if and only if no exclusion is hidden from the
      window. */
  lemma AnyWindowAgrees(cat: Catalog, from: Instant, to: Instant, r: Rule, d: Day, o: Occurrence)
    requires Formed(cat) && r in cat.rules && FindOverride(cat.events, r.id, d).None?
    requires ListedAs(cat, from, to, r.id, d, o)
    ensures var detail := RuleOccurrenceById(cat, r.id, d);
            && detail.Some? && detail.value.startsAt == o.startsAt && detail.value.endsAt == o.endsAt
            && (detail.value.locations == o.locations <==> !HidesExclusion(cat, from, to, r, d))
  {
    OwnListing(cat, from, to, r, d, o);
    DetailOfOwn(cat, from, to, r, d);
    HiddenExclusions(cat, from, to, r, d);
  }

  // ---------------------------------------------------------------- with an override row

  /** With an override row the two views agree on the times exactly when the row is published with
      its start in the window, or keeps the rule's own times: the detail view shows drafts, the
      listing does not. They agree on the locations too exactly when a visible row has its own or the rule
      has none, and a hidden one has those left of the rule: only the listing falls back on the rule's. */
  lemma OverrideViewsAgree(cat: Catalog, first: Day, last: Day, r: Rule, d: Day, e: EventRow, o: Occurrence)
    requires Formed(cat) && r in cat.rules && e in cat.events && Overrides(e, r.id, d)
    requires Listed(cat, WindowStart(first), WindowEnd(last), o) && o.id == RuleOccurrence(r.id, d)
    ensures var detail := RuleOccurrenceById(cat, r.id, d);
            var t := ComposeOccurrence(r, d);
            && detail.Some?
            && (detail.value.startsAt == o.startsAt && detail.value.endsAt == o.endsAt <==>
                  || Visible(e, WindowStart(first), WindowEnd(last))
                  || (e.startsAt == t && e.endsAt == t + r.minutes * MINUTE_MS))
            && (detail.value == Detail(o.startsAt, o.endsAt, o.locations) <==>
                  if Visible(e, WindowStart(first), WindowEnd(last))
                  then |e.sync| > 0 || VisibleLocations(r, {}) == []
                  else e.startsAt == t && e.endsAt == t + r.minutes * MINUTE_MS
                       && e.sync == VisibleLocations(r, ExcludedOn(PublishedOn(cat.events, d), d)))
  {
    var from, to := WindowStart(first), WindowEnd(last);
    ListedEntry(cat, first, last, r, d, o);
    DetailAcceptsCalendarDays(cat, r, d);
    SameRule(cat, FindRule(cat.rules, r.id).value, r);
    DayOfCompose(r, d);
    var shown := FindOverride(cat.events, r.id, d).value;
    assert IsOverride(shown) && IsOverride(e) && shown == e;
    forall x | x in cat.events && Overrides(x, r.id, d) ensures x == e {
      assert IsOverride(x);
    }
    SameExclusions(cat, first, last, d);
  }
}
