/** What each entry of a listing shows, field by field, and the order the entries come in. */
module ListingEntries {
  import opened Domain
  import opened Seqs
  import opened Recurrence
  import opened RecurrenceViews
  import T = Timeline

  /** A published event of the window that stands in for the rule's occurrence of the day. */
  predicate Replaces(e: EventRow, from: Instant, to: Instant, rule: RuleId, d: Day) {
    e.published && from <= e.startsAt <= to && e.rule == Some(rule) && e.overrides == Some(d)
  }

  lemma SameReplacement(cat: Catalog, from: Instant, to: Instant, rule: RuleId, d: Day, e: EventRow, f: EventRow)
    requires Formed(cat) && e in cat.events && f in cat.events
    requires Replaces(e, from, to, rule, d) && Replaces(f, from, to, rule, d)
    ensures e == f
  {
    assert IsOverride(e) && IsOverride(f);
  }

  lemma EntryOfRule(cat: Catalog, from: Instant, to: Instant, r: Rule, d: Day, o: Occurrence)
    requires Formed(cat) && r in cat.rules && ListedAs(cat, from, to, r.id, d, o)
    ensures InScope(r, from, to, ComposeOccurrence(r, d)) && Entry(cat, from, to, r, ComposeOccurrence(r, d), o)
  {
    assert FromSomeRule(cat, from, to, o);
    var q, u :| q in cat.rules && InScope(q, from, to, u) && Entry(cat, from, to, q, u, o);
    assert o.id == RuleOccurrence(q.id, DayOf(u));
    SameRule(cat, q, r);
  }

  /** A listed rule occurrence nothing stands in for has the type, time and length of its rule, and as locations
      the rule's active ones that no event shown excludes that day. */
  lemma OwnEntryShows(cat: Catalog, from: Instant, to: Instant, r: Rule, d: Day, o: Occurrence)
    requires Formed(cat) && r in cat.rules && ListedAs(cat, from, to, r.id, d, o)
    requires forall e :: e in cat.events ==> !Replaces(e, from, to, r.id, d)
    ensures o.fromRule && o.kind == r.kind
    ensures o.startsAt == d * DAY_MS + r.time && o.endsAt == o.startsAt + r.minutes * 60_000
    ensures |o.locations| > 0
    ensures forall l :: l in o.locations <==>
              && RuleLocation(l, true) in r.locations
              && forall e :: e in cat.events && e.published && from <= e.startsAt <= to && DayOf(e.startsAt) == d ==>
                             l !in e.excludes
  {
    EntryOfRule(cat, from, to, r, d, o);
    DayOfCompose(r, d);
    forall e | e in cat.events && Visible(e, from, to) ensures !Overrides(e, r.id, d) {
      assert !Replaces(e, from, to, r.id, d);
    }
    forall l
      ensures Excluded(Shown(cat.events, from, to), d, l) <==>
              exists e :: e in cat.events && e.published && from <= e.startsAt <= to && DayOf(e.startsAt) == d
                          && l in e.excludes
    {
      if e :| e in cat.events && e.published && from <= e.startsAt <= to && DayOf(e.startsAt) == d && l in e.excludes {
        assert e in Shown(cat.events, from, to) && Excludes(e, d, l);
      }
    }
  }

  /** One an event stands in for has the event's type, times and locations, or the rule's active locations when the
      event has none. */
  lemma ReplacedEntryShows(cat: Catalog, from: Instant, to: Instant, r: Rule, d: Day, e: EventRow, o: Occurrence)
    requires Formed(cat) && r in cat.rules && ListedAs(cat, from, to, r.id, d, o)
    requires e in cat.events && Replaces(e, from, to, r.id, d)
    ensures !o.fromRule && o.kind == e.kind && o.startsAt == e.startsAt && o.endsAt == e.endsAt
    ensures |e.sync| > 0 ==> o.locations == e.sync
    ensures |e.sync| == 0 ==> forall l :: l in o.locations <==> RuleLocation(l, true) in r.locations
  {
    EntryOfRule(cat, from, to, r, d, o);
    DayOfCompose(r, d);
    assert Visible(e, from, to) && Overrides(e, r.id, d);
    var x :| x in cat.events && Visible(x, from, to) && Overrides(x, r.id, d)
             && o == FromEvent(x, Some(r)).(id := RuleOccurrence(r.id, d));
    SameReplacement(cat, from, to, r.id, d, e, x);
  }

  lemma SameRow(cat: Catalog, e: EventRow, f: EventRow)
    requires Formed(cat) && e in cat.events && f in cat.events && e.id == f.id
    ensures e == f
  {
    var key := (x: EventRow) => x.id;
    var i :| 0 <= i < |cat.events| && cat.events[i] == e;
    var j :| 0 <= j < |cat.events| && cat.events[j] == f;
    assert key(cat.events[i]) == key(cat.events[j]);
  }

  /** An event is listed under its own id exactly when it is published, starts in the window and stands in for no
      occurrence; and then with its own type, times and locations. */
  lemma StandaloneExactly(cat: Catalog, from: Instant, to: Instant, e: EventRow)
    requires Formed(cat) && e in cat.events
    ensures (exists o :: Listed(cat, from, to, o) && o.id == Standalone(e.id)) <==>
              e.published && from <= e.startsAt <= to && (e.rule.None? || e.overrides.None?)
    ensures forall o :: Listed(cat, from, to, o) && o.id == Standalone(e.id) ==>
              o == Occurrence(Standalone(e.id), false, e.kind, e.startsAt, e.endsAt, e.sync)
  {
    forall o | Listed(cat, from, to, o) && o.id == Standalone(e.id)
      ensures e.published && from <= e.startsAt <= to && (e.rule.None? || e.overrides.None?)
      ensures o == Occurrence(Standalone(e.id), false, e.kind, e.startsAt, e.endsAt, e.sync)
    {
      assert FromStandalone(cat, from, to, o);
      var x :| x in cat.events && Visible(x, from, to) && !IsOverride(x) && o == FromEvent(x, None);
      SameRow(cat, x, e);
    }
    if e.published && from <= e.startsAt <= to && (e.rule.None? || e.overrides.None?) {
      var o := FromEvent(e, None);
      assert Visible(e, from, to) && !IsOverride(e);
      assert FromStandalone(cat, from, to, o);
    }
  }

  /** A rule's day with a stand-in is listed exactly when its instant is visited. */
  lemma ReplacedExactly(cat: Catalog, from: Instant, to: Instant, r: Rule, d: Day, e: EventRow)
    requires Formed(cat) && r in cat.rules && e in cat.events && Replaces(e, from, to, r.id, d)
    ensures (exists o :: ListedAs(cat, from, to, r.id, d, o)) <==> InScope(r, from, to, ComposeOccurrence(r, d))
  {
    DayOfCompose(r, d);
    if o :| ListedAs(cat, from, to, r.id, d, o) {
      EntryOfRule(cat, from, to, r, d, o);
    }
    if InScope(r, from, to, ComposeOccurrence(r, d)) {
      var o := FromEvent(e, Some(r)).(id := RuleOccurrence(r.id, d));
      assert Visible(e, from, to) && Overrides(e, r.id, d);
      assert Entry(cat, from, to, r, ComposeOccurrence(r, d), o);
      assert FromSomeRule(cat, from, to, o) && ListedAs(cat, from, to, r.id, d, o);
    }
  }

  /** Entries come by start; those of one instant the special ones first, then the partners', then the regular. */
  lemma ListedInOrder(cat: Catalog, from: Instant, to: Instant, occs: seq<Occurrence>, i: nat, j: nat)
    requires T.IsListing(cat, from, to, occs) && i < j < |occs|
    ensures occs[i].startsAt <= occs[j].startsAt
    ensures occs[i].startsAt == occs[j].startsAt && occs[j].kind == Special ==> occs[i].kind == Special
    ensures occs[i].startsAt == occs[j].startsAt && occs[i].kind == Regular ==> occs[j].kind == Regular
  {
    assert Order()(occs[i], occs[j]);
  }

  // ---------------------------------------------------------------- a special rule and a partner's event at once

  const NOON: Instant := 12 * 60 * MINUTE_MS

  /** Day 0 is a Thursday. */
  function SpecialAtNoon(): Rule { Rule(0, Special, true, 4, NOON, 60, true, 0, Some(0), [RuleLocation(0, true)]) }

  function PartnerAtNoon(): EventRow { EventRow(1, Partner, true, NOON, NOON + 1, None, None, [], []) }

  function AtNoon(): Catalog { Catalog([SpecialAtNoon()], [PartnerAtNoon()]) }

  lemma SpecialListed(cat: Catalog, o: Occurrence)
    requires cat == AtNoon() && Formed(cat)
    ensures ListedAs(cat, 0, DAY_MS - 1, 0, 0, o) <==>
            o == Occurrence(RuleOccurrence(0, 0), true, Special, NOON, NOON + 60 * 60_000, [0])
  {
    var r := SpecialAtNoon();
    OwnListing(cat, 0, DAY_MS - 1, r, 0, o);
    assert ExcludedOn(Shown(cat.events, 0, DAY_MS - 1), 0) == {};
    assert VisibleLocations(r, {}) == [0];
    assert InScope(r, 0, DAY_MS - 1, NOON);
  }

  lemma NothingElseListed(cat: Catalog, o: Occurrence)
    requires cat == AtNoon() && Formed(cat) && Listed(cat, 0, DAY_MS - 1, o)
    ensures o.id == RuleOccurrence(0, 0) || o.id == Standalone(1)
  {
    if FromSomeRule(cat, 0, DAY_MS - 1, o) {
      var r, t :| r in cat.rules && InScope(r, 0, DAY_MS - 1, t) && Entry(cat, 0, DAY_MS - 1, r, t, o);
      assert r == SpecialAtNoon() && DayOf(t) == 0;
    } else {
      var e :| e in cat.events && !IsOverride(e) && o == FromEvent(e, None);
      assert e == PartnerAtNoon();
    }
  }

  lemma PartnerListed(cat: Catalog)
    requires cat == AtNoon() && Formed(cat)
    ensures exists o :: Listed(cat, 0, DAY_MS - 1, o) && o.id == Standalone(1)
    ensures forall o :: Listed(cat, 0, DAY_MS - 1, o) && o.id == Standalone(1) ==>
              o.kind == Partner && o.startsAt == NOON
  {
    assert cat.events[0] == PartnerAtNoon() && PartnerAtNoon() in cat.events;
    StandaloneExactly(cat, 0, DAY_MS - 1, PartnerAtNoon());
  }

  lemma NoonIsFormed()
    ensures Formed(AtNoon())
  {}

  lemma AtEither(cat: Catalog, occs: seq<Occurrence>, i: nat, j: nat, k: nat)
    requires cat == AtNoon() && Formed(cat) && T.IsListing(cat, 0, DAY_MS - 1, occs)
    requires i < |occs| && j < |occs| && occs[i].id == RuleOccurrence(0, 0) && occs[j].id == Standalone(1)
    requires k < |occs|
    ensures k == i || k == j
  {
    assert occs[k] in occs;
    NothingElseListed(cat, occs[k]);
    assert OccId()(occs[k]) == OccId()(occs[i]) || OccId()(occs[k]) == OccId()(occs[j]);
  }

  lemma OnlyTwo(cat: Catalog, occs: seq<Occurrence>, i: nat, j: nat)
    requires cat == AtNoon() && Formed(cat) && T.IsListing(cat, 0, DAY_MS - 1, occs)
    requires i < |occs| && j < |occs| && occs[i].id == RuleOccurrence(0, 0) && occs[j].id == Standalone(1)
    ensures |occs| == 2 && i != j
  {
    AtEither(cat, occs, i, j, 0);
    if |occs| > 1 {
      AtEither(cat, occs, i, j, 1);
    }
    if |occs| > 2 {
      AtEither(cat, occs, i, j, 2);
    }
  }

  /** Both are listed, the special run before the partner's event. */
  lemma SpecialComesFirst(occs: seq<Occurrence>)
    requires T.IsListing(AtNoon(), 0, DAY_MS - 1, occs)
    ensures Formed(AtNoon()) && |occs| == 2
    ensures occs[0] == Occurrence(RuleOccurrence(0, 0), true, Special, NOON, NOON + 60 * 60_000, [0])
    ensures occs[1].id == Standalone(1) && occs[1].kind == Partner && occs[1].startsAt == NOON
  {
    var cat := AtNoon();
    NoonIsFormed();
    var special := Occurrence(RuleOccurrence(0, 0), true, Special, NOON, NOON + 60 * 60_000, [0]);
    SpecialListed(cat, special);
    assert special in occs;
    PartnerListed(cat);
    var partner :| Listed(cat, 0, DAY_MS - 1, partner) && partner.id == Standalone(1);
    assert partner in occs;
    var i :| 0 <= i < |occs| && occs[i] == special;
    var j :| 0 <= j < |occs| && occs[j] == partner;
    OnlyTwo(cat, occs, i, j);
    if j < i {
      ListedInOrder(cat, 0, DAY_MS - 1, occs, j, i);
    }
  }
}
