/** What a call for an occurrence's event row answers, spelled out, and the row it makes. */
module MaterializeAnswers {
  import opened Domain
  import opened Seqs
  import opened Recurrence
  import opened RecurrenceViews
  import opened Materialize

  /** A stored event stands in for the rule's day, whether it is published or not. */
  ghost predicate HasRow(cat: Catalog, rule: RuleId, d: Day) {
    exists e :: e in cat.events && e.rule == Some(rule) && e.overrides == Some(d)
  }

  /** The location is an active one of the rule, and no published event that starts that day excludes it. */
  ghost predicate Left(cat: Catalog, r: Rule, d: Day, l: LocationId) {
    && RuleLocation(l, true) in r.locations
    && forall e :: e in cat.events && e.published && DayOf(e.startsAt) == d ==> l !in e.excludes
  }

  lemma OpenIsLeft(cat: Catalog, r: Rule, d: Day)
    ensures forall l :: l in OpenLocations(cat, r, d) <==> Left(cat, r, d, l)
    ensures |OpenLocations(cat, r, d)| > 0 <==> exists l :: Left(cat, r, d, l)
  {
    OpenLocationsAre(cat, r, d);
    forall l
      ensures ExcludedByAny(cat, d, l) <==>
              exists e :: e in cat.events && e.published && DayOf(e.startsAt) == d && l in e.excludes
    {
      if e :| e in cat.events && e.published && DayOf(e.startsAt) == d && l in e.excludes {
        assert Excludes(e, d, l);
      }
    }
    var open := OpenLocations(cat, r, d);
    if |open| > 0 {
      assert open[0] in open;
    }
  }

  /** A day that has its row gets it back unchanged. */
  lemma ExistingIsReturned(db: Db, rule: RuleId, d: Day, newId: EventId, e: EventRow)
    requires OneOverride(db.cat.events) && e in db.cat.events && e.rule == Some(rule) && e.overrides == Some(d)
    ensures Ensure(db, rule, d, newId) == (db, Ok(e))
  {
    assert Overrides(e, rule, d);
    var found := FindOverride(db.cat.events, rule, d).value;
    assert IsOverride(found) && IsOverride(e);
  }

  lemma NoActiveRule(cat: Catalog, rule: RuleId)
    requires Formed(cat)
    ensures FindRule(cat.rules, rule).None? || !FindRule(cat.rules, rule).value.active <==>
            forall r :: r in cat.rules && r.id == rule ==> !r.active
  {
    forall r | r in cat.rules && r.id == rule ensures FindRule(cat.rules, rule) == Some(r) {
      SameRule(cat, FindRule(cat.rules, rule).value, r);
    }
  }

  /** Without a row: refused for a rule that is missing or not active, and then nothing else is looked at. */
  lemma UnknownRuleIsRefused(db: Db, rule: RuleId, d: Day, newId: EventId)
    requires Formed(db.cat) && !HasRow(db.cat, rule, d)
    ensures Ensure(db, rule, d, newId).1 == Err(RuleNotFound) <==>
            forall r :: r in db.cat.rules && r.id == rule ==> !r.active
    ensures Ensure(db, rule, d, newId).1.Err? ==> Ensure(db, rule, d, newId).0 == db
  {
    NoActiveRule(db.cat, rule);
    assert FindOverride(db.cat.events, rule, d).None? by {
      var found := FindOverride(db.cat.events, rule, d);
      assert found.Some? ==> Overrides(found.value, rule, d);
    }
  }

  /** For an active rule: refused on a day that is not of its weekday, then when no location is left, then when the
      slug is taken; otherwise the row is made. */
  lemma RefusedExactly(db: Db, r: Rule, d: Day, newId: EventId)
    requires Formed(db.cat) && r in db.cat.rules && r.active && !HasRow(db.cat, r.id, d)
    ensures var made := Ensure(db, r.id, d, newId).1;
            var left := exists l :: Left(db.cat, r, d, l);
            && (made == Err(OccurrenceInvalid) <==> Weekday(d) != r.weekday)
            && (made == Err(FullyExcluded) <==> Weekday(d) == r.weekday && !left)
            && (made == Err(Conflict) <==> Weekday(d) == r.weekday && left && SlugOf(r.id, d) in db.slugs)
            && (made.Ok? <==> Weekday(d) == r.weekday && left && SlugOf(r.id, d) !in db.slugs)
  {
    SameRule(db.cat, FindRule(db.cat.rules, r.id).value, r);
    DayOfCompose(r, d);
    OpenIsLeft(db.cat, r, d);
    assert FindOverride(db.cat.events, r.id, d).None? by {
      var found := FindOverride(db.cat.events, r.id, d);
      assert found.Some? ==> Overrides(found.value, r.id, d);
    }
  }

  /** The row made is published, of the rule's type, at its time on that day, stands in for it, excludes nothing and
      has the locations left; nothing else in the catalog changes. */
  lemma MadeRow(db: Db, r: Rule, d: Day, newId: EventId)
    requires Formed(db.cat) && r in db.cat.rules && r.active && !HasRow(db.cat, r.id, d)
    requires Ensure(db, r.id, d, newId).1.Ok?
    ensures var (after, made) := Ensure(db, r.id, d, newId);
            var row := made.value;
            && after.cat == db.cat.(events := db.cat.events + [row])
            && after.slugs == db.slugs + {SlugOf(r.id, d)}
            && row.id == newId && row.kind == r.kind && row.published
            && row.startsAt == d * DAY_MS + r.time && row.endsAt == row.startsAt + r.minutes * 60_000
            && row.rule == Some(r.id) && row.overrides == Some(d) && row.excludes == []
            && forall l :: l in row.sync <==> Left(db.cat, r, d, l)
  {
    SameRule(db.cat, FindRule(db.cat.rules, r.id).value, r);
    DayOfCompose(r, d);
    OpenIsLeft(db.cat, r, d);
    assert FindOverride(db.cat.events, r.id, d).None? by {
      var found := FindOverride(db.cat.events, r.id, d);
      assert found.Some? ==> Overrides(found.value, r.id, d);
    }
  }

  /** Slugs clash exactly for one day and ids that share their first eight digits. */
  lemma SlugsClashExactly(rule: RuleId, other: RuleId, d: Day, e: Day)
    ensures SlugOf(rule, d) == SlugOf(other, e) <==> d == e && rule / TWO_POW_96 == other / TWO_POW_96
  {}

  lemma {:induction false} FirstAppended(events: seq<EventRow>, row: EventRow, f: EventRow -> bool)
    requires !f(row)
    ensures First(events + [row], f) == First(events, f)
    decreases |events|
  {
    if |events| > 0 {
      assert (events + [row])[1..] == events[1..] + [row];
      FirstAppended(events[1..], row, f);
    }
  }

  /** Making one day's row changes nothing for the rule's other days: each can be made after it exactly when it
      could before. */
  lemma OtherDaysAreFree(db: Db, rule: RuleId, d: Day, e: Day, id1: EventId, id2: EventId)
    requires d != e && Ensure(db, rule, d, id1).0 != db
    ensures Ensure(Ensure(db, rule, d, id1).0, rule, e, id2).1 == Ensure(db, rule, e, id2).1
  {
    var after, row := Ensure(db, rule, d, id1).0, Ensure(db, rule, d, id1).1.value;
    assert after.cat == db.cat.(events := db.cat.events + [row]) && after.slugs == db.slugs + {SlugOf(rule, d)};
    FirstAppended(db.cat.events, row, (x: EventRow) => Overrides(x, rule, e));
    assert FindOverride(after.cat.events, rule, e) == FindOverride(db.cat.events, rule, e);
    assert UsableRule(after.cat, rule, e) == UsableRule(db.cat, rule, e);
    if UsableRule(db.cat, rule, e).Ok? {
      SameOpenLocations(db.cat, row, UsableRule(db.cat, rule, e).value, e);
    }
  }

  // ---------------------------------------------------------------- the whole call is a run of its steps

  function Answered(rule: RuleId, d: Day, made: Result<EventRow, Error>): Call {
    if made.Ok? then Returned(rule, d, made.value.id) else Refused(rule, d, made.error)
  }

  function Steps(s: State, newId: EventId): State {
    var read := Apply(Apply(Apply(s, Lookup(0)), ReadRule(0)), ReadExclusions(0));
    Apply(Apply(read, Insert(0, newId)), Reread(0))
  }

  lemma ReadToEnd(db: Db, rule: RuleId, d: Day, r: Rule, newId: EventId)
    requires newId !in EventIds(db.cat.events) && FindOverride(db.cat.events, rule, d).None?
    requires UsableRule(db.cat, rule, d) == Ok(r)
    ensures var (after, made) := Ensure(db, rule, d, newId);
            var read := Apply(State(db, map[0 := RuleRead(rule, d, r, 0)], 0), ReadExclusions(0));
            Apply(Apply(read, Insert(0, newId)), Reread(0)) == State(after, map[0 := Answered(rule, d, made)], 0)
  {
    var s := State(db, map[0 := RuleRead(rule, d, r, 0)], 0);
    var locations := OpenLocations(db.cat, r, d);
    var read := Apply(s, ReadExclusions(0));
    if |locations| > 0 {
      assert read == s.(calls := map[0 := Ready(rule, d, r, locations, 0)]);
      var inserted := Apply(read, Insert(0, newId));
      if InsertRow(db, NewRow(newId, r, d, locations), rule, d).Some? {
        assert inserted.calls == map[0 := Returned(rule, d, newId)];
      } else {
        assert inserted == s.(calls := map[0 := Clashed(rule, d)]);
        assert Apply(inserted, Reread(0)).calls == map[0 := Refused(rule, d, Conflict)];
      }
    } else {
      assert read == s.(calls := map[0 := Refused(rule, d, FullyExcluded)]);
    }
  }

  /** A call with nothing else running is the run look-up, rule, exclusions, insert, re-read. */
  lemma EnsureIsARun(db: Db, rule: RuleId, d: Day, newId: EventId)
    requires newId !in EventIds(db.cat.events)
    ensures var (after, made) := Ensure(db, rule, d, newId);
            Steps(State(db, map[0 := Asked(rule, d)], 0), newId) == State(after, map[0 := Answered(rule, d, made)], 0)
  {
    var s := State(db, map[0 := Asked(rule, d)], 0);
    var looked := Apply(s, Lookup(0));
    if FindOverride(db.cat.events, rule, d).None? {
      assert looked == s.(calls := map[0 := NotThere(rule, d)]);
      var usable := UsableRule(db.cat, rule, d);
      var ruled := Apply(looked, ReadRule(0));
      if usable.Ok? {
        assert ruled == s.(calls := map[0 := RuleRead(rule, d, usable.value, 0)]);
        ReadToEnd(db, rule, d, usable.value, newId);
      } else {
        assert ruled == s.(calls := map[0 := Refused(rule, d, usable.error)]);
      }
    } else {
      assert looked == s.(calls := map[0 := Answered(rule, d, Ensure(db, rule, d, newId).1)]);
    }
  }
}
