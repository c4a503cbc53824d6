/** Concrete calendars in which two readings of the same rule differ. */
module RecurrenceExamples {
  import opened Domain
  import opened Recurrence
  import opened RecurrenceViews
  import opened CheckinChoice
  import M = Materialize

  const TEN: Instant := 10 * 60 * MINUTE_MS

  /** Thursdays at ten for an hour at location 0, on day 0 only (day 0 is a Thursday). */
  function OnceAtTen(): Rule { Rule(0, Regular, true, 4, TEN, 60, true, 0, Some(0), [RuleLocation(0, true)]) }

  function Draft(): EventRow { EventRow(1, Regular, false, TEN + 1, TEN + 2, Some(0), Some(0), [], []) }

  /** A special at noon that takes location 0. */
  function Noon(): EventRow {
    EventRow(2, Special, true, TEN + 120 * MINUTE_MS, TEN + 180 * MINUTE_MS, None, None, [0], [])
  }

  /** The same every Thursday, without an end. */
  function OnceWeekly(): Rule { OnceAtTen().(endsAt := None) }

  function AtMidnight(): EventRow { EventRow(2, Special, true, 0, 1, None, None, [0], []) }

  lemma OpenThatDay(cat: Catalog)
    requires cat.rules == [OnceAtTen()] && |cat.events| <= 1 && Formed(cat)
    ensures FindRule(cat.rules, 0) == Some(OnceAtTen())
    ensures VisibleLocations(OnceAtTen(), {}) == [0] && VisibleLocations(OnceAtTen(), {0}) == []
  {}

  /** A window from just after midnight misses the rule's last occurrence, at ten. */
  lemma LastDayMissed()
    ensures Expected(OnceAtTen(), 1, DAY_MS - 1, TEN) && !InScope(OnceAtTen(), 1, DAY_MS - 1, TEN)
  {}

  /** A window that closes at nine that day is shown it all the same. */
  lemma ShownAfterTheEnd()
    ensures InScope(OnceAtTen(), 0, TEN - 60 * MINUTE_MS, TEN) && !Expected(OnceAtTen(), 0, TEN - 60 * MINUTE_MS, TEN)
    ensures EndsAfterWindow(OnceAtTen(), 0, TEN - 60 * MINUTE_MS)
  {}

  /** A draft override: the listing keeps the rule's own time, the detail view already shows the draft's. */
  lemma DraftSplitsTheViews()
    ensures var cat := Catalog([OnceAtTen()], [Draft()]);
            && Formed(cat)
            && Listed(cat, WindowStart(0), WindowEnd(0), FromRule(OnceAtTen(), TEN, {}))
            && RuleOccurrenceById(cat, 0, 0) == Some(Detail(TEN + 1, TEN + 2, []))
  {
    var cat := Catalog([OnceAtTen()], [Draft()]);
    OpenThatDay(cat);
    assert ExcludedOn(Shown(cat.events, WindowStart(0), WindowEnd(0)), 0) == {};
    assert InScope(OnceAtTen(), WindowStart(0), WindowEnd(0), TEN);
    assert Entry(cat, WindowStart(0), WindowEnd(0), OnceAtTen(), TEN, FromRule(OnceAtTen(), TEN, {}));
    assert Draft() in cat.events && Overrides(Draft(), 0, 0);
  }

  /** At midnight of day 0 a special takes location 0; listed from one millisecond later, the run at ten is
      shown there all the same, while the detail view has no location left. */
  lemma ExclusionOutsideTheWindow()
    ensures var cat := Catalog([OnceWeekly()], [AtMidnight()]);
            && Formed(cat)
            && Listed(cat, 1, 7 * DAY_MS, FromRule(OnceWeekly(), TEN, {}))
            && FromRule(OnceWeekly(), TEN, {}).locations == [0]
            && RuleOccurrenceById(cat, 0, 0) == Some(Detail(TEN, TEN + 60 * MINUTE_MS, []))
  {
    var r, cat := OnceWeekly(), Catalog([OnceWeekly()], [AtMidnight()]);
    assert FindRule(cat.rules, 0) == Some(r);
    assert ExcludedOn(Shown(cat.events, 1, 7 * DAY_MS), 0) == {};
    assert InScope(r, 1, 7 * DAY_MS, TEN);
    assert Entry(cat, 1, 7 * DAY_MS, r, TEN, FromRule(r, TEN, {}));
    assert AtMidnight() in cat.events && Excludes(AtMidnight(), 0, 0);
    var excluded := ExcludedOn(PublishedOn(cat.events, 0), 0);
    forall l ensures l in excluded <==> l == 0 {
      DetailExclusions(cat, 0, l);
    }
    assert excluded == {0};
    assert VisibleLocations(r, {0}) == [];
  }

  /** A special event has taken the only location, yet a scan there at ten finds the regular run open; making
      its row is then refused. */
  lemma OpenWhereExcluded()
    ensures var cat := Catalog([OnceAtTen()], [Noon()]);
            && Formed(cat) && OpenRule(OnceAtTen(), 0, TEN)
            && RuleOccurrenceById(cat, 0, 0) == Some(Detail(TEN, TEN + 60 * MINUTE_MS, []))
            && M.Ensure(M.Db(cat, {}), 0, 0, 3) == (M.Db(cat, {}), Err(M.FullyExcluded))
  {
    var cat := Catalog([OnceAtTen()], [Noon()]);
    OpenThatDay(cat);
    assert Noon() in cat.events && Excludes(Noon(), 0, 0);
    DetailExclusions(cat, 0, 0);
    var excluded := ExcludedOn(PublishedOn(cat.events, 0), 0);
    forall l ensures l in excluded <==> l == 0 {
      DetailExclusions(cat, 0, l);
    }
    assert excluded == {0};
  }

  /** A week before the rule starts the detail view knows no occurrence, but a row for it can be made. */
  lemma MadeBeforeTheStart()
    ensures var r := OnceAtTen().(startsFrom := 7, endsAt := None);
            var cat := Catalog([r], []);
            && Formed(cat) && RuleOccurrenceById(cat, 0, 0).None?
            && M.Ensure(M.Db(cat, {}), 0, 0, 3).1 == Ok(M.NewRow(3, r, 0, [0]))
  {
    var r := OnceAtTen().(startsFrom := 7, endsAt := None);
    var cat := Catalog([r], []);
    assert FindRule(cat.rules, 0) == Some(r);
    assert ExcludedOn(PublishedOn(cat.events, 0), 0) == {};
    assert VisibleLocations(r, {}) == [0];
  }

  /** A second rule at the same time, whose id shares the first eight digits. */
  function Twin(): Rule { OnceAtTen().(id := 1) }

  lemma BothFound(cat: Catalog)
    requires cat.rules == [OnceAtTen(), Twin()]
    ensures FindRule(cat.rules, 0) == Some(OnceAtTen()) && FindRule(cat.rules, 1) == Some(Twin())
  {
    assert FindRule(cat.rules[..1], 0) == Some(OnceAtTen());
  }

  lemma UsableAtTen(cat: Catalog, r: Rule)
    requires r == OnceAtTen() || r == Twin()
    requires cat == Catalog([OnceAtTen(), Twin()], [])
    ensures M.UsableRule(cat, r.id, 0) == Ok(r) && M.OpenLocations(cat, r, 0) == [0]
  {
    BothFound(cat);
    assert ExcludedOn(PublishedOn(cat.events, 0), 0) == {};
    assert VisibleLocations(r, {}) == [0];
  }

  lemma MadeAtTen(db: M.Db, r: Rule, newId: EventId)
    requires M.UsableRule(db.cat, r.id, 0) == Ok(r) && M.OpenLocations(db.cat, r, 0) == [0]
    requires db.cat.events == [] && db.slugs == {}
    ensures M.Ensure(db, r.id, 0, newId).1 == Ok(M.NewRow(newId, r, 0, [0])) && M.Ensure(db, r.id, 0, newId).0 != db
  {
    var row := M.NewRow(newId, r, 0, [0]);
    assert M.InsertRow(db, row, r.id, 0).Some?;
    assert |M.InsertRow(db, row, r.id, 0).value.cat.events| == 1;
  }

  lemma EitherMade(db: M.Db, r: Rule, newId: EventId)
    requires r == OnceAtTen() || r == Twin()
    requires db == M.Db(Catalog([OnceAtTen(), Twin()], []), {})
    ensures M.Ensure(db, r.id, 0, newId).1 == Ok(M.NewRow(newId, r, 0, [0])) && M.Ensure(db, r.id, 0, newId).0 != db
  {
    UsableAtTen(db.cat, r);
    MadeAtTen(db, r, newId);
  }

  /** Each of the two can be materialized that day; after one, the other is refused. */
  lemma TwinIsRefused()
    ensures var db := M.Db(Catalog([OnceAtTen(), Twin()], []), {});
            var after := M.Ensure(db, 0, 0, 5).0;
            && Formed(db.cat) && M.Ensure(db, 0, 0, 5).1.Ok? && M.Ensure(db, 1, 0, 6).1.Ok?
            && M.Ensure(after, 1, 0, 6) == (after, Err(M.Conflict))
  {
    var db := M.Db(Catalog([OnceAtTen(), Twin()], []), {});
    EitherMade(db, OnceAtTen(), 5);
    EitherMade(db, Twin(), 6);
    M.SharedPrefixIsRefused(db, 0, 1, 0, 5, 6);
  }

  /** Nothing but the rule stored, and one call that asks for its row of day 0. */
  function Asking(): M.State { M.State(M.Db(Catalog([OnceAtTen()], []), {}), map[0 := M.Asked(0, 0)], 0) }

  lemma ReadyForTen(s: M.State)
    requires s == Asking()
    ensures var read := M.Apply(M.Apply(M.Apply(s, M.Lookup(0)), M.ReadRule(0)), M.ReadExclusions(0));
            read == s.(calls := map[0 := M.Ready(0, 0, OnceAtTen(), [0], 0)])
  {
    var cat := s.db.cat;
    OpenThatDay(cat);
    var looked := M.Apply(s, M.Lookup(0));
    assert looked == s.(calls := map[0 := M.NotThere(0, 0)]);
    var ruled := M.Apply(looked, M.ReadRule(0));
    assert ruled == s.(calls := map[0 := M.RuleRead(0, 0, OnceAtTen(), 0)]);
    assert ExcludedOn(PublishedOn(cat.events, 0), 0) == {};
  }

  lemma AskingIsSound(s: M.State)
    requires s == Asking()
    ensures M.Inv(s)
    ensures M.Inv(M.Apply(M.Apply(M.Apply(s, M.Lookup(0)), M.ReadRule(0)), M.ReadExclusions(0)))
  {
    M.StepKeeps(s, M.Lookup(0));
    M.StepKeeps(M.Apply(s, M.Lookup(0)), M.ReadRule(0));
    M.StepKeeps(M.Apply(M.Apply(s, M.Lookup(0)), M.ReadRule(0)), M.ReadExclusions(0));
  }

  /** The special of noon is saved just before the insert: the row of the run keeps the location it takes. */
  lemma NoonIsMissed()
    ensures var read := M.Apply(M.Apply(M.Apply(Asking(), M.Lookup(0)), M.ReadRule(0)), M.ReadExclusions(0));
            var end := M.Apply(M.Apply(read, M.SaveEvent(Noon(), 5)), M.Insert(0, 9)).db.cat;
            && M.Inv(Asking())
            && M.NewRow(9, OnceAtTen(), 0, [0]) in end.events && ExcludedByAny(end, 0, 0)
  {
    var s := Asking();
    ReadyForTen(s);
    AskingIsSound(s);
    M.LateExclusionIsMissed(s.(calls := map[0 := M.Ready(0, 0, OnceAtTen(), [0], 0)]), 0, 9, Noon(), 5, 0);
  }
}
