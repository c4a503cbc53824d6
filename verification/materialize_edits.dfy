/** Admin edits between the reads of a materializing call and its insert: exactly when the row it creates
    has the locations in force, and which edits change them. */
module MaterializeEdits {
  import opened Domain
  import opened Seqs
  import opened Recurrence
  import opened RecurrenceViews
  import opened Materialize

  /** The rule has the location as an active one. */
  ghost predicate ActiveAt(cat: Catalog, rule: RuleId, l: LocationId) {
    exists r :: r in cat.rules && r.id == rule && RuleLocation(l, true) in r.locations
  }

  /** The location is a starting point of the rule's day: active and not excluded. */
  ghost predicate OpenAt(cat: Catalog, rule: RuleId, d: Day, l: LocationId) {
    ActiveAt(cat, rule, l) && !ExcludedByAny(cat, d, l)
  }

  /** `locations` are the rule's active locations minus the exclusions, both as they are now. */
  ghost predicate InForce(cat: Catalog, rule: RuleId, d: Day, locations: seq<LocationId>) {
    forall l :: l in locations <==> OpenAt(cat, rule, d, l)
  }

  /** An edit changes whether the location is open on the rule's day. */
  ghost predicate Flips(s: State, step: Step, rule: RuleId, d: Day, l: LocationId) {
    OpenAt(s.db.cat, rule, d, l) != OpenAt(Apply(s, step).db.cat, rule, d, l)
  }

  // ---------------------------------------------------------------- which edits flip a location

  lemma SameCatalog(cat: Catalog, later: Catalog, rule: RuleId, d: Day, l: LocationId)
    requires later.rules == cat.rules && ExcludedByAny(later, d, l) == ExcludedByAny(cat, d, l)
    ensures OpenAt(later, rule, d, l) == OpenAt(cat, rule, d, l)
  {}

  /** A step of a call, an insert included, flips nothing. */
  lemma CallsFlipNothing(s: State, step: Step, rule: RuleId, d: Day, l: LocationId)
    requires !step.SaveRule? && !step.SaveEvent?
    ensures !Flips(s, step, rule, d, l)
  {
    var later := Apply(s, step).db.cat;
    if step.Insert? && later != s.db.cat {
      var c := s.calls[step.call];
      var row := NewRow(step.newId, c.copy, c.day, c.locations);
      assert later == s.db.cat.(events := s.db.cat.events + [row]);
      NewRowExcludesNothing(s.db.cat, row, d, l);
    }
    SameCatalog(s.db.cat, later, rule, d, l);
  }

  /** An event is stored that was not there before. */
  predicate StoresNew(s: State, step: Step) {
    step.SaveEvent? && step.event.id !in EventIds(s.db.cat.events) && OtherSlug(step.slug) !in s.db.slugs
  }

  lemma ExcludedWithNew(cat: Catalog, row: EventRow, d: Day, l: LocationId)
    ensures ExcludedByAny(cat.(events := cat.events + [row]), d, l) <==>
            ExcludedByAny(cat, d, l) || (row.published && Excludes(row, d, l))
  {
    var later := cat.(events := cat.events + [row]);
    if ExcludedByAny(cat, d, l) {
      var e :| e in cat.events && e.published && Excludes(e, d, l);
      assert e in later.events;
    }
    if row.published && Excludes(row, d, l) {
      assert row in later.events;
    }
  }

  /** A new event flips exactly the open locations it excludes, if it is published. */
  lemma NewEventFlips(s: State, step: Step, rule: RuleId, d: Day, l: LocationId)
    requires StoresNew(s, step)
    ensures Flips(s, step, rule, d, l) <==>
            OpenAt(s.db.cat, rule, d, l) && step.event.published && Excludes(step.event, d, l)
  {
    ExcludedWithNew(s.db.cat, step.event.(rule := None, overrides := None), d, l);
  }

  /** Excluded by some stored event other than `id`. */
  ghost predicate ExcludedByOther(cat: Catalog, id: EventId, d: Day, l: LocationId) {
    exists e :: e in cat.events && e.id != id && e.published && Excludes(e, d, l)
  }

  lemma SameEvent(events: seq<EventRow>, a: EventRow, b: EventRow)
    requires IdsUnique(events) && a in events && b in events && a.id == b.id
    ensures a == b
  {
    var key := (e: EventRow) => e.id;
    var i :| 0 <= i < |events| && events[i] == a;
    var j :| 0 <= j < |events| && events[j] == b;
    assert key(events[i]) == key(events[j]);
  }

  lemma ExcludedWithout(cat: Catalog, was: EventRow, d: Day, l: LocationId)
    requires IdsUnique(cat.events) && was in cat.events
    ensures ExcludedByAny(cat, d, l) <==> ExcludedByOther(cat, was.id, d, l) || (was.published && Excludes(was, d, l))
  {
    forall e | e in cat.events && e.id == was.id ensures e == was {
      SameEvent(cat.events, e, was);
    }
  }

  lemma ExcludedReplaced(cat: Catalog, e: EventRow, was: EventRow, d: Day, l: LocationId)
    requires IdsUnique(cat.events) && was in cat.events && was.id == e.id
    ensures ExcludedByAny(cat.(events := ReplaceEvent(cat.events, e)), d, l) <==>
            ExcludedByOther(cat, was.id, d, l) || (e.published && Excludes(e, d, l))
  {
    var events, after := cat.events, ReplaceEvent(cat.events, e);
    var later := cat.(events := after);
    ReplacedEvents(events, e);
    if ExcludedByOther(cat, was.id, d, l) {
      var x :| x in events && x.id != was.id && x.published && Excludes(x, d, l);
      var i :| 0 <= i < |events| && events[i] == x;
      assert after[i] in after && after[i] == x;
    }
    if e.published && Excludes(e, d, l) {
      var i :| 0 <= i < |events| && events[i] == was;
      assert after[i] in after && after[i].published && Excludes(after[i], d, l);
    }
    if ExcludedByAny(later, d, l) {
      var x :| x in after && x.published && Excludes(x, d, l);
      var i :| 0 <= i < |after| && after[i] == x;
      assert events[i] in events;
    }
  }

  /** An edited event flips a location the rule has active and no other event excludes, if and only if one of
      its versions excludes it and the other does not. */
  lemma EditedEventFlips(s: State, step: Step, was: EventRow, rule: RuleId, d: Day, l: LocationId)
    requires Inv(s) && step.SaveEvent? && was in s.db.cat.events && was.id == step.event.id
    ensures Flips(s, step, rule, d, l) <==>
            && ActiveAt(s.db.cat, rule, l) && !ExcludedByOther(s.db.cat, was.id, d, l)
            && (was.published && Excludes(was, d, l)) != (step.event.published && Excludes(step.event, d, l))
  {
    assert step.event.id in EventIds(s.db.cat.events);
    ExcludedWithout(s.db.cat, was, d, l);
    ExcludedReplaced(s.db.cat, step.event, was, d, l);
  }

  /** A saved rule flips a location of its own that no event excludes, if and only if its new version has it
      active and the old one had not, or the other way round. */
  lemma SavedRuleFlips(s: State, step: Step, rule: RuleId, d: Day, l: LocationId)
    requires step.SaveRule?
    ensures Flips(s, step, rule, d, l) <==>
            && step.saved.id == rule && !ExcludedByAny(s.db.cat, d, l)
            && ActiveAt(s.db.cat, rule, l) != (RuleLocation(l, true) in step.saved.locations)
  {
    var later := Apply(s, step).db.cat;
    assert later.events == s.db.cat.events;
    if step.saved.id == rule {
      if RuleLocation(l, true) in step.saved.locations {
        assert step.saved in later.rules;
      }
      assert ActiveAt(later, rule, l) <==> RuleLocation(l, true) in step.saved.locations;
    } else {
      forall r: Rule | r.id == rule ensures r in later.rules <==> r in s.db.cat.rules {}
    }
  }

  // ---------------------------------------------------------------- over whole runs

  /** The step stores a version of an event: an edit, or a new event whose slug is free. */
  predicate Saves(s: State, step: Step, id: EventId) {
    && step.SaveEvent? && step.event.id == id
    && (id in EventIds(s.db.cat.events) || OtherSlug(step.slug) !in s.db.slugs)
  }

  /** The last version of an event saved in the run, if any. */
  function LastSaved(s: State, steps: seq<Step>, id: EventId): Option<EventRow>
    decreases |steps|
  {
    if |steps| == 0 then None
    else
      var later := LastSaved(Apply(s, steps[0]), steps[1..], id);
      if later.Some? then later else if Saves(s, steps[0], id) then Some(steps[0].event) else None
  }

  /** The last version of a rule saved in the run, if any. */
  function LastRule(steps: seq<Step>, rule: RuleId): Option<Rule> {
    if |steps| == 0 then None
    else
      var last := steps[|steps| - 1];
      if last.SaveRule? && last.saved.id == rule then Some(last.saved) else LastRule(steps[..|steps| - 1], rule)
  }

  predicate Closes(e: EventRow, d: Day, l: LocationId) { e.published && Excludes(e, d, l) }

  /** The last saved version of some event excludes the location. */
  ghost predicate NewlyClosed(s: State, steps: seq<Step>, d: Day, l: LocationId) {
    exists id :: LastSaved(s, steps, id).Some? && Closes(LastSaved(s, steps, id).value, d, l)
  }

  /** Going by the edits alone, some event excludes the location after them: the last saved version of one, or
      one stored before that was not saved again. */
  ghost predicate ClosedByEdits(s: State, steps: seq<Step>, d: Day, l: LocationId) {
    || NewlyClosed(s, steps, d, l)
    || (exists e :: e in s.db.cat.events && LastSaved(s, steps, e.id).None? && Closes(e, d, l))
  }

  /** Going by the edits alone, the rule has the location as an active one after them. */
  ghost predicate ActiveByEdits(s: State, steps: seq<Step>, rule: RuleId, l: LocationId) {
    match LastRule(steps, rule)
    case Some(r) => RuleLocation(l, true) in r.locations
    case None => ActiveAt(s.db.cat, rule, l)
  }

  lemma RunLast(s: State, steps: seq<Step>)
    requires |steps| > 0
    ensures Run(s, steps) == Apply(Run(s, steps[..|steps| - 1]), steps[|steps| - 1])
    decreases |steps|
  {
    if |steps| > 1 {
      RunLast(Apply(s, steps[0]), steps[1..]);
      assert steps[1..][..|steps| - 2] == steps[..|steps| - 1][1..];
    }
  }

  lemma SavedRule(s: State, step: Step, rule: RuleId, l: LocationId)
    ensures ActiveAt(Apply(s, step).db.cat, rule, l) <==>
            if step.SaveRule? && step.saved.id == rule then RuleLocation(l, true) in step.saved.locations
            else ActiveAt(s.db.cat, rule, l)
  {
    var later := Apply(s, step).db.cat;
    if step.SaveRule? {
      assert step.saved in later.rules;
      forall r: Rule | r.id != step.saved.id ensures r in later.rules <==> r in s.db.cat.rules {}
    }
  }

  lemma {:induction false} ActiveAfterEdits(s: State, steps: seq<Step>, rule: RuleId, l: LocationId)
    ensures ActiveAt(Run(s, steps).db.cat, rule, l) <==> ActiveByEdits(s, steps, rule, l)
    decreases |steps|
  {
    if |steps| > 0 {
      var n := |steps| - 1;
      RunLast(s, steps);
      ActiveAfterEdits(s, steps[..n], rule, l);
      SavedRule(Run(s, steps[..n]), steps[n], rule, l);
    }
  }

  /** Other events than `id` are where they were; `id` has the saved content. */
  lemma SavedEvents(s: State, step: Step, id: EventId)
    requires Saves(s, step, id)
    ensures var events, after := s.db.cat.events, Apply(s, step).db.cat.events;
            && (forall e: EventRow :: e.id != id ==> (e in after <==> e in events))
            && (forall e: EventRow, d, l :: e in after && e.id == id ==>
                  (Closes(e, d, l) <==> Closes(step.event, d, l)))
            && id in EventIds(after)
  {
    var events, after := s.db.cat.events, Apply(s, step).db.cat.events;
    if id in EventIds(events) {
      ReplacedEvents(events, step.event);
      forall e: EventRow | e.id != id ensures e in after <==> e in events {
        if e in events {
          var i :| 0 <= i < |events| && events[i] == e;
          assert after[i] == e;
        }
        if e in after {
          var i :| 0 <= i < |after| && after[i] == e;
          assert events[i] == e;
        }
      }
      var i :| 0 <= i < |events| && events[i].id == id;
      assert after[i] in after && after[i].id == id;
    } else {
      assert after == events + [step.event.(rule := None, overrides := None)];
      assert after[|events|] in after && after[|events|].id == id;
    }
  }

  /** A step that saves no event leaves them alone, but for a created row, which excludes nothing. */
  lemma OtherEvents(s: State, step: Step)
    requires forall id :: !Saves(s, step, id)
    ensures var events, after := s.db.cat.events, Apply(s, step).db.cat.events;
            && (forall e: EventRow :: e in events ==> e in after)
            && (forall e: EventRow, d, l :: e in after && Closes(e, d, l) ==> e in events)
  {
    if step.SaveEvent? {
      assert !Saves(s, step, step.event.id);
    }
  }

  lemma ClosedBySave(s: State, steps: seq<Step>, d: Day, l: LocationId)
    requires |steps| > 0 && steps[0].SaveEvent? && Saves(s, steps[0], steps[0].event.id)
    ensures ClosedByEdits(s, steps, d, l) <==> ClosedByEdits(Apply(s, steps[0]), steps[1..], d, l)
  {
    var x, next, rest := steps[0].event, Apply(s, steps[0]), steps[1..];
    SavedEvents(s, steps[0], x.id);
    if ClosedByEdits(next, rest, d, l) {
      if id :| LastSaved(next, rest, id).Some? && Closes(LastSaved(next, rest, id).value, d, l) {
        assert LastSaved(s, steps, id) == LastSaved(next, rest, id);
      } else {
        var e :| e in next.db.cat.events && LastSaved(next, rest, e.id).None? && Closes(e, d, l);
        assert e.id == x.id ==> LastSaved(s, steps, x.id) == Some(x) && Closes(x, d, l);
        assert e.id != x.id ==> LastSaved(s, steps, e.id).None?;
      }
    }
    if ClosedByEdits(s, steps, d, l) {
      if id :| LastSaved(s, steps, id).Some? && Closes(LastSaved(s, steps, id).value, d, l) {
        if LastSaved(next, rest, id).None? {
          assert id == x.id && LastSaved(s, steps, id) == Some(x);
          var e :| e in next.db.cat.events && e.id == x.id;
          assert Closes(e, d, l);
        }
      } else {
        var e :| e in s.db.cat.events && LastSaved(s, steps, e.id).None? && Closes(e, d, l);
        assert e.id != x.id && LastSaved(next, rest, e.id).None?;
      }
    }
  }

  lemma ClosedByOther(s: State, steps: seq<Step>, d: Day, l: LocationId)
    requires |steps| > 0 && forall id :: !Saves(s, steps[0], id)
    ensures ClosedByEdits(s, steps, d, l) <==> ClosedByEdits(Apply(s, steps[0]), steps[1..], d, l)
  {
    var next, rest := Apply(s, steps[0]), steps[1..];
    OtherEvents(s, steps[0]);
    forall id ensures LastSaved(s, steps, id) == LastSaved(next, rest, id) {}
  }

  lemma {:induction false} ClosedAfterEdits(s: State, steps: seq<Step>, d: Day, l: LocationId)
    ensures ExcludedByAny(Run(s, steps).db.cat, d, l) <==> ClosedByEdits(s, steps, d, l)
    decreases |steps|
  {
    if |steps| > 0 {
      ClosedAfterEdits(Apply(s, steps[0]), steps[1..], d, l);
      if steps[0].SaveEvent? && Saves(s, steps[0], steps[0].event.id) {
        ClosedBySave(s, steps, d, l);
      } else {
        ClosedByOther(s, steps, d, l);
      }
    }
  }

  /** The insert creates the row with what the call read, and moves nobody's open locations. */
  lemma InsertedRow(s: State, id: nat, newId: EventId)
    requires id in s.calls && s.calls[id].Ready? && Apply(s, Insert(id, newId)).db != s.db
    ensures var c := s.calls[id];
            var row := NewRow(newId, c.copy, c.day, c.locations);
            var end := Apply(s, Insert(id, newId)).db.cat;
            && row in end.events && row.sync == c.locations
            && forall l :: OpenAt(end, c.rule, c.day, l) == OpenAt(s.db.cat, c.rule, c.day, l)
  {
    var c := s.calls[id];
    forall l ensures !Flips(s, Insert(id, newId), c.rule, c.day, l) {
      CallsFlipNothing(s, Insert(id, newId), c.rule, c.day, l);
    }
  }

  /** Whatever was edited between the moment `s` after a call's reads and its insert, the created row has the
      locations in force at creation if and only if, going by the last saved versions of the rule and of the
      events, each location read is still active and excluded by none, and every other one is inactive or
      excluded. */
  lemma CreatedInForceExactly(s: State, steps: seq<Step>, id: nat, newId: EventId)
    requires id in s.calls && s.calls[id].Ready?
    requires var mid := Run(s, steps);
             id in mid.calls && mid.calls[id] == s.calls[id] && Apply(mid, Insert(id, newId)).db != mid.db
    ensures var c := s.calls[id];
            var end := Apply(Run(s, steps), Insert(id, newId)).db.cat;
            var row := NewRow(newId, c.copy, c.day, c.locations);
            && row in end.events
            && (InForce(end, c.rule, c.day, row.sync) <==>
                  forall l :: l in c.locations <==>
                              ActiveByEdits(s, steps, c.rule, l) && !ClosedByEdits(s, steps, c.day, l))
  {
    var c := s.calls[id];
    InsertedRow(Run(s, steps), id, newId);
    forall l ensures OpenAt(Run(s, steps).db.cat, c.rule, c.day, l) <==>
                     ActiveByEdits(s, steps, c.rule, l) && !ClosedByEdits(s, steps, c.day, l) {
      ActiveAfterEdits(s, steps, c.rule, l);
      ClosedAfterEdits(s, steps, c.day, l);
    }
  }

  lemma OneLocation(s: State, steps: seq<Step>, rule: RuleId, d: Day, locations: seq<LocationId>, l: LocationId)
    requires LastRule(steps, rule).None? && (l in locations <==> OpenAt(s.db.cat, rule, d, l))
    ensures (l in locations <==> ActiveByEdits(s, steps, rule, l) && !ClosedByEdits(s, steps, d, l)) <==>
            if l in locations then !NewlyClosed(s, steps, d, l)
            else ActiveAt(s.db.cat, rule, l) ==> ClosedByEdits(s, steps, d, l)
  {
    assert l in locations ==> !ExcludedByAny(s.db.cat, d, l);
  }

  /** When what was read was in force and the rule is not saved again: if and only if no last saved version of
      an event excludes a location read, and every other active location is excluded after the edits too. */
  lemma CreatedUnderEventEdits(s: State, steps: seq<Step>, id: nat, newId: EventId)
    requires id in s.calls && s.calls[id].Ready? && LastRule(steps, s.calls[id].rule).None?
    requires InForce(s.db.cat, s.calls[id].rule, s.calls[id].day, s.calls[id].locations)
    requires var mid := Run(s, steps);
             id in mid.calls && mid.calls[id] == s.calls[id] && Apply(mid, Insert(id, newId)).db != mid.db
    ensures var c := s.calls[id];
            var end := Apply(Run(s, steps), Insert(id, newId)).db.cat;
            var row := NewRow(newId, c.copy, c.day, c.locations);
            InForce(end, c.rule, c.day, row.sync) <==>
              && (forall l :: l in c.locations ==> !NewlyClosed(s, steps, c.day, l))
              && (forall l :: l !in c.locations && ActiveAt(s.db.cat, c.rule, l) ==> ClosedByEdits(s, steps, c.day, l))
  {
    var c := s.calls[id];
    CreatedInForceExactly(s, steps, id, newId);
    forall l
      ensures (l in c.locations <==> ActiveByEdits(s, steps, c.rule, l) && !ClosedByEdits(s, steps, c.day, l)) <==>
              if l in c.locations then !NewlyClosed(s, steps, c.day, l)
              else ActiveAt(s.db.cat, c.rule, l) ==> ClosedByEdits(s, steps, c.day, l)
    {
      OneLocation(s, steps, c.rule, c.day, c.locations, l);
    }
  }

  // ---------------------------------------------------------------- when edits only add events

  /** The step stores a published event that excludes one of the locations that day. */
  predicate ExcludesLate(s: State, step: Step, d: Day, locations: seq<LocationId>) {
    StoresNew(s, step) && step.event.published && exists l :: l in locations && Excludes(step.event, d, l)
  }

  predicate EverExcludesLate(s: State, steps: seq<Step>, d: Day, locations: seq<LocationId>)
    decreases |steps|
  {
    |steps| > 0 && (ExcludesLate(s, steps[0], d, locations)
                    || EverExcludesLate(Apply(s, steps[0]), steps[1..], d, locations))
  }

  /** The only edits are new events and edits of other rules. */
  predicate OnlyNewEvents(s: State, steps: seq<Step>, rule: RuleId)
    decreases |steps|
  {
    |steps| > 0 ==>
      && (steps[0].SaveEvent? ==> steps[0].event.id !in EventIds(s.db.cat.events))
      && (steps[0].SaveRule? ==> steps[0].saved.id != rule)
      && OnlyNewEvents(Apply(s, steps[0]), steps[1..], rule)
  }

  /** Such a step closes exactly the open locations a stored event excludes. */
  lemma QuietStep(s: State, step: Step, rule: RuleId, d: Day, l: LocationId)
    requires step.SaveEvent? ==> step.event.id !in EventIds(s.db.cat.events)
    requires step.SaveRule? ==> step.saved.id != rule
    ensures OpenAt(Apply(s, step).db.cat, rule, d, l) <==>
            && OpenAt(s.db.cat, rule, d, l)
            && !(StoresNew(s, step) && step.event.published && Excludes(step.event, d, l))
  {
    if StoresNew(s, step) {
      NewEventFlips(s, step, rule, d, l);
    } else if step.SaveRule? {
      SavedRuleFlips(s, step, rule, d, l);
    } else if !step.SaveEvent? {
      CallsFlipNothing(s, step, rule, d, l);
    }
  }

  lemma {:induction false} ClosedStays(s: State, steps: seq<Step>, rule: RuleId, d: Day, l: LocationId)
    requires OnlyNewEvents(s, steps, rule) && !OpenAt(s.db.cat, rule, d, l)
    ensures !OpenAt(Run(s, steps).db.cat, rule, d, l)
    decreases |steps|
  {
    if |steps| > 0 {
      QuietStep(s, steps[0], rule, d, l);
      ClosedStays(Apply(s, steps[0]), steps[1..], rule, d, l);
    }
  }

  /** If what was read is in force in `s` and later edits only add events, what was read is still in force at
      the end if and only if no event stored since excludes one of the locations read. */
  lemma {:induction false} LateExclusionsExactly(s: State, steps: seq<Step>, rule: RuleId, d: Day,
                                                 locations: seq<LocationId>)
    requires OnlyNewEvents(s, steps, rule) && InForce(s.db.cat, rule, d, locations)
    ensures InForce(Run(s, steps).db.cat, rule, d, locations) <==> !EverExcludesLate(s, steps, d, locations)
    decreases |steps|
  {
    if |steps| > 0 {
      var next := Apply(s, steps[0]);
      if ExcludesLate(s, steps[0], d, locations) {
        var l :| l in locations && Excludes(steps[0].event, d, l);
        QuietStep(s, steps[0], rule, d, l);
        ClosedStays(next, steps[1..], rule, d, l);
      } else {
        forall l ensures OpenAt(next.db.cat, rule, d, l) == OpenAt(s.db.cat, rule, d, l) {
          QuietStep(s, steps[0], rule, d, l);
        }
        LateExclusionsExactly(next, steps[1..], rule, d, locations);
      }
    }
  }

  /** The same for the created row: with up-to-date reads and only new events saved before the insert, it has
      the locations in force if and only if none of those events is published and excludes one of them. */
  lemma CreatedDespiteNewEvents(s: State, steps: seq<Step>, id: nat, newId: EventId)
    requires id in s.calls && s.calls[id].Ready? && OnlyNewEvents(s, steps, s.calls[id].rule)
    requires InForce(s.db.cat, s.calls[id].rule, s.calls[id].day, s.calls[id].locations)
    requires var mid := Run(s, steps);
             id in mid.calls && mid.calls[id] == s.calls[id] && Apply(mid, Insert(id, newId)).db != mid.db
    ensures var c := s.calls[id];
            var end := Apply(Run(s, steps), Insert(id, newId)).db.cat;
            var row := NewRow(newId, c.copy, c.day, c.locations);
            && row in end.events
            && (InForce(end, c.rule, c.day, row.sync) <==> !EverExcludesLate(s, steps, c.day, c.locations))
  {
    var c := s.calls[id];
    InsertedRow(Run(s, steps), id, newId);
    LateExclusionsExactly(s, steps, c.rule, c.day, c.locations);
  }

  lemma SameSavedRule(rules: seq<Rule>, a: Rule, b: Rule)
    requires RulesUnique(rules) && a in rules && b in rules && a.id == b.id
    ensures a == b
  {
    var key := (r: Rule) => r.id;
    var i :| 0 <= i < |rules| && rules[i] == a;
    var j :| 0 <= j < |rules| && rules[j] == b;
    assert key(rules[i]) == key(rules[j]);
  }

  /** A call whose rule was not edited between its two reads reads what is in force. */
  lemma ReadsAreInForce(s: State, id: nat)
    requires Inv(s) && id in s.calls && s.calls[id].RuleRead? && s.calls[id].copy in s.db.cat.rules
    ensures var c := Apply(s, ReadExclusions(id)).calls[id];
            c.Ready? ==> InForce(s.db.cat, c.rule, c.day, c.locations)
  {
    var c := s.calls[id];
    assert CallSound(s, c);
    OpenLocationsAre(s.db.cat, c.copy, c.day);
    forall l ensures ActiveAt(s.db.cat, c.rule, l) <==> RuleLocation(l, true) in c.copy.locations {
      if ActiveAt(s.db.cat, c.rule, l) {
        var r :| r in s.db.cat.rules && r.id == c.rule && RuleLocation(l, true) in r.locations;
        SameSavedRule(s.db.cat.rules, r, c.copy);
      }
    }
  }
}
