/** When a scan at a location finds a run open, in hours and minutes, and which of several it gets. */
module CheckinWindows {
  import opened Domain
  import opened Recurrence
  import opened CheckinChoice
  import E = RecurrenceExamples

  const HOUR: int := 60 * 60 * 1000
  const HALF_HOUR: int := 30 * 60 * 1000

  /** A points-eligible rule that has the location and runs on the day. */
  predicate RunsHere(r: Rule, loc: LocationId, d: Day) {
    && r.active && r.eligible && RuleLocation(loc, true) in r.locations
    && r.startsFrom <= d && (r.endsAt.None? || d <= r.endsAt.value) && Weekday(d) == r.weekday
  }

  function StartOn(r: Rule, d: Day): Instant { d * DAY_MS + r.time }

  /** From an hour before the start to half an hour after the end. */
  predicate OpenAround(r: Rule, at: Instant) {
    var start := StartOn(r, DayOf(at));
    start - HOUR <= at <= start + r.minutes * 60_000 + HALF_HOUR
  }

  lemma OpenMeans(r: Rule, loc: LocationId, at: Instant)
    ensures OpenRule(r, loc, at) <==> RunsHere(r, loc, DayOf(at)) && OpenAround(r, at)
  {}

  /** A scan gets a run if and only if some rule runs here that day and is open around that time. */
  lemma ChosenExactly(cat: Catalog, loc: LocationId, at: Instant, choice: Option<Candidate>)
    requires Best(cat, loc, at, choice)
    ensures choice.Some? <==> exists r :: r in cat.rules && RunsHere(r, loc, DayOf(at)) && OpenAround(r, at)
    ensures choice.Some? ==>
              && choice.value.rule in cat.rules && RunsHere(choice.value.rule, loc, DayOf(at))
              && OpenAround(choice.value.rule, at) && choice.value.start == StartOn(choice.value.rule, DayOf(at))
  {
    forall r ensures OpenRule(r, loc, at) <==> RunsHere(r, loc, DayOf(at)) && OpenAround(r, at) {
      OpenMeans(r, loc, at);
    }
  }

  function Apart(t: Instant, u: Instant): int { if t <= u then u - t else t - u }

  /** Of the open ones it gets a special run if there is one, a regular run only if all are regular, and among runs
      of one type the one that starts nearest to the scan. */
  lemma ChosenBeatsOthers(cat: Catalog, loc: LocationId, at: Instant, choice: Candidate, r: Rule)
    requires Best(cat, loc, at, Some(choice))
    requires r in cat.rules && RunsHere(r, loc, DayOf(at)) && OpenAround(r, at)
    ensures r.kind == Special ==> choice.rule.kind == Special
    ensures choice.rule.kind == Regular ==> r.kind == Regular
    ensures r.kind == choice.rule.kind ==> Apart(choice.start, at) <= Apart(StartOn(r, DayOf(at)), at)
  {
    OpenMeans(r, loc, at);
    assert Preferred(choice, Candidate(r, ComposeOccurrence(r, DayOf(at))), at);
  }

  // ---------------------------------------------------------------- the edges, on a run from ten to eleven

  lemma OnlyRule(at: Instant, choice: Option<Candidate>)
    requires Best(Catalog([E.OnceAtTen()], []), 0, at, choice) && DayOf(at) == 0
    ensures choice.Some? <==> 9 * HOUR <= at <= 11 * HOUR + HALF_HOUR
  {
    var cat := Catalog([E.OnceAtTen()], []);
    ChosenExactly(cat, 0, at, choice);
    assert E.OnceAtTen() in cat.rules && RunsHere(E.OnceAtTen(), 0, 0);
    assert OpenAround(E.OnceAtTen(), at) <==> 9 * HOUR <= at <= 11 * HOUR + HALF_HOUR;
  }

  /** Open at nine and at half past eleven, closed a millisecond before and after. */
  lemma EdgesOfTheWindow(early: Option<Candidate>, first: Option<Candidate>, last: Option<Candidate>,
                         late: Option<Candidate>)
    requires var cat := Catalog([E.OnceAtTen()], []);
             && Best(cat, 0, 9 * HOUR - 1, early) && Best(cat, 0, 9 * HOUR, first)
             && Best(cat, 0, 11 * HOUR + HALF_HOUR, last) && Best(cat, 0, 11 * HOUR + HALF_HOUR + 1, late)
    ensures early.None? && first.Some? && last.Some? && late.None?
  {
    OnlyRule(9 * HOUR - 1, early);
    OnlyRule(9 * HOUR, first);
    OnlyRule(11 * HOUR + HALF_HOUR, last);
    OnlyRule(11 * HOUR + HALF_HOUR + 1, late);
  }
}
