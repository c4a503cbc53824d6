/** The runner's month grid: batched look-ups, one cell per day, and what a cell says. */
module Timeline {
  import opened Domain
  import opened Seqs
  import opened Ledger
  import opened Recurrence
  import opened RecurrenceViews
  import I = Interests

  datatype Attendance = Attendance(id: AttendanceId, user: UserId, event: EventId)

  datatype CellKind = Done | Skipped | Today | Tomorrow | Soon | Upcoming

  datatype Cell = Cell(date: Day, face: Occurrence, kind: CellKind, points: Option<int>, isGoing: bool)

  /** What the grid is read from, and for whom and when. */
  datatype View = View(events: seq<EventRow>, attendances: seq<Attendance>, rows: seq<Row>,
                       interests: seq<I.Interest>, user: UserId, now: Instant)

  /** The results of the batched queries. */
  datatype Indexes = Indexes(overrideByKey: map<(RuleId, Day), EventId>, byEvent: map<EventId, Attendance>,
                             points: map<AttendanceId, int>)

  datatype Grid = Grid(cells: seq<Cell>, done: nat, total: nat)

  function OnDay(d: Day): Occurrence -> bool { (o: Occurrence) => DayOf(o.startsAt) == d }

  function DatesOf(occs: seq<Occurrence>): set<Day> { set o | o in occs :: DayOf(o.startsAt) }

  // ---------------------------------------------------------------- one look-up at a time

  /** The stored event behind a public id, looked up alone. */
  function BackingEvent(events: seq<EventRow>, id: OccurrenceId): Option<EventId> {
    match id
    case Standalone(event) => Some(event)
    case RuleOccurrence(rule, day) =>
      var e := FindOverride(events, rule, day);
      if e.Some? then Some(e.value.id) else None
  }

  function FindAttendance(attendances: seq<Attendance>, user: UserId, event: EventId): (a: Option<Attendance>)
    ensures a.Some? ==> a.value in attendances && a.value.user == user && a.value.event == event
    ensures a.None? ==> forall x :: x in attendances ==> x.user != user || x.event != event
  {
    First(attendances, (a: Attendance) => a.user == user && a.event == event)
  }

  function AttendanceOn(v: View, o: Occurrence): Option<Attendance> {
    var id := BackingEvent(v.events, o.id);
    if id.None? then None else FindAttendance(v.attendances, v.user, id.value)
  }

  /** The attendance of the first attended event among a day's events. */
  function FirstAttended(v: View, occs: seq<Occurrence>): (a: Option<Attendance>)
    ensures a.Some? <==> exists o :: o in occs && AttendanceOn(v, o).Some?
  {
    if |occs| == 0 then None
    else if AttendanceOn(v, occs[0]).Some? then AttendanceOn(v, occs[0])
    else FirstAttended(v, occs[1..])
  }

  /** The text of an RSVP's key is the public id it was made under. */
  function KeyOfId(id: OccurrenceId): I.EventKey {
    match id
    case Standalone(event) => I.UuidKey(event)
    case RuleOccurrence(rule, day) => I.RuleKey(rule, day)
  }

  /** What an unattended day is called, seen from `now`. */
  function KindOf(face: Occurrence, now: Instant): CellKind {
    var d := DayOf(face.startsAt);
    if face.endsAt < now then Skipped
    else if d == DayOf(now) then Today
    else if d == DayOf(now) + 1 then Tomorrow
    else if face.kind == Regular && (d == DayOf(now) + 2 || d == DayOf(now) + 3) then Soon
    else Upcoming
  }

  predicate Actionable(kind: CellKind) { kind == Soon || kind == Today || kind == Tomorrow }

  /** The cell of a day, by single look-ups. */
  ghost function CellOf(v: View, day: seq<Occurrence>): Cell
    requires |day| > 0
  {
    var face := day[0];
    var attended := FirstAttended(v, day);
    var kind := if attended.Some? then Done else KindOf(face, v.now);
    var sum := if attended.Some? then CreditSum(v.rows, Some(v.user), attended.value.id) else 0;
    Cell(DayOf(face.startsAt), face, kind, if sum > 0 then Some(sum) else None,
         Actionable(kind) && I.IsGoing(v.interests, v.user, KeyOfId(face.id)))
  }

  // ---------------------------------------------------------------- batched look-ups

  function InBatch(rules: set<RuleId>, days: set<Day>): EventRow -> bool {
    (e: EventRow) => e.rule.Some? && e.rule.value in rules && e.overrides.Some? && e.overrides.value in days
  }

  ghost predicate FromBatch(batch: seq<EventRow>, k: (RuleId, Day), id: EventId) {
    exists e :: e in batch && Overrides(e, k.0, k.1) && id == e.id
  }

  method IndexBatch(batch: seq<EventRow>) returns (overrideByKey: map<(RuleId, Day), EventId>)
    ensures forall k :: k in overrideByKey ==> FromBatch(batch, k, overrideByKey[k])
    ensures forall e, r: RuleId, d: Day :: e in batch && Overrides(e, r, d) ==> (r, d) in overrideByKey
  {
    overrideByKey := map[];
    for i := 0 to |batch|
      invariant forall k :: k in overrideByKey ==> FromBatch(batch, k, overrideByKey[k])
      invariant forall j, r: RuleId, d: Day :: 0 <= j < i && Overrides(batch[j], r, d) ==> (r, d) in overrideByKey
    {
      var e := batch[i];
      if e.rule.Some? && e.overrides.Some? {
        assert Overrides(e, e.rule.value, e.overrides.value);
        overrideByKey := overrideByKey[(e.rule.value, e.overrides.value) := e.id];
      }
    }
  }

  function BackingIn(overrideByKey: map<(RuleId, Day), EventId>, id: OccurrenceId): Option<EventId> {
    match id
    case Standalone(event) => Some(event)
    case RuleOccurrence(rule, day) => if (rule, day) in overrideByKey then Some(overrideByKey[(rule, day)]) else None
  }

  /** The product of the two IN lists also selects pairs nobody asked for; the index is right anyway. */
  lemma BatchAnswers(events: seq<EventRow>, batch: seq<EventRow>, rules: set<RuleId>, days: set<Day>,
                     overrideByKey: map<(RuleId, Day), EventId>, id: OccurrenceId)
    requires OneOverride(events) && batch == Filter(events, InBatch(rules, days))
    requires forall k :: k in overrideByKey ==> FromBatch(batch, k, overrideByKey[k])
    requires forall e, r: RuleId, d: Day :: e in batch && Overrides(e, r, d) ==> (r, d) in overrideByKey
    requires id.RuleOccurrence? ==> id.rule in rules && id.day in days
    ensures BackingIn(overrideByKey, id) == BackingEvent(events, id)
  {
    if id.RuleOccurrence? {
      var found := FindOverride(events, id.rule, id.day);
      if found.Some? {
        assert found.value in batch && Overrides(found.value, id.rule, id.day);
      }
    }
  }

  /** One query for all rule occurrences: rules IN ... and days IN ..., indexed by the pair. */
  method IndexOverrides(events: seq<EventRow>, occs: seq<Occurrence>)
    returns (overrideByKey: map<(RuleId, Day), EventId>)
    requires OneOverride(events)
    ensures forall o :: o in occs ==> BackingIn(overrideByKey, o.id) == BackingEvent(events, o.id)
  {
    var rules := set o | o in occs && o.id.RuleOccurrence? :: o.id.rule;
    var days := set o | o in occs && o.id.RuleOccurrence? :: o.id.day;
    var batch := Filter(events, InBatch(rules, days));
    overrideByKey := IndexBatch(batch);
    forall o | o in occs ensures BackingIn(overrideByKey, o.id) == BackingEvent(events, o.id) {
      BatchAnswers(events, batch, rules, days, overrideByKey, o.id);
    }
  }

  function ByEvent(): Attendance -> (UserId, EventId) { (a: Attendance) => (a.user, a.event) }

  lemma OneAttendance(attendances: seq<Attendance>, a: Attendance, b: Attendance)
    requires Distinct(attendances, ByEvent()) && a in attendances && b in attendances && a.user == b.user
    requires a.event == b.event
    ensures a == b
  {
    var i :| 0 <= i < |attendances| && attendances[i] == a;
    var j :| 0 <= j < |attendances| && attendances[j] == b;
    assert ByEvent()(attendances[i]) == ByEvent()(attendances[j]);
  }

  /** One query for the runner's attendances on any of the backing events, indexed by event. */
  method IndexAttendances(attendances: seq<Attendance>, user: UserId,
                          wanted: set<EventId>) returns (byEvent: map<EventId, Attendance>, found: seq<Attendance>)
    requires Distinct(attendances, ByEvent())
    ensures forall id :: id in wanted ==>
              (if id in byEvent then Some(byEvent[id]) else None) == FindAttendance(attendances, user, id)
    ensures forall id :: id in byEvent ==> byEvent[id] in found
  {
    found := Filter(attendances, (a: Attendance) => a.user == user && a.event in wanted);
    byEvent := map[];
    for i := 0 to |found|
      invariant forall id :: id in byEvent ==> byEvent[id] in found && byEvent[id].event == id
      invariant forall j :: 0 <= j < i ==> found[j].event in byEvent
    {
      byEvent := byEvent[found[i].event := found[i]];
    }
    forall id | id in wanted
      ensures (if id in byEvent then Some(byEvent[id]) else None) == FindAttendance(attendances, user, id)
    {
      var single := FindAttendance(attendances, user, id);
      if single.Some? {
        assert single.value in found;
        var j :| 0 <= j < |found| && found[j] == single.value;
        assert found[j].event in byEvent;
        OneAttendance(attendances, byEvent[id], single.value);
      }
    }
  }

  function SumIn(points: map<AttendanceId, int>, id: AttendanceId): int { if id in points then points[id] else 0 }

  /** One query for the credits of all found attendances, summed per attendance. */
  method SumCredits(rows: seq<Row>, user: UserId, ids: set<AttendanceId>) returns (points: map<AttendanceId, int>)
    ensures forall id :: id in ids ==> SumIn(points, id) == CreditSum(rows, Some(user), id)
  {
    points := map[];
    for i := 0 to |rows|
      invariant forall id :: id in ids ==> SumIn(points, id) == CreditSum(rows[..i], Some(user), id)
    {
      var row := rows[i];
      assert rows[..i + 1] == rows[..i] + [row];
      forall id | id in ids
        ensures CreditSum(rows[..i + 1], Some(user), id) == CreditSum(rows[..i], Some(user), id)
                + (if CreditsFor(row.posting, Some(user), id) then row.posting.amount else 0)
      {
        CreditSumAppend(rows[..i], row, Some(user), id);
      }
      if row.posting.user == user && row.posting.direction == Credit && row.posting.ref.ToAttendance?
        && row.posting.ref.attendance in ids {
        var id := row.posting.ref.attendance;
        points := points[id := SumIn(points, id) + row.posting.amount];
      }
    }
    assert rows[..|rows|] == rows;
  }

  ghost predicate GroupedByDate(occs: seq<Occurrence>, keys: seq<Day>, groups: map<Day, seq<Occurrence>>) {
    && Distinct(keys, (d: Day) => d)
    && (forall d :: d in keys <==> d in DatesOf(occs))
    && (forall d :: d in groups <==> d in keys)
    && (forall d :: d in groups ==> groups[d] == Filter(occs, OnDay(d)) && |groups[d]| > 0)
  }

  lemma NextDates(occs: seq<Occurrence>, o: Occurrence)
    ensures DatesOf(occs + [o]) == DatesOf(occs) + {DayOf(o.startsAt)}
  {}

  lemma NextMembers(occs: seq<Occurrence>, o: Occurrence, d: Day)
    ensures Filter(occs + [o], OnDay(d)) ==
            if DayOf(o.startsAt) == d then Filter(occs, OnDay(d)) + [o] else Filter(occs, OnDay(d))
    ensures d !in DatesOf(occs) ==> Filter(occs, OnDay(d)) == []
  {
    FilterAppend(occs, o, OnDay(d));
    if d !in DatesOf(occs) {
      FilterNone(occs, OnDay(d));
    }
  }

  lemma NextGroup(occs: seq<Occurrence>, keys: seq<Day>, groups: map<Day, seq<Occurrence>>, o: Occurrence)
    requires GroupedByDate(occs, keys, groups)
    ensures var d := DayOf(o.startsAt);
            GroupedByDate(occs + [o], if d in groups then keys else keys + [d],
                          groups[d := (if d in groups then groups[d] else []) + [o]])
  {
    var d := DayOf(o.startsAt);
    var moreKeys := if d in groups then keys else keys + [d];
    var moreGroups := groups[d := (if d in groups then groups[d] else []) + [o]];
    assert Distinct(moreKeys, (k: Day) => k) by {
      if d !in groups {
        DistinctAppend(keys, d, (k: Day) => k);
      }
    }
    forall k ensures k in moreKeys <==> k in DatesOf(occs + [o]) {
      NextDates(occs, o);
    }
    forall k | k in moreGroups ensures moreGroups[k] == Filter(occs + [o], OnDay(k)) && |moreGroups[k]| > 0 {
      NextMembers(occs, o, k);
    }
  }

  /** Groups by start day; `keys` is the order in which the days were first met. */
  method GroupByDate(occs: seq<Occurrence>) returns (keys: seq<Day>, groups: map<Day, seq<Occurrence>>)
    ensures GroupedByDate(occs, keys, groups)
  {
    keys, groups := [], map[];
    for i := 0 to |occs|
      invariant GroupedByDate(occs[..i], keys, groups)
    {
      var o := occs[i];
      var d := DayOf(o.startsAt);
      assert occs[..i + 1] == occs[..i] + [o];
      NextGroup(occs[..i], keys, groups, o);
      var before := if d in groups then groups[d] else [];
      if d !in groups {
        keys := keys + [d];
      }
      groups := groups[d := before + [o]];
    }
    assert occs[..|occs|] == occs;
  }

  // ---------------------------------------------------------------- the grid

  function EarlierDay(): (Day, Day) -> bool { (a: Day, b: Day) => a <= b }

  function AttendanceIn(x: Indexes, o: Occurrence): Option<Attendance> {
    var backing := BackingIn(x.overrideByKey, o.id);
    if backing.Some? && backing.value in x.byEvent then Some(x.byEvent[backing.value]) else None
  }

  /** The indexes give the attendance the single look-up gives. */
  ghost predicate Agrees(v: View, o: Occurrence, x: Indexes) { AttendanceOn(v, o) == AttendanceIn(x, o) }

  /** Every attendance in the index has its credits summed. */
  ghost predicate SumsRead(v: View, x: Indexes) {
    forall id :: id in x.byEvent ==>
      SumIn(x.points, x.byEvent[id].id) == CreditSum(v.rows, Some(v.user), x.byEvent[id].id)
  }

  /** The first attended event of the day, from the indexes. */
  method FindAttended(ghost v: View, day: seq<Occurrence>, x: Indexes) returns (attended: Option<Attendance>)
    requires forall o :: o in day ==> Agrees(v, o, x)
    ensures attended == FirstAttended(v, day)
    ensures attended.Some? ==> exists id :: id in x.byEvent && x.byEvent[id] == attended.value
  {
    for i := 0 to |day|
      invariant FirstAttended(v, day) == FirstAttended(v, day[i..])
    {
      assert day[i] in day && Agrees(v, day[i], x);
      assert day[i..][0] == day[i] && day[i..][1..] == day[i + 1..];
      var backing := BackingIn(x.overrideByKey, day[i].id);
      if backing.Some? && backing.value in x.byEvent {
        return Some(x.byEvent[backing.value]);
      }
    }
    attended := None;
  }

  /** One cell, from the indexes. */
  method MakeCell(v: View, day: seq<Occurrence>, x: Indexes) returns (cell: Cell)
    requires |day| > 0 && SumsRead(v, x)
    requires forall o :: o in day ==> Agrees(v, o, x)
    ensures cell == CellOf(v, day)
  {
    var face := day[0];
    var attended := FindAttended(v, day, x);
    var kind := if attended.Some? then Done else KindOf(face, v.now);
    var earned := None;
    if attended.Some? && SumIn(x.points, attended.value.id) > 0 {
      earned := Some(SumIn(x.points, attended.value.id));
    }
    var going := I.IsGoing(v.interests, v.user, KeyOfId(face.id));
    cell := Cell(DayOf(face.startsAt), face, kind, earned, Actionable(kind) && going);
  }

  function DoneCells(cells: seq<Cell>): seq<Cell> { Filter(cells, (c: Cell) => c.kind == Done) }

  ghost predicate DayCell(v: View, occs: seq<Occurrence>, d: Day, cell: Cell) {
    var day := Filter(occs, OnDay(d));
    |day| > 0 && cell == CellOf(v, day)
  }

  /** One cell per distinct day, in strictly increasing order, each as the single look-ups say. */
  ghost predicate GridOf(grid: Grid, v: View, occs: seq<Occurrence>) {
    && (forall i, j :: 0 <= i < j < |grid.cells| ==> grid.cells[i].date < grid.cells[j].date)
    && (forall d :: d in DatesOf(occs) <==> exists c :: c in grid.cells && c.date == d)
    && (forall c | c in grid.cells :: DayCell(v, occs, c.date, c))
    && grid.total == |grid.cells| && grid.done == |DoneCells(grid.cells)| && grid.done <= grid.total
  }

  method MakeCells(v: View, ghost occs: seq<Occurrence>, dates: seq<Day>, groups: map<Day, seq<Occurrence>>, x: Indexes)
    returns (cells: seq<Cell>)
    requires forall d :: d in dates ==> d in groups
    requires forall d :: d in groups ==> groups[d] == Filter(occs, OnDay(d)) && |groups[d]| > 0
    requires SumsRead(v, x) && forall o :: o in occs ==> Agrees(v, o, x)
    ensures |cells| == |dates|
    ensures forall j :: 0 <= j < |dates| ==> DayCell(v, occs, dates[j], cells[j])
  {
    cells := [];
    for i := 0 to |dates|
      invariant |cells| == i
      invariant forall j :: 0 <= j < i ==> DayCell(v, occs, dates[j], cells[j])
    {
      assert dates[i] in dates;
      var cell := MakeCell(v, groups[dates[i]], x);
      cells := cells + [cell];
    }
  }

  lemma DateOfCell(v: View, occs: seq<Occurrence>, d: Day, cell: Cell)
    requires DayCell(v, occs, d, cell)
    ensures cell.date == d
  {
    assert Filter(occs, OnDay(d))[0] in Filter(occs, OnDay(d));
  }

  lemma CellsFormGrid(v: View, occs: seq<Occurrence>, dates: seq<Day>, grid: Grid)
    requires Sorted(dates, EarlierDay()) && Distinct(dates, (d: Day) => d)
    requires forall d :: d in dates <==> d in DatesOf(occs)
    requires |grid.cells| == |dates| && grid.total == |dates| && grid.done == |DoneCells(grid.cells)|
    requires forall j :: 0 <= j < |dates| ==> DayCell(v, occs, dates[j], grid.cells[j])
    ensures GridOf(grid, v, occs)
  {
    forall j | 0 <= j < |dates| ensures grid.cells[j].date == dates[j] {
      DateOfCell(v, occs, dates[j], grid.cells[j]);
    }
    forall i, j | 0 <= i < j < |grid.cells| ensures grid.cells[i].date < grid.cells[j].date {
      assert EarlierDay()(dates[i], dates[j]) && ((d: Day) => d)(dates[i]) != ((d: Day) => d)(dates[j]);
    }
    forall d ensures d in DatesOf(occs) <==> exists c :: c in grid.cells && c.date == d {
      if d in dates {
        var j :| 0 <= j < |dates| && dates[j] == d;
        assert grid.cells[j] in grid.cells;
      }
    }
  }

  method MakeGrid(v: View, occs: seq<Occurrence>) returns (grid: Grid)
    requires OneOverride(v.events) && Distinct(v.attendances, ByEvent())
    ensures GridOf(grid, v, occs)
  {
    var keys, groups := GroupByDate(occs);
    var overrideByKey := IndexOverrides(v.events, occs);
    var wanted := set o | o in occs && BackingIn(overrideByKey, o.id).Some? :: BackingIn(overrideByKey, o.id).value;
    var byEvent, found := IndexAttendances(v.attendances, v.user, wanted);
    var points := SumCredits(v.rows, v.user, set a | a in found :: a.id);
    var x := Indexes(overrideByKey, byEvent, points);
    forall o | o in occs ensures Agrees(v, o, x) {
      assert BackingIn(overrideByKey, o.id) == BackingEvent(v.events, o.id);
    }
    var dates := Sort(keys, EarlierDay());
    var cells := MakeCells(v, occs, dates, groups, x);
    SortSorts(keys, EarlierDay());
    SortDistinct(keys, EarlierDay(), (d: Day) => d);
    grid := Grid(cells, |DoneCells(cells)|, |cells|);
    CellsFormGrid(v, occs, dates, grid);
  }

  // ---------------------------------------------------------------- the endpoint

  ghost predicate IsListing(cat: Catalog, from: Instant, to: Instant, occs: seq<Occurrence>) {
    (forall o :: o in occs <==> Listed(cat, from, to, o)) && Sorted(occs, Order()) && Distinct(occs, OccId())
  }

  lemma {:induction false} CountOfKeys(keys: seq<Day>, dates: set<Day>)
    requires Distinct(keys, (d: Day) => d) && forall d :: d in keys <==> d in dates
    ensures |keys| == |dates|
    decreases |keys|
  {
    if |keys| > 0 {
      var n := |keys| - 1;
      var front, last := keys[..n], keys[n];
      assert last in keys;
      forall i | 0 <= i < n ensures front[i] != last {
        assert ((d: Day) => d)(keys[i]) != ((d: Day) => d)(keys[n]);
      }
      forall i, j | 0 <= i < j < |front| ensures ((d: Day) => d)(front[i]) != ((d: Day) => d)(front[j]) {
        assert ((d: Day) => d)(keys[i]) != ((d: Day) => d)(keys[j]);
      }
      assert keys == front + [last];
      CountOfKeys(front, dates - {last});
    } else {
      assert forall d :: d in dates <==> d in keys;
      assert dates == {};
    }
  }

  /** The month's grid; a month with fewer than four days of events is shown with the month before it. */
  method Build(rules: seq<Rule>, v: View, previousStart: Instant, monthStart: Instant,
               monthEnd: Instant) returns (grid: Grid)
    requires Formed(Catalog(rules, v.events)) && Distinct(v.attendances, ByEvent())
    ensures exists month, shown ::
              && IsListing(Catalog(rules, v.events), monthStart, monthEnd, month)
              && IsListing(Catalog(rules, v.events), if |DatesOf(month)| < 4 then previousStart else monthStart,
                           monthEnd, shown)
              && GridOf(grid, v, shown)
  {
    var cat := Catalog(rules, v.events);
    var month := ListInRange(cat, monthStart, monthEnd);
    var shown := month;
    var keys, groups := GroupByDate(month);
    CountOfKeys(keys, DatesOf(month));
    if |keys| < 4 {
      shown := ListInRange(cat, previousStart, monthEnd);
    }
    grid := MakeGrid(v, shown);
    assert IsListing(cat, monthStart, monthEnd, month);
    assert IsListing(cat, if |DatesOf(month)| < 4 then previousStart else monthStart, monthEnd, shown);
  }

  // ---------------------------------------------------------------- what a cell says

  /** A cell is done if and only if the runner attended some event of that day, each event found by its own
      single look-up; it shows points if and only if the credits of the attendance it found are positive. */
  lemma CellIsDone(v: View, occs: seq<Occurrence>, d: Day, cell: Cell)
    requires DayCell(v, occs, d, cell)
    ensures cell.kind == Done <==>
            exists o, a :: o in occs && DayOf(o.startsAt) == d && a in v.attendances && a.user == v.user
                           && BackingEvent(v.events, o.id) == Some(a.event)
    ensures cell.points.Some? ==> cell.kind == Done && cell.points.value > 0
    ensures cell.isGoing ==>
              cell.kind != Done && cell.kind != Skipped && I.IsGoing(v.interests, v.user, KeyOfId(cell.face.id))
  {
    var day := Filter(occs, OnDay(d));
    if cell.kind == Done {
      var o :| o in day && AttendanceOn(v, o).Some?;
      var a := AttendanceOn(v, o).value;
      assert o in occs && DayOf(o.startsAt) == d && a in v.attendances && BackingEvent(v.events, o.id) == Some(a.event);
    }
    forall o, a | o in occs && DayOf(o.startsAt) == d && a in v.attendances && a.user == v.user
      && BackingEvent(v.events, o.id) == Some(a.event)
      ensures cell.kind == Done
    {
      assert o in day && AttendanceOn(v, o).Some?;
    }
  }

  function PublicId(e: EventRow): OccurrenceId {
    if e.rule.Some? && e.overrides.Some? then RuleOccurrence(e.rule.value, e.overrides.value) else Standalone(e.id)
  }

  /** The row behind a listed id: an override of exactly that (rule, day), or a row that overrides nothing. */
  lemma BackingRow(cat: Catalog, from: Instant, to: Instant, o: Occurrence)
    requires Formed(cat) && Listed(cat, from, to, o) && BackingEvent(cat.events, o.id).Some?
    ensures exists e :: e in cat.events && BackingEvent(cat.events, o.id) == Some(e.id) && o.id == PublicId(e)
  {
    if FromStandalone(cat, from, to, o) {
      var e :| e in cat.events && Visible(e, from, to) && !IsOverride(e) && o == FromEvent(e, None);
    } else {
      var r, t :| r in cat.rules && InScope(r, from, to, t) && Entry(cat, from, to, r, t, o);
      assert o.id == RuleOccurrence(r.id, DayOf(t));
      var e := FindOverride(cat.events, r.id, DayOf(t)).value;
    }
  }

  /** No two listed occurrences share a stored event: an attendance marks one day only. */
  lemma BackingIsInjective(cat: Catalog, from: Instant, to: Instant, o: Occurrence, p: Occurrence)
    requires Formed(cat) && Listed(cat, from, to, o) && Listed(cat, from, to, p)
    requires BackingEvent(cat.events, o.id).Some? && BackingEvent(cat.events, o.id) == BackingEvent(cat.events, p.id)
    ensures o.id == p.id
  {
    BackingRow(cat, from, to, o);
    BackingRow(cat, from, to, p);
  }

  /** The face of a day is its earliest event. On a day with a special event it is a special one if and
      only if some special event starts no later than every other: a special later in the day is not
      the face, whatever the comment says. */
  lemma FaceIsSpecial(occs: seq<Occurrence>, d: Day)
    requires Sorted(occs, Order()) && exists o :: o in occs && DayOf(o.startsAt) == d && o.kind == Special
    ensures |Filter(occs, OnDay(d))| > 0
    ensures Filter(occs, OnDay(d))[0].kind == Special <==>
            exists o :: o in occs && DayOf(o.startsAt) == d && o.kind == Special
                        && forall p :: p in occs && DayOf(p.startsAt) == d ==> o.startsAt <= p.startsAt
  {
    var day := Filter(occs, OnDay(d));
    var s :| s in occs && DayOf(s.startsAt) == d && s.kind == Special;
    assert s in day;
    SortedFilter(occs, OnDay(d), Order());
    forall p | p in day ensures Before(day[0], p) {
      var i :| 0 <= i < |day| && day[i] == p;
      assert i > 0 ==> Order()(day[0], day[i]);
    }
    assert day[0] in day;
  }

  /** A regular run in the morning and a special one in the evening of day 0. */
  function MorningAndEvening(): Catalog {
    Catalog([], [EventRow(1, Regular, true, 1, 2, None, None, [], []),
                 EventRow(2, Special, true, 3, 4, None, None, [], [])])
  }

  function FirstOfTwo(): Occurrence { Occurrence(Standalone(1), false, Regular, 1, 2, []) }

  function SecondOfTwo(): Occurrence { Occurrence(Standalone(2), false, Special, 3, 4, []) }

  lemma TwoListed(o: Occurrence)
    ensures Listed(MorningAndEvening(), 0, DAY_MS - 1, o) <==> o == FirstOfTwo() || o == SecondOfTwo()
  {
    var cat := MorningAndEvening();
    assert cat.events[0] in cat.events && cat.events[1] in cat.events;
    assert FromEvent(cat.events[0], None) == FirstOfTwo() && FromEvent(cat.events[1], None) == SecondOfTwo();
    if FromStandalone(cat, 0, DAY_MS - 1, o) {
      var e :| e in cat.events && Visible(e, 0, DAY_MS - 1) && !IsOverride(e) && o == FromEvent(e, None);
      assert e == cat.events[0] || e == cat.events[1];
    }
  }

  lemma ThirdDiffers(occs: seq<Occurrence>)
    requires Distinct(occs, OccId()) && |occs| > 2
    ensures occs[2] in occs && occs[2] != occs[0] && occs[2] != occs[1]
  {
    assert OccId()(occs[0]) != OccId()(occs[2]) && OccId()(occs[1]) != OccId()(occs[2]);
  }

  lemma FirstIsEarliest(occs: seq<Occurrence>, o: Occurrence)
    requires Sorted(occs, Order()) && o in occs
    ensures occs[0].startsAt <= o.startsAt
  {
    var i :| 0 <= i < |occs| && occs[i] == o;
    assert i > 0 ==> Order()(occs[0], occs[i]);
  }

  lemma TwoInOrder(occs: seq<Occurrence>, a: Occurrence, b: Occurrence)
    requires Sorted(occs, Order()) && Distinct(occs, OccId()) && a.startsAt < b.startsAt
    requires forall o :: o in occs <==> o == a || o == b
    ensures occs == [a, b]
  {
    assert a in occs && b in occs;
    FirstIsEarliest(occs, a);
    assert occs[0] in occs;
    var j :| 0 <= j < |occs| && occs[j] == b;
    assert occs[1] in occs && OccId()(occs[0]) != OccId()(occs[1]);
    if |occs| > 2 {
      ThirdDiffers(occs);
    }
  }

  lemma ListingOfTwo(occs: seq<Occurrence>)
    requires IsListing(MorningAndEvening(), 0, DAY_MS - 1, occs)
    ensures occs == [FirstOfTwo(), SecondOfTwo()]
  {
    forall o ensures o in occs <==> o == FirstOfTwo() || o == SecondOfTwo() {
      TwoListed(o);
    }
    TwoInOrder(occs, FirstOfTwo(), SecondOfTwo());
  }

  lemma BothThatDay(occs: seq<Occurrence>)
    requires |occs| == 2 && DayOf(occs[0].startsAt) == 0 && DayOf(occs[1].startsAt) == 0
    ensures Filter(occs, OnDay(0)) == occs
  {
    FilterAll(occs, OnDay(0));
  }

  /** Its listing is in one order only, and the regular run is the face of the day. */
  lemma RegularFacesTheDay(occs: seq<Occurrence>)
    requires IsListing(MorningAndEvening(), 0, DAY_MS - 1, occs)
    ensures Formed(MorningAndEvening())
    ensures Filter(occs, OnDay(0)) == [FirstOfTwo(), SecondOfTwo()]
    ensures FirstOfTwo().kind == Regular && SecondOfTwo().kind == Special
  {
    ListingOfTwo(occs);
    BothThatDay(occs);
  }
}
