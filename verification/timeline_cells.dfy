/** What a day's cell shows, spelled out: its kind by the clock, its points and its RSVP mark. */
module TimelineCells {
  import opened Domain
  import opened Seqs
  import opened Ledger
  import opened Recurrence
  import opened RecurrenceViews
  import opened Timeline
  import I = Interests

  /** Whole days from today. */
  function Ahead(d: Day, now: Instant): int { d - DayOf(now) }

  /** The stored event behind a listed id: the event itself, or the one that stands in for the rule's day. */
  ghost predicate Behind(events: seq<EventRow>, id: OccurrenceId, event: EventId) {
    match id
    case Standalone(e) => e == event
    case RuleOccurrence(rule, day) =>
      exists e :: e in events && e.id == event && e.rule == Some(rule) && e.overrides == Some(day)
  }

  lemma BackingIsBehind(events: seq<EventRow>, id: OccurrenceId, event: EventId)
    requires OneOverride(events)
    ensures BackingEvent(events, id) == Some(event) <==> Behind(events, id, event)
  {
    if id.RuleOccurrence? {
      var found := FindOverride(events, id.rule, id.day);
      assert found.Some? ==> Overrides(found.value, id.rule, id.day) && IsOverride(found.value);
      if Behind(events, id, event) {
        var e :| e in events && e.id == event && e.rule == Some(id.rule) && e.overrides == Some(id.day);
        assert Overrides(e, id.rule, id.day) && IsOverride(e);
      }
    }
  }

  /** The runner has an attendance on the stored event behind this occurrence. */
  ghost predicate Attended(v: View, o: Occurrence) {
    exists a :: a in v.attendances && a.user == v.user && Behind(v.events, o.id, a.event)
  }

  ghost predicate AttendedThatDay(v: View, occs: seq<Occurrence>, d: Day) {
    exists o :: o in occs && DayOf(o.startsAt) == d && Attended(v, o)
  }

  lemma DoneWhenAttended(v: View, occs: seq<Occurrence>, d: Day, cell: Cell)
    requires OneOverride(v.events) && DayCell(v, occs, d, cell)
    ensures cell.kind == Done <==> AttendedThatDay(v, occs, d)
  {
    CellIsDone(v, occs, d, cell);
    if AttendedThatDay(v, occs, d) {
      var o :| o in occs && DayOf(o.startsAt) == d && Attended(v, o);
      var a :| a in v.attendances && a.user == v.user && Behind(v.events, o.id, a.event);
      BackingIsBehind(v.events, o.id, a.event);
      assert o in occs && DayOf(o.startsAt) == d && a in v.attendances;
    }
    if cell.kind == Done {
      var o, a :| o in occs && DayOf(o.startsAt) == d && a in v.attendances && a.user == v.user
                  && BackingEvent(v.events, o.id) == Some(a.event);
      BackingIsBehind(v.events, o.id, a.event);
      assert Attended(v, o);
    }
  }

  /** The face is the first of the day's listing, and the kind of a day not attended follows the face's end and its
      distance from today; only a regular run is announced two or three days ahead. */
  lemma KindExactly(v: View, occs: seq<Occurrence>, d: Day, cell: Cell)
    requires OneOverride(v.events) && DayCell(v, occs, d, cell)
    ensures var attended := AttendedThatDay(v, occs, d);
            var over := cell.face.endsAt < v.now;
            var n := Ahead(d, v.now);
            && cell.date == d && cell.face in occs && DayOf(cell.face.startsAt) == d
            && (cell.kind == Done <==> attended)
            && (cell.kind == Skipped <==> !attended && over)
            && (cell.kind == Today <==> !attended && !over && n == 0)
            && (cell.kind == Tomorrow <==> !attended && !over && n == 1)
            && (cell.kind == Soon <==> !attended && !over && cell.face.kind == Regular && (n == 2 || n == 3))
  {
    DoneWhenAttended(v, occs, d, cell);
    var day := Filter(occs, OnDay(d));
    assert day[0] in day && day[0] in occs && OnDay(d)(day[0]);
  }

  /** In a sorted listing the face starts no later than any event of its day. */
  lemma FaceIsEarliest(v: View, occs: seq<Occurrence>, d: Day, cell: Cell, o: Occurrence)
    requires DayCell(v, occs, d, cell) && Sorted(occs, Order()) && o in occs && DayOf(o.startsAt) == d
    ensures cell.face.startsAt <= o.startsAt
    ensures cell.face.startsAt == o.startsAt && o.kind == Special ==> cell.face.kind == Special
  {
    var day := Filter(occs, OnDay(d));
    SortedFilter(occs, OnDay(d), Order());
    assert o in day;
    var i :| 0 <= i < |day| && day[i] == o;
    assert i > 0 ==> Order()(day[0], day[i]);
  }

  /** The mark appears exactly on an unattended, unfinished day up to three ahead whose face the runner has an RSVP
      for that is on: under the event's id for an event, under rule and day for a rule's occurrence. */
  lemma GoingExactly(v: View, occs: seq<Occurrence>, d: Day, cell: Cell)
    requires DayCell(v, occs, d, cell)
    ensures cell.isGoing <==>
              && cell.kind in {Today, Tomorrow, Soon}
              && exists row :: row in v.interests && row.user == v.user && row.status == I.Going
                               && match cell.face.id
                                  case Standalone(event) => row.key == I.UuidKey(event)
                                  case RuleOccurrence(rule, day) => row.key == I.RuleKey(rule, day)
  {
    var key := KeyOfId(cell.face.id);
    assert I.IsGoing(v.interests, v.user, key) <==>
           exists row :: row in v.interests && row.user == v.user && row.status == I.Going && row.key == key by {
      if row :| row in v.interests && row.user == v.user && row.status == I.Going && row.key == key {
        var i :| 0 <= i < |v.interests| && v.interests[i] == row;
        assert v.interests[i].user == v.user;
      }
      if I.IsGoing(v.interests, v.user, key) {
        var i :| 0 <= i < |v.interests| && v.interests[i].user == v.user && v.interests[i].key == key
                 && v.interests[i].status == I.Going;
        assert v.interests[i] in v.interests;
      }
    }
  }

  /** What the runner's attendance earned: the credits posted to the runner for it. */
  function Earned(rows: seq<Row>, user: UserId, id: AttendanceId): int {
    if |rows| == 0 then 0
    else
      var p := rows[|rows| - 1].posting;
      Earned(rows[..|rows| - 1], user, id)
      + (if p.user == user && p.direction == Credit && p.ref == ToAttendance(id) then p.amount else 0)
  }

  lemma {:induction false} EarnedIsCreditSum(rows: seq<Row>, user: UserId, id: AttendanceId)
    ensures CreditSum(rows, Some(user), id) == Earned(rows, user, id)
    decreases |rows|
  {
    if |rows| > 0 {
      EarnedIsCreditSum(rows[..|rows| - 1], user, id);
    }
  }

  lemma {:induction false} FoundOn(v: View, day: seq<Occurrence>)
    requires FirstAttended(v, day).Some?
    ensures exists o :: o in day && AttendanceOn(v, o) == FirstAttended(v, day)
    decreases |day|
  {
    if AttendanceOn(v, day[0]).Some? {
      assert day[0] in day;
    } else {
      FoundOn(v, day[1..]);
      var o :| o in day[1..] && AttendanceOn(v, o) == FirstAttended(v, day[1..]);
      assert o in day;
    }
  }

  lemma {:induction false} FirstFound(v: View, day: seq<Occurrence>)
    requires FirstAttended(v, day).Some?
    ensures exists i :: 0 <= i < |day| && AttendanceOn(v, day[i]) == FirstAttended(v, day)
                        && forall j :: 0 <= j < i ==> AttendanceOn(v, day[j]).None?
    decreases |day|
  {
    if AttendanceOn(v, day[0]).Some? {
      assert AttendanceOn(v, day[0]) == FirstAttended(v, day);
    } else {
      FirstFound(v, day[1..]);
      var i :| 0 <= i < |day[1..]| && AttendanceOn(v, day[1..][i]) == FirstAttended(v, day[1..])
               && forall j :: 0 <= j < i ==> AttendanceOn(v, day[1..][j]).None?;
      assert AttendanceOn(v, day[i + 1]) == FirstAttended(v, day);
      forall j | 0 <= j < i + 1 ensures AttendanceOn(v, day[j]).None? {
        assert j > 0 ==> day[j] == day[1..][j - 1];
      }
    }
  }

  lemma NoneOn(v: View, o: Occurrence)
    requires OneOverride(v.events) && AttendanceOn(v, o).None?
    ensures !Attended(v, o)
  {
    forall a | a in v.attendances && a.user == v.user ensures !Behind(v.events, o.id, a.event) {
      BackingIsBehind(v.events, o.id, a.event);
    }
  }

  /** `a` is the runner's attendance of the first attended event of the day. */
  ghost predicate IsFirst(v: View, day: seq<Occurrence>, i: nat, a: Attendance) {
    && i < |day| && (forall j :: 0 <= j < i ==> !Attended(v, day[j]))
    && a in v.attendances && a.user == v.user && Behind(v.events, day[i].id, a.event)
  }

  lemma FoundIsFirst(v: View, day: seq<Occurrence>, a: Attendance)
    requires OneOverride(v.events) && FirstAttended(v, day) == Some(a)
    ensures exists i :: IsFirst(v, day, i, a)
  {
    FirstFound(v, day);
    var i :| 0 <= i < |day| && AttendanceOn(v, day[i]) == FirstAttended(v, day)
             && forall j :: 0 <= j < i ==> AttendanceOn(v, day[j]).None?;
    BackingIsBehind(v.events, day[i].id, a.event);
    forall j | 0 <= j < i ensures !Attended(v, day[j]) {
      NoneOn(v, day[j]);
    }
    assert IsFirst(v, day, i, a);
  }

  /** Points are those of the runner's attendance of the first attended event of the day, shown when positive. */
  lemma PointsExactly(v: View, occs: seq<Occurrence>, d: Day, cell: Cell)
    requires OneOverride(v.events) && DayCell(v, occs, d, cell) && cell.kind == Done
    ensures exists i, a :: IsFirst(v, Filter(occs, OnDay(d)), i, a)
                           && cell.points == if Earned(v.rows, v.user, a.id) > 0
                                             then Some(Earned(v.rows, v.user, a.id)) else None
  {
    var day := Filter(occs, OnDay(d));
    DoneWhenAttended(v, occs, d, cell);
    var a := FirstAttended(v, day).value;
    EarnedIsCreditSum(v.rows, v.user, a.id);
    FoundIsFirst(v, day, a);
  }

  // ---------------------------------------------------------------- the totals

  function ByDate(): Cell -> Day { (c: Cell) => c.date }

  function Days(cells: seq<Cell>): seq<Day> { seq(|cells|, i requires 0 <= i < |cells| => cells[i].date) }

  lemma CountedDays(cells: seq<Cell>, dates: set<Day>)
    requires Distinct(cells, ByDate())
    requires forall c :: c in cells ==> c.date in dates
    requires forall d :: d in dates ==> exists c :: c in cells && c.date == d
    ensures |cells| == |dates|
  {
    var days := Days(cells);
    forall i, j | 0 <= i < j < |days| ensures ((d: Day) => d)(days[i]) != ((d: Day) => d)(days[j]) {
      assert ByDate()(cells[i]) != ByDate()(cells[j]);
    }
    forall d ensures d in days <==> d in dates {
      if d in days {
        var i :| 0 <= i < |days| && days[i] == d;
        assert cells[i] in cells;
      }
      if d in dates {
        var c :| c in cells && c.date == d;
        var i :| 0 <= i < |cells| && cells[i] == c;
        assert days[i] == d;
      }
    }
    CountOfKeys(days, dates);
  }

  lemma DoneCellsAre(cells: seq<Cell>)
    requires Distinct(cells, ByDate())
    ensures Distinct(DoneCells(cells), ByDate())
    ensures forall c :: c in DoneCells(cells) <==> c in cells && c.kind == Done
  {
    FilterDistinct(cells, (c: Cell) => c.kind == Done, ByDate());
  }

  ghost predicate DoneDate(v: View, occs: seq<Occurrence>, d: Day) {
    d in DatesOf(occs) && AttendedThatDay(v, occs, d)
  }

  lemma DoneCellOf(v: View, occs: seq<Occurrence>, grid: Grid, d: Day)
    requires OneOverride(v.events) && GridOf(grid, v, occs) && DoneDate(v, occs, d)
    ensures exists c :: c in grid.cells && c.kind == Done && c.date == d
  {
    var c :| c in grid.cells && c.date == d;
    DoneWhenAttended(v, occs, d, c);
  }

  lemma DoneCellIs(v: View, occs: seq<Occurrence>, grid: Grid, c: Cell)
    requires OneOverride(v.events) && GridOf(grid, v, occs) && c in grid.cells && c.kind == Done
    ensures DoneDate(v, occs, c.date)
  {
    DoneWhenAttended(v, occs, c.date, c);
  }

  lemma TotalExactly(v: View, occs: seq<Occurrence>, grid: Grid)
    requires OneOverride(v.events) && GridOf(grid, v, occs)
    ensures Distinct(grid.cells, ByDate()) && grid.total == |DatesOf(occs)|
  {
    CountedDays(grid.cells, DatesOf(occs));
  }

  /** The grid counts its days, and as done those the runner attended. */
  lemma TotalsExactly(v: View, occs: seq<Occurrence>, grid: Grid, attended: set<Day>)
    requires OneOverride(v.events) && GridOf(grid, v, occs)
    requires forall d :: d in attended <==> (exists o :: o in occs && DayOf(o.startsAt) == d && Attended(v, o))
    ensures grid.total == |DatesOf(occs)| && grid.done == |attended|
  {
    TotalExactly(v, occs, grid);
    DoneCellsAre(grid.cells);
    forall c | c in DoneCells(grid.cells) ensures c.date in attended {
      DoneCellIs(v, occs, grid, c);
    }
    forall d | d in attended ensures exists c :: c in DoneCells(grid.cells) && c.date == d {
      DoneCellOf(v, occs, grid, d);
      var c :| c in grid.cells && c.kind == Done && c.date == d;
      assert c in DoneCells(grid.cells);
    }
    CountedDays(DoneCells(grid.cells), attended);
  }
}
