/** When the attendance a scan created ends up linked from its journal row, over every interleaving. */
module CheckinLinks {
  import opened Domain
  import opened Ledger
  import opened Awards
  import opened Checkin
  import opened CheckinGuarantees

  // ---------------------------------------------------------------- one journal insert

  lemma LinkedAppend(journal: seq<ScanRow>, row: ScanRow, a: AttendanceId)
    ensures Linked(journal + [row], a) <==> Linked(journal, a) || row.attendance == Some(a)
  {
    var after := journal + [row];
    assert after[|journal|] == row;
    if Linked(journal, a) {
      var i :| 0 <= i < |journal| && journal[i].attendance == Some(a);
      assert after[i].attendance == Some(a);
    }
  }

  /** A call about to record the attendance it created links it if and only if no row of its delivery has been
      stored before. */
  lemma RecordLinksExactly(s: State, id: nat, a: AttendanceId, cfg: Config)
    requires Inv(s) && id in s.calls && s.calls[id].Recording? && s.calls[id].row.attendance == Some(a)
    ensures Linked(Apply(s, Record(id), cfg).db.journal, a) <==> FindScan(s.db.journal, s.calls[id].row.source).None?
  {
    assert CallSound(s.db, s.calls[id]);
    LinkedAppend(s.db.journal, s.calls[id].row, a);
  }

  // ---------------------------------------------------------------- over whole runs

  /** A step stores a row for this delivery. */
  predicate StoresFor(s: State, step: Step, source: Source) {
    && step.Record? && step.call in s.calls && s.calls[step.call].Recording?
    && SameDelivery(s.calls[step.call].row.source, source)
  }

  /** Another call stores a row for this delivery. */
  predicate StoresFirst(s: State, step: Step, id: nat, source: Source) {
    step != Record(id) && StoresFor(s, step, source)
  }

  /** Call `id` records before it dies and before another call stores a row for its delivery. */
  predicate RecordsFirst(s: State, steps: seq<Step>, id: nat, source: Source, cfg: Config)
    decreases |steps|
  {
    && |steps| > 0 && steps[0] != Lose(id) && !StoresFirst(s, steps[0], id, source)
    && (steps[0] == Record(id) || RecordsFirst(Apply(s, steps[0], cfg), steps[1..], id, source, cfg))
  }

  /** Nobody holds or has linked attendance `a`. */
  ghost predicate Unclaimed(s: State, a: AttendanceId) {
    && a in s.db.attendances && !Linked(s.db.journal, a)
    && (forall c :: c in s.calls && s.calls[c].Recording? ==> s.calls[c].row.attendance != Some(a))
  }

  /** What a step does to the journal. */
  lemma JournalStep(s: State, step: Step, cfg: Config)
    ensures var end := Apply(s, step, cfg);
            || end.db.journal == s.db.journal
            || (step.Record? && step.call in s.calls && s.calls[step.call].Recording?
                && FindScan(s.db.journal, s.calls[step.call].row.source).None?
                && end.db.journal == s.db.journal + [s.calls[step.call].row])
  {
    match step
    case PostOther(_) =>
    case _ =>
  }

  lemma LinkedStays(s: State, steps: seq<Step>, a: AttendanceId, cfg: Config)
    requires Inv(s) && Linked(s.db.journal, a)
    ensures Linked(Run(s, steps, cfg).db.journal, a)
  {
    EveryRunKeeps(s, steps, cfg);
    var end := Run(s, steps, cfg).db.journal;
    var i :| 0 <= i < |s.db.journal| && s.db.journal[i].attendance == Some(a);
    assert end[i] == s.db.journal[i];
  }

  /** A call holds an attendance only if it held it before, or has just created it. */
  lemma HoldersStep(s: State, step: Step, c: nat, cfg: Config)
    requires var end := Apply(s, step, cfg);
             c in end.calls && end.calls[c].Recording? && end.calls[c].row.attendance.Some?
    ensures var held := Apply(s, step, cfg).calls[c].row.attendance;
            || (c in s.calls && s.calls[c] == Apply(s, step, cfg).calls[c])
            || (step.CommitCredit? && step.call == c && held == Some(step.newId) && step.newId !in s.db.attendances)
  {}

  lemma NotLinkedStep(s: State, step: Step, a: AttendanceId, cfg: Config)
    requires !Linked(s.db.journal, a)
    requires forall c :: c in s.calls && s.calls[c].Recording? ==> s.calls[c].row.attendance != Some(a)
    ensures !Linked(Apply(s, step, cfg).db.journal, a)
  {
    JournalStep(s, step, cfg);
    if step.Record? && step.call in s.calls && s.calls[step.call].Recording? {
      LinkedAppend(s.db.journal, s.calls[step.call].row, a);
    }
  }

  lemma UnclaimedStep(s: State, step: Step, a: AttendanceId, cfg: Config)
    requires Inv(s) && Unclaimed(s, a)
    ensures Unclaimed(Apply(s, step, cfg), a)
  {
    var end := Apply(s, step, cfg);
    StepKeeps(s, step, cfg);
    NotLinkedStep(s, step, a, cfg);
    forall c | c in end.calls && end.calls[c].Recording? ensures end.calls[c].row.attendance != Some(a) {
      if end.calls[c].row.attendance.Some? {
        HoldersStep(s, step, c, cfg);
      }
    }
  }

  lemma {:induction false} UnclaimedStays(s: State, steps: seq<Step>, a: AttendanceId, cfg: Config)
    requires Inv(s) && Unclaimed(s, a)
    ensures !Linked(Run(s, steps, cfg).db.journal, a)
    decreases |steps|
  {
    if |steps| > 0 {
      StepKeeps(s, steps[0], cfg);
      UnclaimedStep(s, steps[0], a, cfg);
      UnclaimedStays(Apply(s, steps[0], cfg), steps[1..], a, cfg);
    }
  }

  lemma {:induction false} ScanAppend(journal: seq<ScanRow>, row: ScanRow, source: Source)
    ensures FindScan(journal + [row], source).None? <==>
            FindScan(journal, source).None? && !SameDelivery(row.source, source)
    decreases |journal|
  {
    if |journal| > 0 {
      assert (journal + [row])[1..] == journal[1..] + [row];
      ScanAppend(journal[1..], row, source);
    }
  }

  /** A call about to record moves only by recording or dying. */
  lemma WaitingStep(s: State, step: Step, id: nat, cfg: Config)
    requires id in s.calls && s.calls[id].Recording? && step != Record(id) && step != Lose(id)
    ensures var end := Apply(s, step, cfg);
            id in end.calls && end.calls[id] == s.calls[id]
  {}

  lemma StoresExactly(s: State, step: Step, source: Source, cfg: Config)
    ensures FindScan(Apply(s, step, cfg).db.journal, source).Some? <==>
            FindScan(s.db.journal, source).Some? || StoresFor(s, step, source)
  {
    JournalStep(s, step, cfg);
    if step.Record? && step.call in s.calls && s.calls[step.call].Recording? {
      ScanAppend(s.db.journal, s.calls[step.call].row, source);
    }
  }

  /** The delivery gets its row exactly from a step that records one. */
  lemma ScanStep(s: State, step: Step, id: nat, source: Source, cfg: Config)
    requires step != Record(id)
    ensures FindScan(Apply(s, step, cfg).db.journal, source).None? <==>
            FindScan(s.db.journal, source).None? && !StoresFirst(s, step, id, source)
  {
    StoresExactly(s, step, source, cfg);
  }

  /** The call is gone, and nobody else has its attendance. */
  lemma LeftUnclaimed(s: State, step: Step, id: nat, a: AttendanceId, cfg: Config)
    requires Inv(s) && id in s.calls && s.calls[id].Recording? && s.calls[id].row.attendance == Some(a)
    requires step == Lose(id) || (step == Record(id) && FindScan(s.db.journal, s.calls[id].row.source).Some?)
    ensures Unclaimed(Apply(s, step, cfg), a)
  {
    assert CallSound(s.db, s.calls[id]);
    var end := Apply(s, step, cfg);
    forall c | c in end.calls && end.calls[c].Recording? ensures end.calls[c].row.attendance != Some(a) {
      assert c != id && end.calls[c] == s.calls[c];
    }
  }

  /** The attendance a call has created is linked at the end of a run if and only if the call recorded before it
      died and before any other call stored a row for the same delivery. */
  lemma {:induction false} LinkFate(s: State, steps: seq<Step>, id: nat, a: AttendanceId, cfg: Config)
    requires Inv(s) && id in s.calls && s.calls[id].Recording? && s.calls[id].row.attendance == Some(a)
    ensures var source := s.calls[id].row.source;
            Linked(Run(s, steps, cfg).db.journal, a) <==>
            FindScan(s.db.journal, source).None? && RecordsFirst(s, steps, id, source, cfg)
    decreases |steps|
  {
    var source := s.calls[id].row.source;
    if |steps| == 0 {
      assert CallSound(s.db, s.calls[id]);
    } else {
      var step, next := steps[0], Apply(s, steps[0], cfg);
      StepKeeps(s, step, cfg);
      if step == Lose(id) {
        LeftUnclaimed(s, step, id, a, cfg);
        UnclaimedStays(next, steps[1..], a, cfg);
      } else if step == Record(id) {
        RecordLinksExactly(s, id, a, cfg);
        if FindScan(s.db.journal, source).None? {
          LinkedStays(next, steps[1..], a, cfg);
        } else {
          LeftUnclaimed(s, step, id, a, cfg);
          UnclaimedStays(next, steps[1..], a, cfg);
        }
      } else {
        WaitingStep(s, step, id, cfg);
        ScanStep(s, step, id, source, cfg);
        LinkFate(next, steps[1..], id, a, cfg);
      }
    }
  }

  /** From a fresh deployment: whenever in a run a scan creates an attendance, that attendance is linked in the end
      if and only if its call then records before it dies and before another delivery of the same (device, scan)
      does; a leader's scan has no other delivery. */
  lemma CreatedIsLinkedExactly(s: State, before: seq<Step>, id: nat, a: AttendanceId, after: seq<Step>, cfg: Config)
    requires Initial(s)
    requires var mid := Run(s, before, cfg);
             && id in mid.calls && mid.calls[id].Crediting? && a !in mid.db.attendances
             && a in Apply(mid, CommitCredit(id, a), cfg).db.attendances
    ensures var mid := Run(s, before, cfg);
            var source := mid.calls[id].source;
            var created := Apply(mid, CommitCredit(id, a), cfg);
            Linked(Run(created, after, cfg).db.journal, a) <==>
            FindScan(mid.db.journal, source).None? && RecordsFirst(created, after, id, source, cfg)
  {
    InitialIsSound(s);
    EveryRunKeeps(s, before, cfg);
    var mid := Run(s, before, cfg);
    StepKeeps(mid, CommitCredit(id, a), cfg);
    LinkFate(Apply(mid, CommitCredit(id, a), cfg), after, id, a, cfg);
  }

  // ---------------------------------------------------------------- the race, from a fresh deployment

  lemma RunCons(s: State, step: Step, rest: seq<Step>, cfg: Config)
    ensures Run(s, [step] + rest, cfg) == Run(Apply(s, step, cfg), rest, cfg)
  {
    assert ([step] + rest)[1..] == rest;
  }

  lemma RunFour(s: State, w: Step, x: Step, y: Step, z: Step, cfg: Config)
    ensures Run(s, [w, x, y, z], cfg) == Apply(Apply(Apply(Apply(s, w, cfg), x, cfg), y, cfg), z, cfg)
  {
    var none: seq<Step> := [];
    assert [w, x, y, z] == [w] + ([x] + ([y] + ([z] + none)));
    var a := Apply(s, w, cfg);
    var b := Apply(a, x, cfg);
    var c := Apply(b, y, cfg);
    RunCons(s, w, [x] + ([y] + ([z] + none)), cfg);
    RunCons(a, x, [y] + ([z] + none), cfg);
    RunCons(b, y, [z] + none, cfg);
    RunCons(c, z, none, cfg);
  }

  /** Both deliveries up to the point where they are about to credit. */
  function BothResolve(source: Source, user: UserId, e: EventId): seq<Step> {
    [Arrive(0, source), LookupPrior(0), Arrive(1, source), LookupPrior(1), Resolve(0, Some(user), Some(e)),
     Resolve(1, Some(user), Some(e))]
  }

  lemma BothAboutToCredit(s: State, source: Source, user: UserId, e: EventId, cfg: Config)
    requires Initial(s) && source.Device? && e in s.db.events
    ensures var mid := Run(s, BothResolve(source, user, e), cfg);
            && mid.db == s.db && mid.awarded == s.awarded
            && mid.calls == map[0 := Crediting(source, user, s.db.events[e], 0),
                                1 := Crediting(source, user, s.db.events[e], 0)]
  {
    var s1 := Apply(s, Arrive(0, source), cfg);
    var s2 := Apply(s1, LookupPrior(0), cfg);
    var four := [Arrive(1, source), LookupPrior(1), Resolve(0, Some(user), Some(e)), Resolve(1, Some(user), Some(e))];
    assert BothResolve(source, user, e) == [Arrive(0, source)] + ([LookupPrior(0)] + four);
    RunCons(s, Arrive(0, source), [LookupPrior(0)] + four, cfg);
    RunCons(s1, LookupPrior(0), four, cfg);
    RunFour(s2, Arrive(1, source), LookupPrior(1), Resolve(0, Some(user), Some(e)), Resolve(1, Some(user), Some(e)),
            cfg);
  }

  /** A deployment with one runner, one regular event on day 0 worth 50 points, and nothing else. */
  function OneRunner(): State {
    State(Db(Book(map[0 := Account(ActiveAccount, 0)], []), map[0 := Event(0, Regular, 0, 1, true, 50)], map[], []),
          map[], map[])
  }

  function RaceSteps(source: Source): seq<Step> {
    BothResolve(source, 0, 0) + [CommitCredit(0, 1), CommitCredit(1, 2), Record(1), Record(0)]
  }

  lemma OneRunnerIsInitial()
    ensures Initial(OneRunner())
  {}

  lemma RaceFromMiddle(mid: State, source: Source, cfg: Config)
    requires Inv(mid) && source.Device? && mid.db == OneRunner().db
    requires mid.calls == map[0 := Crediting(source, 0, mid.db.events[0], 0),
                              1 := Crediting(source, 0, mid.db.events[0], 0)]
    ensures var end := Run(mid, [CommitCredit(0, 1), CommitCredit(1, 2), Record(1), Record(0)], cfg);
            var row := ScanRow(source, Some(0), Some(0), None, Duplicate);
            && 1 in end.db.attendances && CreditIs(end.db.book, 1, 0, Some(50)) && !Linked(end.db.journal, 1)
            && end.db.journal == [row]
            && 0 in end.calls && 1 in end.calls && end.calls[0] == end.calls[1] == Replied(row, false)
  {
    RunFour(mid, CommitCredit(0, 1), CommitCredit(1, 2), Record(1), Record(0), cfg);
    assert Due(mid.db.events[0], cfg) == Some(50);
    RaceHidesTheCreator(mid, 0, 1, 0, mid.db.events[0], 1, 2, cfg);
  }

  lemma EveryRunFromInitial(s: State, steps: seq<Step>, cfg: Config)
    requires Initial(s)
    ensures Inv(Run(s, steps, cfg))
  {
    InitialIsSound(s);
    EveryRunKeeps(s, steps, cfg);
  }

  /** From there, one scan delivered twice: the runner is credited once, both answers say "duplicate", and no journal
      row links to the credited attendance. */
  lemma RaceFromOneRunner(source: Source, cfg: Config)
    requires source.Device?
    ensures var end := Run(OneRunner(), RaceSteps(source), cfg);
            var row := ScanRow(source, Some(0), Some(0), None, Duplicate);
            && Initial(OneRunner())
            && 1 in end.db.attendances && CreditIs(end.db.book, 1, 0, Some(50)) && !Linked(end.db.journal, 1)
            && end.db.journal == [row]
            && 0 in end.calls && 1 in end.calls && end.calls[0] == end.calls[1] == Replied(row, false)
  {
    var s := OneRunner();
    OneRunnerIsInitial();
    BothAboutToCredit(s, source, 0, 0, cfg);
    EveryRunFromInitial(s, BothResolve(source, 0, 0), cfg);
    RunConcat(s, BothResolve(source, 0, 0), [CommitCredit(0, 1), CommitCredit(1, 2), Record(1), Record(0)], cfg);
    RaceFromMiddle(Run(s, BothResolve(source, 0, 0), cfg), source, cfg);
  }
}
