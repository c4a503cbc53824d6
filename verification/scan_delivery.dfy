/** From the scanner's queue to the server's journal: both protocols together, joined by POSTs that may be answered,
    refused or given up while the server is still at work. */
module ScanDelivery {
  import opened Domain
  import O = Outbox
  import C = Checkin
  import A = Awards
  import L = CheckinLinks

  datatype Thread = Worker | Flusher

  /** `posting` is the server call of a thread's open POST. */
  datatype State = State(scanner: O.State, server: C.State, posting: map<Thread, nat>)

  datatype Step =
    | Local(local: O.Step)               // what the scanner does between POSTs
    | Send(thread: Thread, call: nat)    // a POST reaches the server
    | AtServer(remote: C.Step)           // any step there, of any call
    | Answered(thread: Thread)           // 2xx: the call has replied
    | Refused(thread: Thread)            // 4xx: turned away at the door, or the look-up threw a 404
    | GivesUp(thread: Thread)            // timeout, no connection, 5xx; the call may live on

  const DEVICE: nat := 0

  function SourceOf(scan: O.Scan): C.Source { C.Device(DEVICE, scan.scanId) }

  /** The scan a thread is posting. */
  function InHand(s: O.State, t: Thread): Option<O.Scan> {
    match t
    case Worker => if s.hand.Posting? then Some(s.hand.scan) else None
    case Flusher => if s.batch != [] && s.retry.None? then Some(s.batch[0]) else None
  }

  function Post(t: Thread, o: O.Outcome): O.Step {
    if t == Worker then O.WorkerPost(o) else O.FlusherPost(o)
  }

  predicate BetweenPosts(step: O.Step) { !step.WorkerPost? && !step.FlusherPost? }

  /** The call has written nothing and will not: it is still looking things up. */
  predicate Unresolved(server: C.State, c: nat) {
    c in server.calls && (server.calls[c].Arrived? || server.calls[c].Resolving?)
  }

  function Finish(s: State, t: Thread, o: O.Outcome): State {
    s.(scanner := O.Apply(s.scanner, Post(t, o)), posting := s.posting - {t})
  }

  /** The thread's call, if it got in, is over at the server. */
  function Abandoned(s: State, t: Thread, cfg: A.Config): State {
    if t in s.posting then s.(server := C.Apply(s.server, C.Lose(s.posting[t]), cfg)) else s
  }

  function Apply(s: State, step: Step, cfg: A.Config): State {
    match step
    case Local(local) => if BetweenPosts(local) then s.(scanner := O.Apply(s.scanner, local)) else s
    case Send(t, c) =>
      if InHand(s.scanner, t).None? || t in s.posting || c in s.server.calls || c in s.posting.Values then s
      else
        s.(server := C.Apply(s.server, C.Arrive(c, SourceOf(InHand(s.scanner, t).value)), cfg),
           posting := s.posting[t := c])
    case AtServer(remote) =>
      if remote.Arrive? && remote.call in s.posting.Values then s else s.(server := C.Apply(s.server, remote, cfg))
    case Answered(t) =>
      if t in s.posting && s.posting[t] in s.server.calls && s.server.calls[s.posting[t]].Replied?
      then Finish(s, t, O.Accepted) else s
    case Refused(t) =>
      if InHand(s.scanner, t).None? || (t in s.posting && !Unresolved(s.server, s.posting[t])) then s
      else Finish(Abandoned(s, t, cfg), t, O.Rejected)
    case GivesUp(t) => if InHand(s.scanner, t).None? then s else Finish(s, t, O.NotReached)
  }

  function Run(s: State, steps: seq<Step>, cfg: A.Config): State
    decreases |steps|
  {
    if |steps| == 0 then s else Run(Apply(s, steps[0], cfg), steps[1..], cfg)
  }

  // ---------------------------------------------------------------- what the two sides know of each other

  function CallSource(c: C.Call): C.Source {
    match c
    case Arrived(source) => source
    case Resolving(source) => source
    case Crediting(source, _, _, _) => source
    case Recording(row) => row.source
    case Replied(row, _) => row.source
  }

  predicate Journalled(server: C.State, scan: O.Scan) { C.FindScan(server.db.journal, SourceOf(scan)).Some? }

  /** An open POST is for the scan in the thread's hand. */
  ghost predicate PostsMatch(s: State) {
    && (forall t :: t in s.posting ==> InHand(s.scanner, t).Some?)
    && (forall t :: t in s.posting && s.posting[t] in s.server.calls ==>
          CallSource(s.server.calls[s.posting[t]]) == SourceOf(InHand(s.scanner, t).value))
    && (forall t, u :: t in s.posting && u in s.posting && t != u ==> s.posting[t] != s.posting[u])
  }

  ghost predicate AcceptedHaveRows(s: State) {
    forall scan :: scan in s.scanner.accepted ==> Journalled(s.server, scan)
  }

  ghost predicate Inv(s: State) {
    && O.Conserved(s.scanner) && C.Inv(s.server) && PostsMatch(s)
    && AcceptedHaveRows(s)
  }

  /** A call keeps its delivery from arrival to reply. */
  lemma SourceStays(s: C.State, step: C.Step, c: nat, cfg: A.Config)
    requires C.Inv(s) && c in s.calls && c in C.Apply(s, step, cfg).calls
    ensures CallSource(C.Apply(s, step, cfg).calls[c]) == CallSource(s.calls[c])
  {
    assert C.CallSound(s.db, s.calls[c]);
  }

  /** Rows are never lost. */
  lemma JournalledStays(s: C.State, step: C.Step, scan: O.Scan, cfg: A.Config)
    requires C.Inv(s) && Journalled(s, scan)
    ensures Journalled(C.Apply(s, step, cfg), scan)
  {
    C.StepKeeps(s, step, cfg);
    var row := C.FindScan(s.db.journal, SourceOf(scan)).value;
    var i :| 0 <= i < |s.db.journal| && s.db.journal[i] == row;
    assert C.Apply(s, step, cfg).db.journal[i] == row;
    assert row in C.Apply(s, step, cfg).db.journal;
  }

  /** A call that has replied has a row for its delivery. */
  lemma RepliedIsJournalled(s: C.State, c: nat, scan: O.Scan)
    requires C.Inv(s) && c in s.calls && s.calls[c].Replied? && CallSource(s.calls[c]) == SourceOf(scan)
    ensures Journalled(s, scan)
  {
    assert C.CallSound(s.db, s.calls[c]);
  }

  // ---------------------------------------------------------------- every step keeps it

  lemma HandStays(s: O.State, step: O.Step, t: Thread)
    requires InHand(s, t).Some? && (BetweenPosts(step) || exists u, o :: u != t && step == Post(u, o))
    ensures InHand(O.Apply(s, step), t) == InHand(s, t)
  {}

  lemma LocalAccepts(s: O.State, step: O.Step)
    requires BetweenPosts(step)
    ensures O.Apply(s, step).accepted == s.accepted
  {}

  lemma LocalKeeps(s: State, local: O.Step, cfg: A.Config)
    requires Inv(s) && BetweenPosts(local)
    ensures Inv(s.(scanner := O.Apply(s.scanner, local)))
  {
    O.StepConserves(s.scanner, local);
    LocalAccepts(s.scanner, local);
    forall t | t in s.posting ensures InHand(O.Apply(s.scanner, local), t) == InHand(s.scanner, t) {
      HandStays(s.scanner, local, t);
    }
  }

  lemma NoNewCall(s: C.State, step: C.Step, c: nat, cfg: A.Config)
    requires step.Arrive? ==> step.call != c
    ensures c in C.Apply(s, step, cfg).calls ==> c in s.calls
  {}

  /** Server steps that bring in no call under an open POST's number. */
  lemma ServerKeeps(s: State, remote: C.Step, cfg: A.Config)
    requires Inv(s) && (remote.Arrive? ==> remote.call !in s.posting.Values)
    ensures Inv(s.(server := C.Apply(s.server, remote, cfg)))
  {
    var later := C.Apply(s.server, remote, cfg);
    C.StepKeeps(s.server, remote, cfg);
    forall scan | scan in s.scanner.accepted ensures Journalled(later, scan) {
      JournalledStays(s.server, remote, scan, cfg);
    }
    forall t | t in s.posting && s.posting[t] in later.calls
      ensures CallSource(later.calls[s.posting[t]]) == SourceOf(InHand(s.scanner, t).value)
    {
      NoNewCall(s.server, remote, s.posting[t], cfg);
      SourceStays(s.server, remote, s.posting[t], cfg);
    }
  }

  lemma SendKeeps(s: State, t: Thread, c: nat, cfg: A.Config)
    requires Inv(s) && InHand(s.scanner, t).Some? && t !in s.posting && c !in s.server.calls && c !in s.posting.Values
    ensures Inv(s.(server := C.Apply(s.server, C.Arrive(c, SourceOf(InHand(s.scanner, t).value)), cfg),
                   posting := s.posting[t := c]))
  {
    ServerKeeps(s, C.Arrive(c, SourceOf(InHand(s.scanner, t).value)), cfg);
  }

  lemma PostAccepts(s: O.State, t: Thread, o: O.Outcome)
    requires InHand(s, t).Some?
    ensures O.Apply(s, Post(t, o)).accepted ==
            if o == O.Accepted then s.accepted + multiset{InHand(s, t).value} else s.accepted
  {}

  lemma FinishPosts(s: State, t: Thread, o: O.Outcome)
    requires PostsMatch(s) && InHand(s.scanner, t).Some?
    ensures PostsMatch(Finish(s, t, o))
  {
    forall u | u in s.posting && u != t ensures InHand(Finish(s, t, o).scanner, u) == InHand(s.scanner, u) {
      HandStays(s.scanner, Post(t, o), u);
    }
  }

  lemma FinishRows(s: State, t: Thread, o: O.Outcome)
    requires AcceptedHaveRows(s) && InHand(s.scanner, t).Some?
    requires o == O.Accepted ==> Journalled(s.server, InHand(s.scanner, t).value)
    ensures AcceptedHaveRows(Finish(s, t, o))
  {
    PostAccepts(s.scanner, t, o);
  }

  /** An answer or a refusal ends the POST; only an accepted one must have its row. */
  lemma FinishKeeps(s: State, t: Thread, o: O.Outcome)
    requires Inv(s) && InHand(s.scanner, t).Some?
    requires o == O.Accepted ==> Journalled(s.server, InHand(s.scanner, t).value)
    ensures Inv(Finish(s, t, o))
  {
    O.StepConserves(s.scanner, Post(t, o));
    FinishPosts(s, t, o);
    FinishRows(s, t, o);
  }

  lemma AbandonedKeeps(s: State, t: Thread, gone: State, cfg: A.Config)
    requires Inv(s) && gone == Abandoned(s, t, cfg)
    ensures Inv(gone) && gone.scanner == s.scanner
  {
    if t in s.posting {
      ServerKeeps(s, C.Lose(s.posting[t]), cfg);
    }
  }

  lemma RefusedKeeps(s: State, t: Thread, cfg: A.Config)
    requires Inv(s) && InHand(s.scanner, t).Some?
    ensures Inv(Finish(Abandoned(s, t, cfg), t, O.Rejected))
  {
    var gone := Abandoned(s, t, cfg);
    AbandonedKeeps(s, t, gone, cfg);
    FinishKeeps(gone, t, O.Rejected);
  }

  lemma StepKeeps(s: State, step: Step, cfg: A.Config)
    requires Inv(s)
    ensures Inv(Apply(s, step, cfg))
  {
    match step
    case Local(local) =>
      if BetweenPosts(local) {
        LocalKeeps(s, local, cfg);
      }
    case Send(t, c) =>
      if Apply(s, step, cfg) != s {
        SendKeeps(s, t, c, cfg);
      }
    case AtServer(remote) =>
      if !(remote.Arrive? && remote.call in s.posting.Values) {
        ServerKeeps(s, remote, cfg);
      }
    case Answered(t) =>
      if t in s.posting && s.posting[t] in s.server.calls && s.server.calls[s.posting[t]].Replied? {
        RepliedIsJournalled(s.server, s.posting[t], InHand(s.scanner, t).value);
        FinishKeeps(s, t, O.Accepted);
      }
    case Refused(t) =>
      if Apply(s, step, cfg) != s {
        RefusedKeeps(s, t, cfg);
      }
    case GivesUp(t) =>
      if InHand(s.scanner, t).Some? {
        FinishKeeps(s, t, O.NotReached);
      }
  }

  lemma {:induction false} EveryRunKeeps(s: State, steps: seq<Step>, cfg: A.Config)
    requires Inv(s)
    ensures Inv(Run(s, steps, cfg))
    decreases |steps|
  {
    if |steps| > 0 {
      StepKeeps(s, steps[0], cfg);
      EveryRunKeeps(Apply(s, steps[0], cfg), steps[1..], cfg);
    }
  }

  // ---------------------------------------------------------------- end to end

  /** Scanner and server just started. */
  ghost predicate Started(s: State) { s.scanner == O.BOOT && C.Initial(s.server) && s.posting == map[] }

  lemma StartedIsSound(s: State)
    requires Started(s)
    ensures Inv(s)
  {
    O.BootIsConserved();
    C.InitialIsSound(s.server);
  }

  /** End to end, over every run of both sides: every scan is in exactly one place; every scan answered with a 2xx has
      its one journal row; and once nothing is left at the scanner every scan ever submitted has its row, unless
      a POST of it was refused. */
  lemma EveryScanAccounted(s: State, steps: seq<Step>, cfg: A.Config)
    requires Started(s)
    ensures var end := Run(s, steps, cfg);
            && (forall scan :: O.Places(end.scanner, scan) == end.scanner.submitted[scan])
            && (forall scan :: scan in end.scanner.accepted ==> Journalled(end.server, scan))
            && C.JournalUnique(end.server.db.journal)
            && (O.Left(end.scanner) == 0 ==> forall scan :: scan in end.scanner.submitted ==>
                  Journalled(end.server, scan) || scan in end.scanner.rejected)
  {
    StartedIsSound(s);
    EveryRunKeeps(s, steps, cfg);
    var end := Run(s, steps, cfg);
    if O.Left(end.scanner) == 0 {
      O.NothingLeft(end.scanner);
      forall scan | scan in end.scanner.submitted ensures scan in end.scanner.accepted || scan in end.scanner.rejected {
        assert end.scanner.submitted[scan] == end.scanner.accepted[scan] + end.scanner.rejected[scan];
      }
    }
  }

  /** The step stores a row for this scan's delivery. */
  predicate Stores(s: State, step: Step, scan: O.Scan) {
    && step.AtServer? && step.remote.Record? && step.remote.call in s.server.calls
    && s.server.calls[step.remote.call].Recording?
    && C.SameDelivery(s.server.calls[step.remote.call].row.source, SourceOf(scan))
  }

  predicate EverStores(s: State, steps: seq<Step>, scan: O.Scan, cfg: A.Config)
    decreases |steps|
  {
    |steps| > 0 && (Stores(s, steps[0], scan) || EverStores(Apply(s, steps[0], cfg), steps[1..], scan, cfg))
  }

  lemma StepJournals(s: State, step: Step, scan: O.Scan, cfg: A.Config)
    ensures Journalled(Apply(s, step, cfg).server, scan) <==> Journalled(s.server, scan) || Stores(s, step, scan)
  {
    var server := Apply(s, step, cfg).server;
    match step
    case AtServer(remote) =>
      if server != s.server {
        L.StoresExactly(s.server, remote, SourceOf(scan), cfg);
      }
    case Send(t, c) =>
      if server != s.server {
        L.StoresExactly(s.server, C.Arrive(c, SourceOf(InHand(s.scanner, t).value)), SourceOf(scan), cfg);
      }
    case Refused(t) =>
      if server != s.server {
        L.StoresExactly(s.server, C.Lose(s.posting[t]), SourceOf(scan), cfg);
      }
    case _ =>
  }

  /** Nothing but the insert of a call of its own delivery ever gives a scan a row, and no step takes it away: not
      the scanner, not a call of another delivery, not a POST refused at the door or whose look-up threw. */
  lemma {:induction false} StoredOnlyByInserts(s: State, steps: seq<Step>, scan: O.Scan, cfg: A.Config)
    ensures Journalled(Run(s, steps, cfg).server, scan) <==>
            Journalled(s.server, scan) || EverStores(s, steps, scan, cfg)
    decreases |steps|
  {
    if |steps| > 0 {
      StepJournals(s, steps[0], scan, cfg);
      StoredOnlyByInserts(Apply(s, steps[0], cfg), steps[1..], scan, cfg);
    }
  }

  /** One POST: a 2xx answer means the scan has its row; a refusal drops the scan and leaves the journal alone, so the
      scan has a row afterwards if and only if some other delivery of it stored one before. */
  lemma DeliveredExactly(s: State, t: Thread, cfg: A.Config)
    requires Inv(s) && InHand(s.scanner, t).Some?
    ensures var scan := InHand(s.scanner, t).value;
            && (Apply(s, Answered(t), cfg) != s ==> Journalled(Apply(s, Answered(t), cfg).server, scan))
            && (Journalled(Apply(s, Refused(t), cfg).server, scan) <==> Journalled(s.server, scan))
  {
    var scan := InHand(s.scanner, t).value;
    StepJournals(s, Refused(t), scan, cfg);
    if Apply(s, Answered(t), cfg) != s {
      RepliedIsJournalled(s.server, s.posting[t], scan);
    }
  }

  /** The worker posts a scan, the server finds it new, and the look-up throws. */
  function RefusedOnce(scan: O.Scan): seq<Step> {
    [Local(O.Submit(scan)), Local(O.WorkerGet), Send(Worker, 0), AtServer(C.LookupPrior(0)), Refused(Worker)]
  }

  lemma RunFirst(s: State, step: Step, rest: seq<Step>, cfg: A.Config)
    ensures Run(s, [step] + rest, cfg) == Run(Apply(s, step, cfg), rest, cfg)
  {
    assert ([step] + rest)[1..] == rest;
  }

  lemma RunFive(s: State, v: Step, w: Step, x: Step, y: Step, z: Step, cfg: A.Config)
    ensures Run(s, [v, w, x, y, z], cfg) ==
            Apply(Apply(Apply(Apply(Apply(s, v, cfg), w, cfg), x, cfg), y, cfg), z, cfg)
  {
    var none: seq<Step> := [];
    assert [v, w, x, y, z] == [v] + ([w] + ([x] + ([y] + ([z] + none))));
    var a := Apply(s, v, cfg);
    var b := Apply(a, w, cfg);
    var c := Apply(b, x, cfg);
    var d := Apply(c, y, cfg);
    RunFirst(s, v, [w] + ([x] + ([y] + ([z] + none))), cfg);
    RunFirst(a, w, [x] + ([y] + ([z] + none)), cfg);
    RunFirst(b, x, [y] + ([z] + none), cfg);
    RunFirst(c, y, [z] + none, cfg);
    RunFirst(d, z, none, cfg);
  }

  lemma RefusedOnceIs(s: State, scan: O.Scan, cfg: A.Config)
    ensures Run(s, RefusedOnce(scan), cfg) ==
            var held := Apply(Apply(s, Local(O.Submit(scan)), cfg), Local(O.WorkerGet), cfg);
            var sent := Apply(held, Send(Worker, 0), cfg);
            Apply(Apply(sent, AtServer(C.LookupPrior(0)), cfg), Refused(Worker), cfg)
  {
    RunFive(s, Local(O.Submit(scan)), Local(O.WorkerGet), Send(Worker, 0), AtServer(C.LookupPrior(0)), Refused(Worker),
            cfg);
  }

  /** One scan whose look-up throws: the scanner counts it as handled, nothing is left to send, and the server has no
      trace of it. */
  lemma RefusedScanLeavesNoTrace(scan: O.Scan, cfg: A.Config)
    ensures var s := State(O.BOOT, L.OneRunner(), map[]);
            var end := Run(s, RefusedOnce(scan), cfg);
            && Started(s)
            && end.scanner.submitted == end.scanner.rejected == multiset{scan} && O.Left(end.scanner) == 0
            && end.server.db == s.server.db && !Journalled(end.server, scan)
  {
    L.OneRunnerIsInitial();
    var s := State(O.BOOT, L.OneRunner(), map[]);
    RefusedOnceIs(s, scan, cfg);
    var held := Apply(Apply(s, Local(O.Submit(scan)), cfg), Local(O.WorkerGet), cfg);
    var d := Apply(Apply(held, Send(Worker, 0), cfg), AtServer(C.LookupPrior(0)), cfg);
    assert d.server.calls[0] == C.Resolving(SourceOf(scan));
  }
}
