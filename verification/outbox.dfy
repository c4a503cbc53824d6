/** The scanner's sender: a live worker, a disk outbox and a background flusher. */
module Outbox {
  import opened Domain

  datatype Scan = Scan(code: string, scanId: nat, scannedAt: Instant)

  /** A line of the outbox file: a scan written by `append`, or something unreadable that is skipped. */
  datatype FileLine = Payload(scan: Scan) | Corrupt

  /** How one POST ends. A 2xx or 4xx reply counts as delivered; the server may or may not have
      stored the scan when no reply, or a 5xx one, comes back. */
  datatype Outcome = Accepted | Rejected | ReplyLost | NotReached

  predicate Delivered(o: Outcome) { o == Accepted || o == Rejected }

  function Scans(lines: seq<FileLine>): seq<Scan> {
    if |lines| == 0 then []
    else Scans(lines[..|lines| - 1]) + (if lines[|lines| - 1].Payload? then [lines[|lines| - 1].scan] else [])
  }

  lemma ScansAppend(lines: seq<FileLine>, scan: Scan)
    ensures Scans(lines + [Payload(scan)]) == Scans(lines) + [scan]
  {
    assert (lines + [Payload(scan)])[..|lines|] == lines;
  }

  // ---------------------------------------------------------------- one thread at a time, as code

  /** The scans of a batch whose POST was not delivered, in order. */
  function Undelivered(batch: seq<Scan>, outcomes: seq<Outcome>): seq<Scan>
    requires |batch| == |outcomes|
  {
    if |batch| == 0 then []
    else
      var n := |batch| - 1;
      Undelivered(batch[..n], outcomes[..n]) + (if Delivered(outcomes[n]) then [] else [batch[n]])
  }

  class OutboxFile {
    var lines: seq<FileLine>

    constructor ()
      ensures lines == []
    {
      lines := [];
    }

    method AppendScan(scan: Scan)
      modifies this
      ensures lines == old(lines) + [Payload(scan)]
    {
      lines := lines + [Payload(scan)];
    }

    /** Empties the file and returns its readable scans in order. */
    method Drain() returns (out: seq<Scan>)
      modifies this
      ensures lines == [] && out == Scans(old(lines))
    {
      var read := lines;
      lines := [];
      out := [];
      for i := 0 to |read|
        invariant out == Scans(read[..i]) && lines == []
      {
        assert read[..i + 1][..i] == read[..i];
        match read[i] {
          case Payload(scan) => out := out + [scan];
          case Corrupt =>
        }
      }
      assert read[..|read|] == read;
    }
  }

  class Sender {
    const outbox: OutboxFile
    var queue: seq<Scan>

    constructor (outbox: OutboxFile)
      ensures this.outbox == outbox && queue == []
    {
      this.outbox, queue := outbox, [];
    }

    method Submit(scan: Scan)
      modifies this
      ensures queue == old(queue) + [scan]
    {
      queue := queue + [scan];
    }

    /** One turn of the worker: the oldest scan leaves the queue, and the program only when delivered. */
    method WorkerTurn(outcome: Outcome) returns (scan: Scan)
      requires |queue| > 0
      modifies this, outbox
      ensures scan == old(queue)[0] && queue == old(queue)[1..]
      ensures Scans(outbox.lines) == Scans(old(outbox.lines)) + (if Delivered(outcome) then [] else [scan])
    {
      scan := queue[0];
      queue := queue[1..];
      if !Delivered(outcome) {
        ScansAppend(outbox.lines, scan);
        outbox.AppendScan(scan);
      }
    }

    /** One turn of the flusher: posts every buffered scan and puts back the undelivered ones, in order. */
    method FlusherTurn(outcomes: seq<Outcome>) returns (batch: seq<Scan>)
      requires |outcomes| == |Scans(outbox.lines)|
      modifies outbox
      ensures batch == Scans(old(outbox.lines))
      ensures Scans(outbox.lines) == Undelivered(batch, outcomes)
    {
      batch := outbox.Drain();
      for i := 0 to |batch|
        invariant Scans(outbox.lines) == Undelivered(batch[..i], outcomes[..i])
      {
        assert batch[..i + 1][..i] == batch[..i] && outcomes[..i + 1][..i] == outcomes[..i];
        if !Delivered(outcomes[i]) {
          ScansAppend(outbox.lines, batch[i]);
          outbox.AppendScan(batch[i]);
        }
      }
      assert batch[..|batch|] == batch && outcomes[..|batch|] == outcomes;
    }
  }

  // ---------------------------------------------------------------- both threads interleaved

  /** The worker's hand: nothing, a scan being posted, or one whose POST failed and is to be buffered. */
  datatype Hand = Empty | Posting(scan: Scan) | Buffering(scan: Scan)

  /** `batch` is what the flusher drained and has not posted yet, `retry` the one it must put back.
      `journal` are the scans the server stored. The last three fields are history. */
  datatype State = State(queue: seq<Scan>, hand: Hand, file: seq<FileLine>, batch: seq<Scan>, retry: Option<Scan>,
                         journal: set<Scan>, submitted: multiset<Scan>, accepted: multiset<Scan>,
                         rejected: multiset<Scan>)

  const BOOT := State([], Empty, [], [], None, {}, multiset{}, multiset{}, multiset{})

  datatype Step =
    | Submit(scan: Scan)
    | WorkerGet
    | WorkerPost(outcome: Outcome)
    | WorkerBuffer
    | FlusherDrain
    | FlusherPost(outcome: Outcome)
    | FlusherBuffer

  /** What a POST of `scan` does to the server and, when delivered, to the handled scans. */
  function Posted(s: State, scan: Scan, o: Outcome): State {
    var stored := if o == Accepted || o == ReplyLost then s.journal + {scan} else s.journal;
    s.(journal := stored,
       accepted := if o == Accepted then s.accepted + multiset{scan} else s.accepted,
       rejected := if o == Rejected then s.rejected + multiset{scan} else s.rejected)
  }

  function Apply(s: State, step: Step): State {
    match step
    case Submit(scan) => s.(queue := s.queue + [scan], submitted := s.submitted + multiset{scan})
    case WorkerGet =>
      if s.hand == Empty && |s.queue| > 0 then s.(queue := s.queue[1..], hand := Posting(s.queue[0])) else s
    case WorkerPost(o) =>
      if !s.hand.Posting? then s
      else Posted(s, s.hand.scan, o).(hand := if Delivered(o) then Empty else Buffering(s.hand.scan))
    case WorkerBuffer =>
      if !s.hand.Buffering? then s else s.(file := s.file + [Payload(s.hand.scan)], hand := Empty)
    case FlusherDrain =>
      if s.batch == [] && s.retry.None? then s.(batch := Scans(s.file), file := []) else s
    case FlusherPost(o) =>
      if s.batch == [] || s.retry.Some? then s
      else Posted(s, s.batch[0], o).(batch := s.batch[1..], retry := if Delivered(o) then None else Some(s.batch[0]))
    case FlusherBuffer =>
      if s.retry.None? then s else s.(file := s.file + [Payload(s.retry.value)], retry := None)
  }

  function Run(s: State, steps: seq<Step>): State
    decreases |steps|
  {
    if |steps| == 0 then s else Run(Apply(s, steps[0]), steps[1..])
  }

  function InHand(h: Hand, scan: Scan): nat { if h.Empty? || h.scan != scan then 0 else 1 }

  function InRetry(r: Option<Scan>, scan: Scan): nat { if r == Some(scan) then 1 else 0 }

  /** How often a scan occurs over every place it can be: queue, worker's hand, outbox file, drained
      batch, flusher's hand, handled. */
  function Places(s: State, scan: Scan): nat {
    multiset(s.queue)[scan] + InHand(s.hand, scan) + multiset(Scans(s.file))[scan] + multiset(s.batch)[scan]
    + InRetry(s.retry, scan) + s.accepted[scan] + s.rejected[scan]
  }

  /** Each submission is in exactly one place, and an accepted scan is stored by the server. */
  ghost predicate Conserved(s: State) {
    && (forall scan :: Places(s, scan) == s.submitted[scan])
    && (forall scan :: scan in s.accepted ==> scan in s.journal)
  }

  lemma TakeFirst(scans: seq<Scan>)
    requires |scans| > 0
    ensures forall scan :: multiset(scans)[scan] == multiset(scans[1..])[scan] + (if scan == scans[0] then 1 else 0)
  {
    assert scans == [scans[0]] + scans[1..];
  }

  /** A POST moves its scan to the handled ones exactly when delivered, and never forgets a stored one. */
  lemma PostCounts(s: State, scan: Scan, o: Outcome)
    requires Conserved(s)
    ensures var t := Posted(s, scan, o);
            && (forall x :: t.accepted[x] + t.rejected[x] ==
                            s.accepted[x] + s.rejected[x] + (if Delivered(o) && x == scan then 1 else 0))
            && (forall x :: x in t.accepted ==> x in t.journal)
  {}

  lemma WorkerPostConserves(s: State, o: Outcome)
    requires Conserved(s)
    ensures Conserved(Apply(s, WorkerPost(o)))
  {
    if s.hand.Posting? {
      PostCounts(s, s.hand.scan, o);
      var t := Apply(s, WorkerPost(o));
      forall x ensures Places(t, x) == Places(s, x) {}
    }
  }

  lemma WorkerGetConserves(s: State)
    requires Conserved(s)
    ensures Conserved(Apply(s, WorkerGet))
  {
    if s.hand == Empty && |s.queue| > 0 {
      TakeFirst(s.queue);
      var t := Apply(s, WorkerGet);
      forall x ensures Places(t, x) == Places(s, x) {}
    }
  }

  lemma WorkerBufferConserves(s: State)
    requires Conserved(s)
    ensures Conserved(Apply(s, WorkerBuffer))
  {
    if s.hand.Buffering? {
      ScansAppend(s.file, s.hand.scan);
    }
  }

  lemma DrainConserves(s: State)
    requires Conserved(s)
    ensures Conserved(Apply(s, FlusherDrain))
  {
    assert Scans([]) == [];
  }

  lemma FlusherPostConserves(s: State, o: Outcome)
    requires Conserved(s)
    ensures Conserved(Apply(s, FlusherPost(o)))
  {
    if |s.batch| > 0 && s.retry.None? {
      TakeFirst(s.batch);
      PostCounts(s, s.batch[0], o);
      var t := Apply(s, FlusherPost(o));
      forall x ensures Places(t, x) == Places(s, x) {}
    }
  }

  lemma FlusherBufferConserves(s: State)
    requires Conserved(s)
    ensures Conserved(Apply(s, FlusherBuffer))
  {
    if s.retry.Some? {
      ScansAppend(s.file, s.retry.value);
    }
  }

  lemma StepConserves(s: State, step: Step)
    requires Conserved(s)
    ensures Conserved(Apply(s, step))
  {
    match step
    case Submit(_) =>
    case FlusherDrain => DrainConserves(s);
    case FlusherPost(o) => FlusherPostConserves(s, o);
    case FlusherBuffer => FlusherBufferConserves(s);
    case WorkerGet => WorkerGetConserves(s);
    case WorkerPost(o) => WorkerPostConserves(s, o);
    case WorkerBuffer => WorkerBufferConserves(s);
  }

  /** No scan lost: in every crash-free interleaving of submissions, worker and flusher, whatever the
      network does, each submitted scan is in exactly one place. */
  lemma {:induction false} NoScanLost(s: State, steps: seq<Step>)
    requires Conserved(s)
    ensures Conserved(Run(s, steps))
    decreases |steps|
  {
    if |steps| > 0 {
      StepConserves(s, steps[0]);
      NoScanLost(Apply(s, steps[0]), steps[1..]);
    }
  }

  lemma BootIsConserved()
    ensures Conserved(BOOT)
  {}

  // ---------------------------------------------------------------- once the network is back

  /** Work left: how many more steps each scan needs until it is handled. */
  function Left(s: State): nat {
    2 * |s.queue| + (match s.hand case Empty => 0 case Posting(_) => 1 case Buffering(_) => 4)
    + 3 * |Scans(s.file)| + 2 * |s.batch| + (if s.retry.Some? then 4 else 0)
  }

  /** A step with nothing submitted and every POST delivered. */
  predicate Calm(step: Step) {
    match step
    case Submit(_) => false
    case WorkerPost(o) => Delivered(o)
    case FlusherPost(o) => Delivered(o)
    case _ => true
  }

  /** Every calm step that changes anything brings the end nearer, except draining an empty outbox. */
  lemma CalmStepsDescend(s: State, step: Step)
    requires Calm(step) && Apply(s, step) != s
    ensures || Left(Apply(s, step)) < Left(s)
            || (step == FlusherDrain && Scans(s.file) == [] && Left(Apply(s, step)) == Left(s))
  {
    match step
    case WorkerBuffer => ScansAppend(s.file, s.hand.scan);
    case FlusherBuffer => ScansAppend(s.file, s.retry.value);
    case FlusherDrain => assert Scans([]) == [];
    case _ =>
  }

  /** While anything is left, the worker or the flusher has a step that brings the end nearer, whatever its
      POST is answered. */
  function NextStep(s: State, o: Outcome): Step {
    if s.hand.Posting? then WorkerPost(o)
    else if s.hand.Buffering? then WorkerBuffer
    else if |s.queue| > 0 then WorkerGet
    else if s.retry.Some? then FlusherBuffer
    else if |s.batch| > 0 then FlusherPost(o)
    else FlusherDrain
  }

  lemma SomeoneCanMove(s: State, o: Outcome)
    requires Left(s) > 0 && Delivered(o)
    ensures Calm(NextStep(s, o)) && Left(Apply(s, NextStep(s, o))) < Left(s)
  {
    if s.hand.Buffering? {
      ScansAppend(s.file, s.hand.scan);
    }
    if s.retry.Some? {
      ScansAppend(s.file, s.retry.value);
    }
    assert Scans([]) == [];
  }

  /** Nothing left means nothing outside the handled set. */
  lemma NothingLeft(s: State)
    requires Conserved(s) && Left(s) == 0
    ensures s.accepted + s.rejected == s.submitted
  {
    assert s.queue == [] && s.batch == [] && Scans(s.file) == [];
  }

  // ---------------------------------------------------------------- emptying the queue, then one flush

  /** Answers to a series of POSTs, each a 2xx or a 4xx. */
  predicate AllDelivered(outcomes: seq<Outcome>) { forall i :: 0 <= i < |outcomes| ==> Delivered(outcomes[i]) }

  /** The flusher posts its batch, with these answers. */
  function Deliveries(outcomes: seq<Outcome>): seq<Step> {
    if |outcomes| == 0 then [] else [FlusherPost(outcomes[0])] + Deliveries(outcomes[1..])
  }

  /** The worker takes and posts scan after scan, with these answers. */
  function WorkerRounds(outcomes: seq<Outcome>): seq<Step> {
    if |outcomes| == 0 then [] else [WorkerGet, WorkerPost(outcomes[0])] + WorkerRounds(outcomes[1..])
  }

  lemma RunFirst(s: State, step: Step, rest: seq<Step>)
    ensures Run(s, [step] + rest) == Run(Apply(s, step), rest)
  {
    assert ([step] + rest)[1..] == rest;
  }

  lemma {:induction false} RunConcat(s: State, xs: seq<Step>, ys: seq<Step>)
    ensures Run(s, xs + ys) == Run(Run(s, xs), ys)
    decreases |xs|
  {
    if |xs| == 0 {
      assert xs + ys == ys;
    } else {
      assert (xs + ys)[1..] == xs[1..] + ys;
      RunConcat(Apply(s, xs[0]), xs[1..], ys);
    }
  }

  lemma OneRound(s: State, got: State, next: State, o: Outcome)
    requires Conserved(s) && s.hand == Empty && |s.queue| > 0 && Delivered(o)
    requires got == Apply(s, WorkerGet) && next == Apply(got, WorkerPost(o))
    ensures Conserved(next) && |next.queue| == |s.queue| - 1 && next.hand == Empty && next.submitted == s.submitted
    ensures next.file == s.file && next.batch == s.batch && next.retry == s.retry
  {
    WorkerGetConserves(s);
    WorkerPostConserves(got, o);
  }

  lemma RoundThenRest(s: State, got: State, next: State, outcomes: seq<Outcome>)
    requires |outcomes| > 0 && got == Apply(s, WorkerGet) && next == Apply(got, WorkerPost(outcomes[0]))
    ensures Run(s, WorkerRounds(outcomes)) == Run(next, WorkerRounds(outcomes[1..]))
  {
    var post, rest := WorkerPost(outcomes[0]), WorkerRounds(outcomes[1..]);
    assert WorkerRounds(outcomes) == [WorkerGet] + ([post] + rest);
    RunFirst(s, WorkerGet, [post] + rest);
    RunFirst(got, post, rest);
  }

  lemma {:induction false} QueueEmpties(s: State, outcomes: seq<Outcome>)
    requires Conserved(s) && s.hand == Empty && |outcomes| == |s.queue| && AllDelivered(outcomes)
    ensures var end := Run(s, WorkerRounds(outcomes));
            && Conserved(end) && end.queue == [] && end.hand == Empty && end.submitted == s.submitted
            && end.file == s.file && end.batch == s.batch && end.retry == s.retry
    decreases |outcomes|
  {
    if |outcomes| > 0 {
      var got := Apply(s, WorkerGet);
      var next := Apply(got, WorkerPost(outcomes[0]));
      OneRound(s, got, next, outcomes[0]);
      QueueEmpties(next, outcomes[1..]);
      RoundThenRest(s, got, next, outcomes);
    }
  }

  /** Everything but the batch and what became of it. */
  ghost predicate SameElsewhere(s: State, t: State) {
    s.queue == t.queue && s.hand == t.hand && s.file == t.file && s.submitted == t.submitted
  }

  lemma OneDelivery(s: State, next: State, o: Outcome)
    requires Conserved(s) && s.retry.None? && |s.batch| > 0 && Delivered(o) && next == Apply(s, FlusherPost(o))
    ensures Conserved(next) && next.retry.None? && |next.batch| == |s.batch| - 1 && SameElsewhere(s, next)
  {
    FlusherPostConserves(s, o);
  }

  lemma {:induction false} BatchEmpties(s: State, outcomes: seq<Outcome>)
    requires Conserved(s) && s.retry.None? && |outcomes| == |s.batch| && AllDelivered(outcomes)
    ensures var end := Run(s, Deliveries(outcomes));
            Conserved(end) && end.batch == [] && end.retry.None? && SameElsewhere(s, end)
    decreases |outcomes|
  {
    if |outcomes| > 0 {
      var next := Apply(s, FlusherPost(outcomes[0]));
      OneDelivery(s, next, outcomes[0]);
      BatchEmpties(next, outcomes[1..]);
      RunFirst(s, FlusherPost(outcomes[0]), Deliveries(outcomes[1..]));
    }
  }

  function WorkerSettling(hand: Hand, posted: Outcome): seq<Step> {
    match hand
    case Empty => []
    case Posting(_) => [WorkerPost(posted)]
    case Buffering(_) => [WorkerBuffer]
  }

  /** The two threads finish what they hold: the worker's scan, then the flusher's retry and batch. */
  function Settling(s: State, posted: Outcome, outcomes: seq<Outcome>): seq<Step> {
    WorkerSettling(s.hand, posted) + (if s.retry.Some? then [FlusherBuffer] else []) + Deliveries(outcomes)
  }

  lemma WorkerSettles(s: State, posted: Outcome, steps: seq<Step>)
    requires Conserved(s) && Delivered(posted) && steps == WorkerSettling(s.hand, posted)
    ensures var end := Run(s, steps);
            && Conserved(end) && end.hand == Empty && end.batch == s.batch && end.retry == s.retry
            && end.queue == s.queue && end.submitted == s.submitted
  {
    if s.hand != Empty {
      StepConserves(s, steps[0]);
      assert steps == [steps[0]] + [];
      RunFirst(s, steps[0], []);
    }
  }

  lemma FlusherSettles(s: State, steps: seq<Step>)
    requires Conserved(s) && s.hand == Empty && steps == if s.retry.Some? then [FlusherBuffer] else []
    ensures var end := Run(s, steps);
            && Conserved(end) && end.hand == Empty && end.batch == s.batch && end.retry.None?
            && end.queue == s.queue && end.submitted == s.submitted
  {
    if s.retry.Some? {
      FlusherBufferConserves(s);
      assert steps == [FlusherBuffer] + [];
      RunFirst(s, FlusherBuffer, []);
    }
  }

  lemma Settled(s: State, posted: Outcome, outcomes: seq<Outcome>)
    requires Conserved(s) && Delivered(posted) && |outcomes| == |s.batch| && AllDelivered(outcomes)
    ensures var end := Run(s, Settling(s, posted, outcomes));
            && Conserved(end) && end.hand == Empty && end.batch == [] && end.retry.None?
            && end.queue == s.queue && end.submitted == s.submitted
  {
    var worker := WorkerSettling(s.hand, posted);
    var flusher: seq<Step> := if s.retry.Some? then [FlusherBuffer] else [];
    WorkerSettles(s, posted, worker);
    var idle := Run(s, worker);
    FlusherSettles(idle, flusher);
    BatchEmpties(Run(idle, flusher), outcomes);
    RunConcat(s, worker + flusher, Deliveries(outcomes));
    RunConcat(s, worker, flusher);
  }

  function OneFlush(outcomes: seq<Outcome>): seq<Step> { [FlusherDrain] + Deliveries(outcomes) }

  /** A flush with the network back empties outbox and batch. */
  lemma FlushEmpties(s: State, outcomes: seq<Outcome>)
    requires Conserved(s) && s.batch == [] && s.retry.None? && |outcomes| == |Scans(s.file)| && AllDelivered(outcomes)
    ensures var end := Run(s, OneFlush(outcomes));
            && Conserved(end) && end.batch == [] && end.retry.None? && end.file == []
            && end.queue == s.queue && end.hand == s.hand && end.submitted == s.submitted
  {
    var drained := Apply(s, FlusherDrain);
    DrainConserves(s);
    BatchEmpties(drained, outcomes);
    RunFirst(s, FlusherDrain, Deliveries(outcomes));
  }

  /** Once POSTs are delivered, each with a 2xx or a 4xx answer, and submissions stop: whatever happened before
      and wherever the two threads are, finishing what they hold, emptying the queue and then one flush leave
      every scan ever submitted handled, and each is stored by the server or was refused by it. */
  lemma OneFlushHandlesEverything(s: State, before: seq<Step>, posted: Outcome, batch: seq<Outcome>,
                                  queue: seq<Outcome>, flush: seq<Outcome>)
    requires Conserved(s) && Delivered(posted) && AllDelivered(batch) && AllDelivered(queue) && AllDelivered(flush)
    requires var mid := Run(s, before);
             var settled := Run(mid, Settling(mid, posted, batch));
             |batch| == |mid.batch| && |queue| == |mid.queue| && |flush| == |Scans(settled.file)|
    ensures var mid := Run(s, before);
            var settled := Run(mid, Settling(mid, posted, batch));
            var end := Run(Run(settled, WorkerRounds(queue)), OneFlush(flush));
            && end.accepted + end.rejected == mid.submitted && Left(end) == 0
            && (forall scan :: scan in mid.submitted ==> scan in end.journal || scan in end.rejected)
  {
    NoScanLost(s, before);
    var mid := Run(s, before);
    Settled(mid, posted, batch);
    var settled := Run(mid, Settling(mid, posted, batch));
    QueueEmpties(settled, queue);
    var emptied := Run(settled, WorkerRounds(queue));
    FlushEmpties(emptied, flush);
    NothingLeft(Run(emptied, OneFlush(flush)));
  }

  /** From start-up: no scan is ever in two places or none, over every run. */
  lemma NoScanLostFromBoot(steps: seq<Step>)
    ensures forall scan :: Places(Run(BOOT, steps), scan) == Run(BOOT, steps).submitted[scan]
    ensures forall scan :: scan in Run(BOOT, steps).accepted ==> scan in Run(BOOT, steps).journal
  {
    BootIsConserved();
    NoScanLost(BOOT, steps);
  }

  /** A lost reply leaves a scan stored that the scanner takes for undelivered and buffers. */
  lemma LostReplyIsStored(s: State)
    requires s.hand.Posting?
    ensures var end := Apply(Apply(s, WorkerPost(ReplyLost)), WorkerBuffer);
            && s.hand.scan in end.journal && end.accepted == s.accepted && end.rejected == s.rejected
            && end.file == s.file + [Payload(s.hand.scan)]
  {}

  // ---------------------------------------------------------------- the threads' turns are runs of their steps

  /** A turn of the worker is the run take, post, buffer. */
  lemma WorkerTurnIsARun(s: State, o: Outcome)
    requires s.hand == Empty && |s.queue| > 0
    ensures var end := Apply(Apply(Apply(s, WorkerGet), WorkerPost(o)), WorkerBuffer);
            && end.queue == s.queue[1..] && end.hand == Empty && end.batch == s.batch && end.retry == s.retry
            && Scans(end.file) == Scans(s.file) + (if Delivered(o) then [] else [s.queue[0]])
  {
    ScansAppend(s.file, s.queue[0]);
  }

  /** The flusher's posts of its batch, each put back at once when undelivered. */
  function Flushes(outcomes: seq<Outcome>): seq<Step> {
    if |outcomes| == 0 then [] else [FlusherPost(outcomes[0]), FlusherBuffer] + Flushes(outcomes[1..])
  }

  lemma UndeliveredFirst(batch: seq<Scan>, outcomes: seq<Outcome>)
    requires |batch| == |outcomes| > 0
    ensures Undelivered(batch, outcomes) ==
            (if Delivered(outcomes[0]) then [] else [batch[0]]) + Undelivered(batch[1..], outcomes[1..])
    decreases |batch|
  {
    var n := |batch| - 1;
    if n > 0 {
      UndeliveredFirst(batch[..n], outcomes[..n]);
      assert batch[1..][..n - 1] == batch[..n][1..] && outcomes[1..][..n - 1] == outcomes[..n][1..];
    }
  }

  lemma OneFlushed(s: State, o: Outcome, rest: seq<Step>)
    requires s.retry.None? && |s.batch| > 0
    ensures var next := Apply(Apply(s, FlusherPost(o)), FlusherBuffer);
            && Run(s, [FlusherPost(o), FlusherBuffer] + rest) == Run(next, rest)
            && next.retry.None? && next.batch == s.batch[1..] && next.queue == s.queue && next.hand == s.hand
            && Scans(next.file) == Scans(s.file) + (if Delivered(o) then [] else [s.batch[0]])
  {
    assert ([FlusherPost(o), FlusherBuffer] + rest)[1..] == [FlusherBuffer] + rest;
    assert ([FlusherBuffer] + rest)[1..] == rest;
    ScansAppend(s.file, s.batch[0]);
  }

  lemma PutBack(file: seq<Scan>, first: seq<Scan>, rest: seq<Scan>)
    ensures file + first + rest == file + (first + rest)
  {}

  lemma {:induction false} FlushesAreARun(s: State, outcomes: seq<Outcome>)
    requires s.retry.None? && |outcomes| == |s.batch|
    ensures var end := Run(s, Flushes(outcomes));
            && end.batch == [] && end.retry.None? && end.queue == s.queue && end.hand == s.hand
            && Scans(end.file) == Scans(s.file) + Undelivered(s.batch, outcomes)
    decreases |outcomes|
  {
    if |outcomes| > 0 {
      var next := Apply(Apply(s, FlusherPost(outcomes[0])), FlusherBuffer);
      var end := Run(next, Flushes(outcomes[1..]));
      OneFlushed(s, outcomes[0], Flushes(outcomes[1..]));
      assert Run(s, Flushes(outcomes)) == end;
      FlushesAreARun(next, outcomes[1..]);
      UndeliveredFirst(s.batch, outcomes);
      PutBack(Scans(s.file), if Delivered(outcomes[0]) then [] else [s.batch[0]],
              Undelivered(s.batch[1..], outcomes[1..]));
    }
  }

  /** A turn of the flusher is the run drain, then post and put back, scan by scan. */
  lemma FlusherTurnIsARun(s: State, outcomes: seq<Outcome>)
    requires s.batch == [] && s.retry.None? && |outcomes| == |Scans(s.file)|
    ensures var end := Run(s, [FlusherDrain] + Flushes(outcomes));
            && end.batch == [] && end.retry.None? && end.queue == s.queue && end.hand == s.hand
            && Scans(end.file) == Undelivered(Scans(s.file), outcomes)
  {
    RunFirst(s, FlusherDrain, Flushes(outcomes));
    FlushesAreARun(Apply(s, FlusherDrain), outcomes);
  }
}
