/** The scanner's main loop: which decoded codes become scans, in what order, and that what runners' codes are
    typed is what gets submitted. */
module ScannerLoop {
  import opened Domain
  import W = Wifi
  import K = Keyboard
  import O = Outbox
  import D = ScanDelivery
  import A = Awards

  /** What a submission is stamped with when it is made. */
  datatype Stamp = Stamp(scanId: nat, scannedAt: Instant)

  function Stamped(code: string, stamp: Stamp): O.Scan { O.Scan(code, stamp.scanId, stamp.scannedAt) }

  /** A code long enough that is no network is a check-in code. */
  predicate IsCheckin(code: string, minLength: nat) { |code| >= minLength && W.Parse(code).None? }

  predicate IsNetwork(code: string, minLength: nat) { |code| >= minLength && W.Parse(code).Some? }

  function Submissions(codes: seq<string>, stamps: seq<Stamp>, minLength: nat): seq<O.Scan>
    requires |codes| == |stamps|
  {
    if |codes| == 0 then []
    else
      var n := |codes| - 1;
      Submissions(codes[..n], stamps[..n], minLength)
      + (if IsCheckin(codes[n], minLength) then [Stamped(codes[n], stamps[n])] else [])
  }

  function Networks(codes: seq<string>, minLength: nat): seq<W.Network> {
    if |codes| == 0 then []
    else
      var n := |codes| - 1;
      Networks(codes[..n], minLength)
      + (if IsNetwork(codes[n], minLength) then [W.Parse(codes[n]).value] else [])
  }

  /** The loop: too short codes are ignored, network codes joined, every other one submitted. */
  method HandleCodes(codes: seq<string>, stamps: seq<Stamp>, minLength: nat, sender: O.Sender)
    returns (joined: seq<W.Network>)
    requires |codes| == |stamps|
    modifies sender
    ensures sender.queue == old(sender.queue) + Submissions(codes, stamps, minLength)
    ensures joined == Networks(codes, minLength)
  {
    joined := [];
    for i := 0 to |codes|
      invariant sender.queue == old(sender.queue) + Submissions(codes[..i], stamps[..i], minLength)
      invariant joined == Networks(codes[..i], minLength)
    {
      var code := codes[i];
      assert codes[..i + 1][..i] == codes[..i] && stamps[..i + 1][..i] == stamps[..i];
      if |code| < minLength {
        continue;
      }
      var network := W.ParseWifiQr(code);
      if network.Some? {
        joined := joined + [network.value];
        continue;
      }
      sender.Submit(O.Scan(code, stamps[i].scanId, stamps[i].scannedAt));
    }
    assert codes[..|codes|] == codes && stamps[..|codes|] == stamps;
  }

  /** One code: ignored exactly when too short; joined only with the Wi-Fi prefix and a name; else submitted. */
  lemma DispatchExactly(code: string, minLength: nat)
    ensures K.Dispatch(code, minLength) == K.Ignore <==> |code| < minLength
    ensures K.Dispatch(code, minLength) == K.SubmitScan(code) <==> IsCheckin(code, minLength)
    ensures |code| >= minLength && !("WIFI:" <= code) ==> K.Dispatch(code, minLength) == K.SubmitScan(code)
    ensures K.Dispatch(code, minLength).JoinWifi? ==>
              "WIFI:" <= code && K.Dispatch(code, minLength).network.ssid != ""
  {}

  /** Every code long enough goes to exactly one place. */
  lemma {:induction false} NothingDropped(codes: seq<string>, stamps: seq<Stamp>, minLength: nat)
    requires |codes| == |stamps| && forall i :: 0 <= i < |codes| ==> |codes[i]| >= minLength
    ensures |Submissions(codes, stamps, minLength)| + |Networks(codes, minLength)| == |codes|
    decreases |codes|
  {
    if |codes| > 0 {
      var n := |codes| - 1;
      NothingDropped(codes[..n], stamps[..n], minLength);
    }
  }

  /** Codes that start with anything but the Wi-Fi prefix are all submitted, in order, and no network is joined. */
  lemma {:induction false} PlainCodesAreSubmitted(codes: seq<string>, stamps: seq<Stamp>, minLength: nat)
    requires |codes| == |stamps|
    requires forall i :: 0 <= i < |codes| ==> |codes[i]| >= minLength && !("WIFI:" <= codes[i])
    ensures var scans := Submissions(codes, stamps, minLength);
            |scans| == |codes| && forall i :: 0 <= i < |codes| ==> scans[i] == Stamped(codes[i], stamps[i])
    ensures Networks(codes, minLength) == []
    decreases |codes|
  {
    if |codes| > 0 {
      var n := |codes| - 1;
      PlainCodesAreSubmitted(codes[..n], stamps[..n], minLength);
    }
  }

  lemma {:induction false} TextOfLine(lines: seq<K.Line>, i: nat)
    requires i < |lines|
    ensures |K.Texts(lines)| == |lines| && K.Texts(lines)[i] == K.Text(lines[i].strokes)
    decreases |lines|
  {
    if |lines| > 1 {
      TextOfLine(lines[1..], if i > 0 then i - 1 else 0);
    }
  }

  /** However runners' codes are typed, the decoder and the loop make exactly these submissions of them, in order. */
  lemma TypedCodesAreSubmitted(lines: seq<K.Line>, shiftKey: K.Key, stamps: seq<Stamp>, minLength: nat)
    requires K.IsShift(shiftKey) && K.LinesOk(lines, shiftKey, false) && |stamps| == |lines|
    requires forall i :: 0 <= i < |lines| ==>
               |K.Text(lines[i].strokes)| >= minLength && !("WIFI:" <= K.Text(lines[i].strokes))
    ensures var codes := K.SeeAll(K.IDLE, K.LinesEvents(lines, shiftKey, false)).codes;
            && |codes| == |lines| && Networks(codes, minLength) == []
            && var scans := Submissions(codes, stamps, minLength);
               |scans| == |lines|
               && forall i :: 0 <= i < |lines| ==> scans[i] == Stamped(K.Text(lines[i].strokes), stamps[i])
  {
    K.TypedRoundTrip(lines, shiftKey);
    var codes := K.Texts(lines);
    if |lines| > 0 {
      TextOfLine(lines, 0);
    }
    forall i | 0 <= i < |lines| ensures codes[i] == K.Text(lines[i].strokes) {
      TextOfLine(lines, i);
    }
    PlainCodesAreSubmitted(codes, stamps, minLength);
  }

  // ---------------------------------------------------------------- on to the sender and the server

  function SubmitAll(scans: seq<O.Scan>): seq<D.Step> {
    if |scans| == 0 then [] else SubmitAll(scans[..|scans| - 1]) + [D.Local(O.Submit(scans[|scans| - 1]))]
  }

  lemma {:induction false} RunConcat(s: D.State, xs: seq<D.Step>, ys: seq<D.Step>, cfg: A.Config)
    ensures D.Run(s, xs + ys, cfg) == D.Run(D.Run(s, xs, cfg), ys, cfg)
    decreases |xs|
  {
    if |xs| == 0 {
      assert xs + ys == ys;
    } else {
      assert (xs + ys)[1..] == xs[1..] + ys;
      RunConcat(D.Apply(s, xs[0], cfg), xs[1..], ys, cfg);
    }
  }

  lemma RunOne(s: D.State, step: D.Step, cfg: A.Config)
    ensures D.Run(s, [step], cfg) == D.Apply(s, step, cfg)
  {
    assert [step][1..] == [];
  }

  lemma {:induction false} AllQueued(s: D.State, scans: seq<O.Scan>, cfg: A.Config)
    ensures var end := D.Run(s, SubmitAll(scans), cfg);
            && end.server == s.server && end.posting == s.posting
            && end.scanner == s.scanner.(queue := s.scanner.queue + scans,
                                         submitted := s.scanner.submitted + multiset(scans))
    decreases |scans|
  {
    if |scans| == 0 {
      assert s.scanner.queue + [] == s.scanner.queue;
    } else {
      var n := |scans| - 1;
      AllQueued(s, scans[..n], cfg);
      RunConcat(s, SubmitAll(scans[..n]), [D.Local(O.Submit(scans[n]))], cfg);
      RunOne(D.Run(s, SubmitAll(scans[..n]), cfg), D.Local(O.Submit(scans[n])), cfg);
      assert scans == scans[..n] + [scans[n]];
      assert s.scanner.queue + scans[..n] + [scans[n]] == s.scanner.queue + scans;
    }
  }

  lemma {:induction false} SubmittedStays(s: D.State, steps: seq<D.Step>, cfg: A.Config)
    ensures s.scanner.submitted <= D.Run(s, steps, cfg).scanner.submitted
    decreases |steps|
  {
    if |steps| > 0 {
      SubmittedStays(D.Apply(s, steps[0], cfg), steps[1..], cfg);
    }
  }

  /** From a keystroke to a row: codes are typed, decoded and submitted on a scanner just started; whatever happens
      at the scanner and the server from then on, once nothing is left at the scanner each of the codes' scans has
      its journal row, unless a POST of it was refused. */
  lemma TypedCodesAreJournalled(s: D.State, lines: seq<K.Line>, shiftKey: K.Key, stamps: seq<Stamp>, minLength: nat,
                                after: seq<D.Step>, cfg: A.Config, i: nat)
    requires D.Started(s) && K.IsShift(shiftKey) && K.LinesOk(lines, shiftKey, false) && |stamps| == |lines|
    requires forall j :: 0 <= j < |lines| ==>
               |K.Text(lines[j].strokes)| >= minLength && !("WIFI:" <= K.Text(lines[j].strokes))
    requires i < |lines|
    ensures var codes := K.SeeAll(K.IDLE, K.LinesEvents(lines, shiftKey, false)).codes;
            |codes| == |stamps|
            && var steps := SubmitAll(Submissions(codes, stamps, minLength));
               var end := D.Run(D.Run(s, steps, cfg), after, cfg);
               var scan := Stamped(K.Text(lines[i].strokes), stamps[i]);
               scan in end.scanner.submitted
               && (O.Left(end.scanner) == 0 ==> D.Journalled(end.server, scan) || scan in end.scanner.rejected)
  {
    TypedCodesAreSubmitted(lines, shiftKey, stamps, minLength);
    var codes := K.SeeAll(K.IDLE, K.LinesEvents(lines, shiftKey, false)).codes;
    var scans := Submissions(codes, stamps, minLength);
    var queued := D.Run(s, SubmitAll(scans), cfg);
    AllQueued(s, scans, cfg);
    assert scans[i] in multiset(scans);
    SubmittedStays(queued, after, cfg);
    RunConcat(s, SubmitAll(scans), after, cfg);
    D.EveryScanAccounted(s, SubmitAll(scans) + after, cfg);
  }
}
