/** Redemption calls whose status check and write are separate steps, in every interleaving: exactly
    which writes break conservation, and exactly when a status is final. */
module RedemptionRaces {
  import opened Domain
  import opened Ledger
  import opened Redemptions
  import R = RedemptionRuns

  /** A call on a redemption that passed its check and has not written yet. */
  datatype Call = Cancelling(redemption: nat) | Using(redemption: nat)

  datatype State = State(shop: Shop, pending: multiset<Call>)

  datatype Step =
    | CheckCancel(redemption: nat)
    | CheckUse(code: nat, now: Instant)
    | Write(call: Call)
    | Fail(call: Call)
    | Redeem(user: UserId, reward: RewardId, cost: int, request: nat, code: nat, now: Instant)
    | Other(step: R.Step)         // other postings, admin edits, and calls nothing interrupts

  /** The write of a checked call; nothing in it looks at the status again. */
  function Written(s: Shop, call: Call): Shop {
    if call.redemption >= |s.redemptions| then s
    else if call.Cancelling? then CommitCancel(s, call.redemption).0
    else SetStatus(s, call.redemption, Used)
  }

  function Apply(s: State, step: Step): State {
    match step
    case CheckCancel(id) =>
      if id < |s.shop.redemptions| && s.shop.redemptions[id].status == Status.Active
      then s.(pending := s.pending + multiset{Cancelling(id)}) else s
    case CheckUse(code, now) =>
      var at := FindCode(s.shop.redemptions, |s.shop.redemptions|, code);
      if at.Some? && UseProblem(s.shop.redemptions[at.value], now).None?
      then s.(pending := s.pending + multiset{Using(at.value)}) else s
    case Write(call) =>
      if call in s.pending then State(Written(s.shop, call), s.pending - multiset{call}) else s
    case Fail(call) => s.(pending := s.pending - multiset{call})
    case Redeem(user, reward, cost, request, code, now) =>
      // the transaction of a redeem whose checks passed at any earlier time, at the cost it read then
      s.(shop := CommitRedeem(s.shop, user, reward, cost, request, code, now).0)
    case Other(step) => s.(shop := R.Apply(s.shop, step))
  }

  function Run(s: State, steps: seq<Step>): State
    decreases |steps|
  {
    if |steps| == 0 then s else Run(Apply(s, steps[0]), steps[1..])
  }

  // ---------------------------------------------------------------- which writes break conservation

  lemma FirstCancel(s: Shop, id: nat)
    requires R.Inv(s) && id < |s.redemptions| && s.redemptions[id].status != Cancelled && CommitCancel(s, id).1.Ok?
    ensures R.Inv(CommitCancel(s, id).0)
  {
    var later := CommitCancel(s, id).0;
    assert !HasKey(s.book.rows, RefundKey(id));
    AppendKeepsValid(s.book, Refund(s, id));
    R.CancelledBacking(s, later, id);
    R.CancelledRefunds(s, later, id);
    R.CancelledCounts(s, later, id);
  }

  lemma SecondCancel(s: Shop, id: nat)
    requires R.Inv(s) && id < |s.redemptions| && s.redemptions[id].status == Cancelled && CommitCancel(s, id).1.Ok?
    ensures !R.CountsMatch(CommitCancel(s, id).0)
  {
    var later := CommitCancel(s, id).0;
    var w := s.redemptions[id].reward;
    assert HasKey(s.book.rows, RefundKey(id));
    assert later.redemptions == s.redemptions;
    assert s.rewards[w].sold == R.HeldCount(s.redemptions, w);
  }

  /** A cancel that commits keeps the counts if and only if the redemption is not cancelled already. */
  lemma CancelKeepsCountsExactly(s: Shop, id: nat)
    requires R.Inv(s) && id < |s.redemptions| && CommitCancel(s, id).1.Ok?
    ensures R.CountsMatch(CommitCancel(s, id).0) <==> s.redemptions[id].status != Cancelled
    ensures s.redemptions[id].status != Cancelled ==> R.Inv(CommitCancel(s, id).0)
  {
    var later := CommitCancel(s, id).0;
    if s.redemptions[id].status == Cancelled {
      SecondCancel(s, id);
    } else {
      FirstCancel(s, id);
    }
  }

  lemma RevivedBreaks(s: Shop, id: nat)
    requires R.RefundsMatch(s) && id < |s.redemptions| && s.redemptions[id].status == Cancelled
    ensures !R.RefundsMatch(SetStatus(s, id, Used))
  {
    assert HasKey(SetStatus(s, id, Used).book.rows, RefundKey(id));
  }

  lemma UseKeepsRefunds(s: Shop, id: nat)
    requires R.RefundsMatch(s) && id < |s.redemptions| && s.redemptions[id].status != Cancelled
    ensures R.RefundsMatch(SetStatus(s, id, Used))
  {}

  lemma UseKeepsCounts(s: Shop, id: nat)
    requires R.CountsMatch(s) && id < |s.redemptions| && s.redemptions[id].status != Cancelled
    ensures R.CountsMatch(SetStatus(s, id, Used))
  {
    var later := SetStatus(s, id, Used);
    forall u ensures R.HeldCost(later.redemptions, u) == R.HeldCost(s.redemptions, u) {
      R.SumsUpdate(s.redemptions, id, Used, u, 0);
    }
    forall w ensures R.HeldCount(later.redemptions, w) == R.HeldCount(s.redemptions, w) {
      R.SumsUpdate(s.redemptions, id, Used, 0, w);
    }
  }

  /** A mark-used write keeps conservation if and only if it does not revive a cancelled redemption. */
  lemma UseKeepsExactly(s: Shop, id: nat)
    requires R.Inv(s) && id < |s.redemptions|
    ensures R.Inv(SetStatus(s, id, Used)) <==> s.redemptions[id].status != Cancelled
  {
    if s.redemptions[id].status == Cancelled {
      RevivedBreaks(s, id);
    } else {
      R.StatusChangeKeepsBacking(s, SetStatus(s, id, Used), id, Used);
      UseKeepsCounts(s, id);
      UseKeepsRefunds(s, id);
    }
  }

  /** Calls past their check name stored redemptions. */
  ghost predicate Known(s: State) { forall c :: c in s.pending ==> c.redemption < |s.shop.redemptions| }

  /** A checked call writes to a redemption that has been cancelled since. */
  predicate HitsCancelled(s: State, step: Step) {
    && step.Write? && step.call in s.pending && step.call.redemption < |s.shop.redemptions|
    && s.shop.redemptions[step.call.redemption].status == Cancelled
  }

  lemma SecondCancelCommits(s: Shop, id: nat)
    requires R.Inv(s) && id < |s.redemptions| && s.redemptions[id].status == Cancelled
    ensures CommitCancel(s, id).1.Ok?
  {
    assert HasKey(s.book.rows, RefundKey(id));
    assert s.book.rows[s.redemptions[id].txn].posting.amount == s.redemptions[id].cost;
  }

  lemma WriteKeepsExactly(s: Shop, call: Call)
    requires R.Inv(s) && call.redemption < |s.redemptions|
    ensures R.Inv(Written(s, call)) <==> s.redemptions[call.redemption].status != Cancelled
    ensures |Written(s, call).redemptions| == |s.redemptions|
  {
    match call
    case Using(id) => UseKeepsExactly(s, id);
    case Cancelling(id) =>
      if s.redemptions[id].status == Cancelled {
        SecondCancelCommits(s, id);
      }
      if CommitCancel(s, id).1.Ok? {
        CancelKeepsCountsExactly(s, id);
      }
  }

  /** A step keeps conservation if and only if it is not such a write. */
  lemma StepKeepsExactly(s: State, step: Step)
    requires R.Inv(s.shop) && Known(s)
    ensures R.Inv(Apply(s, step).shop) <==> !HitsCancelled(s, step)
    ensures Known(Apply(s, step))
  {
    match step
    case CheckCancel(_) =>
    case CheckUse(_, _) =>
    case Fail(_) =>
    case Redeem(user, reward, cost, request, code, now) =>
      R.CommitRedeemKeeps(s.shop, user, reward, cost, request, code, now);
    case Other(other) => R.StepKeeps(s.shop, other);
    case Write(call) =>
      if call in s.pending {
        WriteKeepsExactly(s.shop, call);
      }
  }

  ghost predicate SoundThroughout(s: State, steps: seq<Step>)
    decreases |steps|
  {
    R.Inv(s.shop) && (|steps| > 0 ==> SoundThroughout(Apply(s, steps[0]), steps[1..]))
  }

  predicate NeverHits(s: State, steps: seq<Step>)
    decreases |steps|
  {
    |steps| > 0 ==> !HitsCancelled(s, steps[0]) && NeverHits(Apply(s, steps[0]), steps[1..])
  }

  lemma NotSoundLater(s: State, steps: seq<Step>)
    requires !R.Inv(s.shop)
    ensures !SoundThroughout(s, steps)
  {}

  /** Over every interleaving: every redemption stays backed, refunds, spend and sold counts match
      throughout if and only if no checked call ever writes to a redemption cancelled in between. */
  lemma {:induction false} ConservedExactly(s: State, steps: seq<Step>)
    requires R.Inv(s.shop) && Known(s)
    ensures SoundThroughout(s, steps) <==> NeverHits(s, steps)
    decreases |steps|
  {
    if |steps| > 0 {
      var next := Apply(s, steps[0]);
      StepKeepsExactly(s, steps[0]);
      if R.Inv(next.shop) {
        ConservedExactly(next, steps[1..]);
      } else {
        NotSoundLater(next, steps[1..]);
      }
    }
  }

  // ---------------------------------------------------------------- when a status is final

  function StatusOf(s: State, id: nat): Status
    requires id < |s.shop.redemptions|
  {
    s.shop.redemptions[id].status
  }

  /** No call that could still change a decided status is past its check. */
  predicate Settled(s: State, id: nat)
    requires id < |s.shop.redemptions|
  {
    || (StatusOf(s, id) == Used && Cancelling(id) !in s.pending)
    || (StatusOf(s, id) == Cancelled && Using(id) !in s.pending)
  }

  lemma OtherKeepsDecided(s: Shop, step: R.Step, id: nat)
    requires id < |s.redemptions| && s.redemptions[id].status != Status.Active
    ensures id < |R.Apply(s, step).redemptions| && R.Apply(s, step).redemptions[id].status == s.redemptions[id].status
  {
    match step
    case DoRedeem(user, reward, request, code, now) =>
      R.RedeemIsItsTransaction(s, user, reward, request, code, now);
    case _ =>
  }

  lemma StepKeepsSettled(s: State, step: Step, id: nat)
    requires id < |s.shop.redemptions| && Settled(s, id)
    ensures var next := Apply(s, step);
            id < |next.shop.redemptions| && StatusOf(next, id) == StatusOf(s, id) && Settled(next, id)
  {
    match step
    case Other(other) => OtherKeepsDecided(s.shop, other, id);
    case _ =>
  }

  lemma {:induction false} SettledStays(s: State, steps: seq<Step>, id: nat)
    requires id < |s.shop.redemptions| && Settled(s, id)
    ensures id < |Run(s, steps).shop.redemptions| && StatusOf(Run(s, steps), id) == StatusOf(s, id)
    decreases |steps|
  {
    if |steps| > 0 {
      StepKeepsSettled(s, steps[0], id);
      SettledStays(Apply(s, steps[0]), steps[1..], id);
    }
  }

  /** The status is the same at the end of every run. */
  ghost predicate Final(s: State, id: nat)
    requires id < |s.shop.redemptions|
  {
    forall steps :: id < |Run(s, steps).shop.redemptions| ==> StatusOf(Run(s, steps), id) == StatusOf(s, id)
  }

  /** A run that changes a status that is not settled. */
  function Undoing(s: State, id: nat): seq<Step>
    requires id < |s.shop.redemptions|
  {
    var unblock := Other(R.SetAccount(s.shop.redemptions[id].user, ActiveAccount));
    if StatusOf(s, id) == Cancelled then [Write(Using(id))]
    else if StatusOf(s, id) == Used then [unblock, Write(Cancelling(id))]
    else [unblock, CheckCancel(id), Write(Cancelling(id))]
  }

  lemma CancelWritten(s: State, id: nat)
    requires id < |s.shop.redemptions| && Cancelling(id) in s.pending && CommitCancel(s.shop, id).1.Ok?
    ensures var end := Apply(s, Write(Cancelling(id)));
            id < |end.shop.redemptions| && StatusOf(end, id) == Cancelled
  {}

  /** With its account unblocked a redemption that is not cancelled can be. */
  lemma Unblocked(s: State, id: nat)
    requires R.Inv(s.shop) && id < |s.shop.redemptions| && StatusOf(s, id) != Cancelled
    ensures var open := Apply(s, Other(R.SetAccount(s.shop.redemptions[id].user, ActiveAccount)));
            && open.shop.redemptions == s.shop.redemptions && open.pending == s.pending
            && CommitCancel(open.shop, id).1.Ok?
  {
    var r := s.shop.redemptions[id];
    var open := R.Apply(s.shop, R.SetAccount(r.user, ActiveAccount));
    assert s.shop.book.rows[r.txn].posting.user == r.user && s.shop.book.rows[r.txn].posting.amount == r.cost;
    assert AccountOf(open.book, r.user).status == ActiveAccount;
    assert !HasKey(s.shop.book.rows, RefundKey(id)) && open.book.rows == s.shop.book.rows;
  }

  lemma RunOne(s: State, x: Step)
    ensures Run(s, [x]) == Apply(s, x)
  {
    assert [x][1..] == [];
  }

  lemma RunTwo(s: State, x: Step, y: Step)
    ensures Run(s, [x, y]) == Apply(Apply(s, x), y)
  {
    assert [x, y][1..] == [y];
    RunOne(Apply(s, x), y);
  }

  lemma RunThree(s: State, x: Step, y: Step, z: Step)
    ensures Run(s, [x, y, z]) == Apply(Apply(Apply(s, x), y), z)
  {
    assert [x, y, z][1..] == [y, z];
    RunTwo(Apply(s, x), y, z);
  }

  lemma UndoingChanges(s: State, id: nat)
    requires R.Inv(s.shop) && Known(s) && id < |s.shop.redemptions| && !Settled(s, id)
    ensures var end := Run(s, Undoing(s, id));
            id < |end.shop.redemptions| && StatusOf(end, id) != StatusOf(s, id)
  {
    var steps := Undoing(s, id);
    if StatusOf(s, id) == Cancelled {
      RunOne(s, steps[0]);
    } else {
      Unblocked(s, id);
      var open := Apply(s, steps[0]);
      if StatusOf(s, id) == Used {
        RunTwo(s, steps[0], steps[1]);
        CancelWritten(open, id);
      } else {
        RunThree(s, steps[0], steps[1], steps[2]);
        CancelWritten(Apply(open, steps[1]), id);
      }
    }
  }

  /** A status is final if and only if it is decided and no call of the other kind is past its check. */
  lemma FinalExactly(s: State, id: nat)
    requires R.Inv(s.shop) && Known(s) && id < |s.shop.redemptions|
    ensures Final(s, id) <==> Settled(s, id)
  {
    if Settled(s, id) {
      forall steps | id < |Run(s, steps).shop.redemptions| ensures StatusOf(Run(s, steps), id) == StatusOf(s, id) {
        SettledStays(s, steps, id);
      }
    } else {
      var steps := Undoing(s, id);
      UndoingChanges(s, id);
      assert StatusOf(Run(s, steps), id) != StatusOf(s, id);
    }
  }

  lemma BothWrite(s: State, id: nat, now: Instant, used: Shop)
    requires id < |s.shop.redemptions| && UseProblem(s.shop.redemptions[id], now).None?
    requires FindCode(s.shop.redemptions, |s.shop.redemptions|, s.shop.redemptions[id].code) == Some(id)
    requires used == SetStatus(s.shop, id, Used)
    ensures var checked := Apply(Apply(s, CheckCancel(id)), CheckUse(s.shop.redemptions[id].code, now));
            && Apply(checked, Write(Using(id))).shop == used
            && Apply(Apply(checked, Write(Using(id))), Write(Cancelling(id))).shop == CommitCancel(used, id).0
  {
    var checked := Apply(Apply(s, CheckCancel(id)), CheckUse(s.shop.redemptions[id].code, now));
    assert checked == State(s.shop, s.pending + multiset{Cancelling(id)} + multiset{Using(id)});
    assert Cancelling(id) in Apply(checked, Write(Using(id))).pending;
  }

  lemma CodeFindsIt(s: Shop, id: nat)
    requires R.Backed(s) && id < |s.redemptions|
    ensures FindCode(s.redemptions, |s.redemptions|, s.redemptions[id].code) == Some(id)
  {
    var at := FindCode(s.redemptions, |s.redemptions|, s.redemptions[id].code);
    assert at.Some? && (at.value < id || id < at.value || at.value == id);
  }

  lemma CancelCommits(s: Shop, id: nat)
    requires R.Inv(s) && id < |s.redemptions| && s.redemptions[id].status != Cancelled
    requires AccountOf(s.book, s.redemptions[id].user).status == ActiveAccount
    ensures CommitCancel(s, id).1.Ok? && |CommitCancel(s, id).0.redemptions| == |s.redemptions|
    ensures CommitCancel(s, id).0.redemptions[id].status == Cancelled
  {
    assert !HasKey(s.book.rows, RefundKey(id));
    assert s.book.rows[s.redemptions[id].txn].posting.amount == s.redemptions[id].cost;
  }

  lemma CancelAfterUse(s: Shop, id: nat)
    requires R.Inv(s) && id < |s.redemptions| && s.redemptions[id].status == Status.Active
    requires AccountOf(s.book, s.redemptions[id].user).status == ActiveAccount
    ensures var used := SetStatus(s, id, Used);
            var end := CommitCancel(used, id).0;
            && id < |end.redemptions| && end.redemptions[id].status == Cancelled
            && HasKey(end.book.rows, RefundKey(id)) && R.Inv(end)
  {
    var used := SetStatus(s, id, Used);
    UseKeepsExactly(s, id);
    CancelCommits(used, id);
    FirstCancel(used, id);
    assert R.RefundsMatch(CommitCancel(used, id).0);
  }

  /** A till and an admin at once: both checks pass, the code is used, and the cancel that commits last
      refunds it all the same. Nothing is lost from the books, but "used" was not final. */
  lemma UsedThenRefunded(s: State, id: nat, now: Instant)
    requires R.Inv(s.shop) && id < |s.shop.redemptions| && UseProblem(s.shop.redemptions[id], now).None?
    requires AccountOf(s.shop.book, s.shop.redemptions[id].user).status == ActiveAccount
    ensures var checked := Apply(Apply(s, CheckCancel(id)), CheckUse(s.shop.redemptions[id].code, now));
            var used := Apply(checked, Write(Using(id)));
            var end := Apply(used, Write(Cancelling(id)));
            && id < |used.shop.redemptions| && StatusOf(used, id) == Used
            && id < |end.shop.redemptions| && StatusOf(end, id) == Cancelled
            && HasKey(end.shop.book.rows, RefundKey(id)) && R.Inv(end.shop)
  {
    CodeFindsIt(s.shop, id);
    CancelAfterUse(s.shop, id);
    BothWrite(s, id, now, SetStatus(s.shop, id, Used));
  }
}
