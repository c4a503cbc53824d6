/** When redeeming, using and cancelling succeed, what they write, and each refusal with its condition. */
module RedeemOutcomes {
  import opened Domain
  import opened Ledger
  import opened Redemptions
  import R = RedemptionRuns
  import O = Overselling
  import X = RedemptionRaces

  // ---------------------------------------------------------------- redeem

  predicate NotYet(r: Reward, now: Instant) { r.validFrom.Some? && now < r.validFrom.value }

  predicate Over(r: Reward, now: Instant) { r.validUntil.Some? && r.validUntil.value < now }

  predicate SoldOut(r: Reward) { r.capacity.Some? && r.capacity.value <= r.sold }

  /** The reward is on offer now. */
  predicate OnOffer(r: Reward, now: Instant) {
    r.available && r.partnerActive && !NotYet(r, now) && !Over(r, now) && !SoldOut(r)
  }

  /** The runner has an account that covers this cost. */
  predicate Covers(b: Book, user: UserId, cost: int) { user in b.accounts && cost <= b.accounts[user].balance }

  predicate Blocked(b: Book, user: UserId) { user in b.accounts && b.accounts[user].status == BlockedAccount }

  predicate CodeInUse(s: Shop, code: nat) { exists i :: 0 <= i < |s.redemptions| && s.redemptions[i].code == code }

  /** No redemption was debited under this request key before. */
  ghost predicate UnusedRequest(s: Shop, request: nat) {
    forall i :: 0 <= i < |s.book.rows| ==> s.book.rows[i].posting.key != RedemptionKey(request)
  }

  lemma NewDebit(b: Book, p: Posting)
    requires !HasKey(b.rows, p.key)
    ensures FindKey(Append(b, p).rows, p.key) == Some(|b.rows|)
  {}

  lemma DebitUntaken(s: Shop)
    requires R.Inv(s)
    ensures !TxnTaken(s.redemptions, |s.book.rows|)
  {}

  lemma NothingRedeemed(s: Shop, user: UserId, reward: RewardId, request: nat)
    requires UnusedRequest(s, request)
    ensures FindRedemption(s, |s.redemptions|, user, reward, request).None?
  {}

  /** The checks before anything else refuse for the first of these reasons. */
  lemma CheckedExactly(s: Shop, reward: RewardId, now: Instant)
    ensures RewardProblem(s, reward, now) == Some(RewardNotFound) <==> reward !in s.rewards
    ensures reward in s.rewards ==>
              var w, p := s.rewards[reward], RewardProblem(s, reward, now);
              && (p.None? <==> OnOffer(w, now))
              && (p == Some(RewardNotAvailable) <==> !w.available)
              && (p == Some(PartnerArchived) <==> w.available && !w.partnerActive)
              && (p == Some(RewardNotYetAvailable) <==> w.available && w.partnerActive && NotYet(w, now))
              && (p == Some(RewardExpired) <==> w.available && w.partnerActive && !NotYet(w, now) && Over(w, now))
              && (p == Some(RewardSoldOut) <==>
                    w.available && w.partnerActive && !NotYet(w, now) && !Over(w, now) && SoldOut(w))
    ensures var p := RewardProblem(s, reward, now);
            p.Some? ==> p.value in {RewardNotFound, RewardNotAvailable, PartnerArchived, RewardNotYetAvailable,
                                    RewardExpired, RewardSoldOut}
  {}

  /** The transaction under an unused request key. */
  lemma CommitsExactly(s: Shop, user: UserId, reward: RewardId, cost: int, request: nat, code: nat, now: Instant)
    requires R.Inv(s) && UnusedRequest(s, request) && reward in s.rewards
    ensures var (after, r) := CommitRedeem(s, user, reward, cost, request, code, now);
            && (r == Ok(|s.redemptions|) || after == s)
            && (r == Err(NotPosted(InvalidAmount)) <==> cost <= 0)
            && (r == Err(NotPosted(AccountBlocked)) <==> cost > 0 && Blocked(s.book, user))
            && (r == Err(CodeTaken) <==> cost > 0 && !Blocked(s.book, user) && CodeInUse(s, code))
            && (r == Ok(|s.redemptions|) <==> cost > 0 && !Blocked(s.book, user) && !CodeInUse(s, code))
  {
    DebitUntaken(s);
    NewDebit(s.book, DebitFor(user, reward, cost, request));
    assert CodeInUse(s, code) <==> HasCode(s.redemptions, code);
  }

  lemma CommitOnly(s: Shop, user: UserId, reward: RewardId, cost: int, request: nat, code: nat, now: Instant)
    requires R.Inv(s) && UnusedRequest(s, request) && reward in s.rewards
    ensures var r := CommitRedeem(s, user, reward, cost, request, code, now).1;
            r in {Ok(|s.redemptions|), Err(NotPosted(InvalidAmount)), Err(NotPosted(AccountBlocked)), Err(CodeTaken)}
  {
    CommitsExactly(s, user, reward, cost, request, code, now);
  }

  lemma CommitWrites(s: Shop, user: UserId, reward: RewardId, cost: int, request: nat, code: nat, now: Instant)
    requires UnusedRequest(s, request) && reward in s.rewards && user in s.book.accounts
    requires CommitRedeem(s, user, reward, cost, request, code, now).1.Ok?
    ensures var after := CommitRedeem(s, user, reward, cost, request, code, now).0;
            var was := s.book.accounts[user];
            && after.book.accounts == s.book.accounts[user := Account(was.status, was.balance - cost)]
            && after.book.rows == s.book.rows +
               [Row(Posting(user, Debit, cost, RewardRedemption, ToReward(reward), RedemptionKey(request)),
                    was.balance - cost)]
            && after.redemptions == s.redemptions +
               [Redemption(user, reward, cost, Status.Active, code, |s.book.rows|, Some(now + 14 * DAY_MS))]
            && after.rewards == s.rewards[reward := s.rewards[reward].(sold := s.rewards[reward].sold + 1)]
  {
    NewDebit(s.book, DebitFor(user, reward, cost, request));
  }

  lemma RedeemStages(s: Shop, user: UserId, reward: RewardId, request: nat, code: nat, now: Instant)
    requires UnusedRequest(s, request)
    ensures Redeem(s, user, reward, request, code, now) ==
              if RewardProblem(s, reward, now).Some? then (s, Err(RewardProblem(s, reward, now).value))
              else if !Covers(s.book, user, s.rewards[reward].cost) then (s, Err(PointsInsufficient))
              else CommitRedeem(s, user, reward, s.rewards[reward].cost, request, code, now)
  {
    NothingRedeemed(s, user, reward, request);
  }

  /** Under an unused request key: redeem succeeds if and only if the reward exists and is on offer, its cost is
      positive and covered by an account that is not blocked, and the code is free. */
  lemma RedeemsExactly(s: Shop, user: UserId, reward: RewardId, request: nat, code: nat, now: Instant)
    requires R.Inv(s) && UnusedRequest(s, request)
    ensures Redeem(s, user, reward, request, code, now).1.Ok? <==>
              && reward in s.rewards && OnOffer(s.rewards[reward], now) && s.rewards[reward].cost > 0
              && Covers(s.book, user, s.rewards[reward].cost) && !Blocked(s.book, user) && !CodeInUse(s, code)
  {
    RedeemStages(s, user, reward, request, code, now);
    CheckedExactly(s, reward, now);
    if reward in s.rewards {
      CommitsExactly(s, user, reward, s.rewards[reward].cost, request, code, now);
      CommitOnly(s, user, reward, s.rewards[reward].cost, request, code, now);
    }
  }

  /** What a redeem that succeeds writes: one debit of the cost, one active redemption on it that expires in 14
      days, one more sold; the balance falls by the cost and stays at zero or above. */
  lemma RedeemWrites(s: Shop, user: UserId, reward: RewardId, request: nat, code: nat, now: Instant)
    requires R.Inv(s) && UnusedRequest(s, request) && Redeem(s, user, reward, request, code, now).1.Ok?
    ensures var (after, r) := Redeem(s, user, reward, request, code, now);
            && reward in s.rewards && user in s.book.accounts && r == Ok(|s.redemptions|)
            && var was, cost := s.book.accounts[user], s.rewards[reward].cost;
               && was.balance - cost >= 0
               && after.book.accounts == s.book.accounts[user := Account(was.status, was.balance - cost)]
               && after.book.rows == s.book.rows +
                  [Row(Posting(user, Debit, cost, RewardRedemption, ToReward(reward), RedemptionKey(request)),
                       was.balance - cost)]
               && after.redemptions == s.redemptions +
                  [Redemption(user, reward, cost, Status.Active, code, |s.book.rows|, Some(now + 14 * DAY_MS))]
               && after.rewards == s.rewards[reward := s.rewards[reward].(sold := s.rewards[reward].sold + 1)]
  {
    RedeemStages(s, user, reward, request, code, now);
    CheckedExactly(s, reward, now);
    CommitOnly(s, user, reward, s.rewards[reward].cost, request, code, now);
    CommitWrites(s, user, reward, s.rewards[reward].cost, request, code, now);
  }

  /** A refusal changes nothing, and names the first check that fails. */
  lemma RefusedExactly(s: Shop, user: UserId, reward: RewardId, request: nat, code: nat, now: Instant)
    requires R.Inv(s) && UnusedRequest(s, request)
    ensures var (after, r) := Redeem(s, user, reward, request, code, now);
            && (r.Err? ==> after == s)
            && (r == Err(RewardNotFound) <==> reward !in s.rewards)
            && (reward in s.rewards ==>
                  var w := s.rewards[reward];
                  && (r == Err(RewardNotAvailable) <==> !w.available)
                  && (r == Err(PartnerArchived) <==> w.available && !w.partnerActive)
                  && (r == Err(RewardNotYetAvailable) <==> w.available && w.partnerActive && NotYet(w, now))
                  && (r == Err(RewardExpired) <==>
                        w.available && w.partnerActive && !NotYet(w, now) && Over(w, now))
                  && (r == Err(RewardSoldOut) <==>
                        w.available && w.partnerActive && !NotYet(w, now) && !Over(w, now) && SoldOut(w))
                  && var covered := OnOffer(w, now) && Covers(s.book, user, w.cost);
                     && (r == Err(PointsInsufficient) <==> OnOffer(w, now) && !Covers(s.book, user, w.cost))
                     && (r == Err(NotPosted(InvalidAmount)) <==> covered && w.cost <= 0)
                     && (r == Err(NotPosted(AccountBlocked)) <==> covered && w.cost > 0 && Blocked(s.book, user))
                     && (r == Err(CodeTaken) <==>
                           covered && w.cost > 0 && !Blocked(s.book, user) && CodeInUse(s, code)))
  {
    RedeemStages(s, user, reward, request, code, now);
    CheckedExactly(s, reward, now);
    if reward in s.rewards {
      CommitsExactly(s, user, reward, s.rewards[reward].cost, request, code, now);
      CommitOnly(s, user, reward, s.rewards[reward].cost, request, code, now);
    }
  }

  lemma FoundExactly(s: Shop, user: UserId, reward: RewardId, request: nat, i: nat)
    requires R.Inv(s) && i < |s.redemptions|
    requires s.book.rows[s.redemptions[i].txn].posting.key == RedemptionKey(request)
    ensures FindRedemption(s, |s.redemptions|, user, reward, request) ==
            if s.redemptions[i].user == user && s.redemptions[i].reward == reward then Some(i) else None
  {
    var at := FindRedemption(s, |s.redemptions|, user, reward, request);
    assert s.redemptions[i].user == user && s.redemptions[i].reward == reward <==> MadeBy(s, i, user, reward, request);
    if at.Some? {
      var t, u := s.redemptions[i].txn, s.redemptions[at.value].txn;
      assert s.book.rows[t].posting.key == s.book.rows[u].posting.key;
      assert t == u;
    }
  }

  lemma TakenDebit(s: Shop, user: UserId, reward: RewardId, cost: int, request: nat, code: nat, now: Instant, i: nat)
    requires R.Inv(s) && i < |s.redemptions|
    requires s.book.rows[s.redemptions[i].txn].posting.key == RedemptionKey(request)
    ensures CommitRedeem(s, user, reward, cost, request, code, now) ==
            (s, Err(if cost <= 0 then NotPosted(InvalidAmount) else DebitTaken))
  {
    var at := FindKey(s.book.rows, RedemptionKey(request));
    assert at.Some? by {
      assert HasKey(s.book.rows, RedemptionKey(request));
    }
    assert at.value == s.redemptions[i].txn by {
      assert s.book.rows[at.value].posting.key == s.book.rows[s.redemptions[i].txn].posting.key;
    }
    assert TxnTaken(s.redemptions, at.value);
  }

  /** Under a request key some redemption was made with nothing is ever changed: the same runner gets that redemption
      of the same reward back while the reward is on offer, and anybody else is refused. */
  lemma RepeatedExactly(s: Shop, user: UserId, reward: RewardId, request: nat, code: nat, now: Instant, i: nat)
    requires R.Inv(s) && i < |s.redemptions| && reward in s.rewards && OnOffer(s.rewards[reward], now)
    requires s.book.rows[s.redemptions[i].txn].posting.key == RedemptionKey(request)
    ensures var (after, r) := Redeem(s, user, reward, request, code, now);
            var cost := s.rewards[reward].cost;
            var same := s.redemptions[i].user == user && s.redemptions[i].reward == reward;
            && after == s
            && (r == Ok(i) <==> same) && (r.Ok? <==> same)
            && (r == Err(PointsInsufficient) <==> !same && !Covers(s.book, user, cost))
            && (r == Err(DebitTaken) <==> !same && Covers(s.book, user, cost) && cost > 0)
  {
    CheckedExactly(s, reward, now);
    FoundExactly(s, user, reward, request, i);
    TakenDebit(s, user, reward, s.rewards[reward].cost, request, code, now, i);
  }

  // ---------------------------------------------------------------- mark used, cancel

  predicate Lapsed(r: Redemption, now: Instant) { r.expiresAt.Some? && r.expiresAt.value < now }

  /** In a sound shop the code names at most one redemption; it is used if and only if that one is active and
      has not lapsed, and nothing else changes. */
  lemma UsedExactly(s: Shop, i: nat, now: Instant)
    requires R.Inv(s) && i < |s.redemptions|
    ensures var red := s.redemptions[i];
            var (after, r) := MarkUsed(s, red.code, now);
            && (r.Ok? <==> red.status == Status.Active && !Lapsed(red, now))
            && (r.Ok? ==> r.value == i && after == s.(redemptions := s.redemptions[i := red.(status := Used)]))
            && (r == Err(RedemptionNotActive) <==> red.status != Status.Active)
            && (r == Err(RedemptionExpired) <==> red.status == Status.Active && Lapsed(red, now))
            && (r.Err? ==> after == s)
  {
    X.CodeFindsIt(s, i);
  }

  lemma UnknownCodeIsRefused(s: Shop, code: nat, now: Instant)
    ensures MarkUsed(s, code, now).1 == Err(RedemptionNotFound) <==> !CodeInUse(s, code)
    ensures !CodeInUse(s, code) ==> MarkUsed(s, code, now).0 == s
  {}

  lemma SoundRedemption(s: Shop, id: nat)
    requires R.Inv(s) && id < |s.redemptions|
    ensures var red := s.redemptions[id];
            red.cost > 0 && red.user in s.book.accounts && red.reward in s.rewards
    ensures s.redemptions[id].status == Status.Active ==> !HasKey(s.book.rows, RefundKey(id))
  {
    var red := s.redemptions[id];
    assert s.book.rows[red.txn].posting.amount == red.cost && s.book.rows[red.txn].posting.user == red.user;
  }

  /** A cancel succeeds if and only if the redemption is there, active, and its account not blocked; each refusal
      with its condition, and nothing is changed by it. */
  lemma CancelsExactly(s: Shop, id: nat)
    requires R.Inv(s)
    ensures var (after, r) := CancelAndRefund(s, id);
            && (r.Err? ==> after == s)
            && (r == Err(RedemptionNotFound) <==> id >= |s.redemptions|)
            && (id < |s.redemptions| ==>
                  var red := s.redemptions[id];
                  && (r == Err(RedemptionNotActive) <==> red.status != Status.Active)
                  && (r == Err(NotPosted(AccountBlocked)) <==>
                        red.status == Status.Active && Blocked(s.book, red.user))
                  && (r == Ok(id) <==> red.status == Status.Active && !Blocked(s.book, red.user)))
  {
    if id < |s.redemptions| {
      SoundRedemption(s, id);
    }
  }

  /** It then credits the cost back once, cancels the redemption, and takes one off the sold count. */
  lemma CancelWrites(s: Shop, id: nat)
    requires R.Inv(s) && CancelAndRefund(s, id).1 == Ok(id)
    ensures var after := CancelAndRefund(s, id).0;
            && id < |s.redemptions|
            && var red := s.redemptions[id];
               && red.user in s.book.accounts && red.reward in s.rewards
               && var was, w := s.book.accounts[red.user], s.rewards[red.reward];
                  && after.redemptions == s.redemptions[id := red.(status := Cancelled)]
                  && after.book.accounts ==
                     s.book.accounts[red.user := Account(was.status, was.balance + red.cost)]
                  && after.book.rows == s.book.rows +
                     [Row(Posting(red.user, Credit, red.cost, Reversal, ToRedemption(id), RefundKey(id)),
                          was.balance + red.cost)]
                  && after.rewards == s.rewards[red.reward := w.(sold := w.sold - 1)]
  {
    SoundRedemption(s, id);
  }

  // ---------------------------------------------------------------- the whole calls are runs of their steps

  lemma OneFlight(f: O.Flight)
    ensures O.Without([f], 0) == []
  {}

  /** A redeem with nothing else running is the run check, balance, transaction. */
  lemma RedeemIsARun(s: Shop, user: UserId, reward: RewardId, request: nat, code: nat, now: Instant)
    ensures var entered := O.Apply(O.State(s, []), O.Enter(user, reward, request, now));
            var end := O.Apply(O.Apply(entered, O.Fund(0)), O.Finish(0, code, now));
            end == O.State(Redeem(s, user, reward, request, code, now).0, [])
  {
    if RewardProblem(s, reward, now).None? {
      var f := O.Flight(user, reward, s.rewards[reward].cost, request, false);
      OneFlight(f);
      OneFlight(f.(funded := true));
      assert O.Apply(O.State(s, []), O.Enter(user, reward, request, now)).flights == [f];
      assert [f][0 := f.(funded := true)] == [f.(funded := true)];
    }
  }

  lemma CancelIsARun(s: Shop, id: nat)
    ensures X.Apply(X.Apply(X.State(s, multiset{}), X.CheckCancel(id)), X.Write(X.Cancelling(id))) ==
            X.State(CancelAndRefund(s, id).0, multiset{})
  {}

  lemma MarkUsedIsARun(s: Shop, code: nat, now: Instant, i: nat)
    requires FindCode(s.redemptions, |s.redemptions|, code) == Some(i)
    ensures X.Apply(X.Apply(X.State(s, multiset{}), X.CheckUse(code, now)), X.Write(X.Using(i))) ==
            X.State(MarkUsed(s, code, now).0, multiset{})
  {}
}
