/** Reward redemptions as atomic calls: pre-checks, debit, code, redemption row and sold count;
    marking used; cancelling with a refund. */
module Redemptions {
  import opened Domain
  import opened Ledger

  type RewardId = nat

  const CODE_RETRIES: nat := 5
  const DEFAULT_EXPIRY_MS: int := 1_209_600_000 // 14 days

  datatype Status = Active | Used | Expired | Cancelled

  datatype Reward = Reward(cost: int, available: bool, partnerActive: bool, validFrom: Option<Instant>,
                           validUntil: Option<Instant>, capacity: Option<int>, sold: int)

  /** `cost` is the snapshot taken when redeemed, `txn` the ledger row of its debit. */
  datatype Redemption = Redemption(user: UserId, reward: RewardId, cost: int, status: Status, code: nat,
                                   txn: nat, expiresAt: Option<Instant>)

  /** A redemption's id is its position. */
  datatype Shop = Shop(book: Book, rewards: map<RewardId, Reward>, redemptions: seq<Redemption>)

  datatype Error =
    | RewardNotFound | RewardNotAvailable | PartnerArchived | RewardNotYetAvailable | RewardExpired | RewardSoldOut
    | PointsInsufficient | NotPosted(error: PostError) | DebitTaken | CodeTaken
    | RedemptionNotFound | RedemptionNotActive | RedemptionExpired

  // ---------------------------------------------------------------- redeem

  /** The reward checks made before anything else; None when the reward may be redeemed. */
  function RewardProblem(s: Shop, reward: RewardId, now: Instant): Option<Error> {
    if reward !in s.rewards then Some(RewardNotFound)
    else
      var r := s.rewards[reward];
      if !r.available then Some(RewardNotAvailable)
      else if !r.partnerActive then Some(PartnerArchived)
      else if r.validFrom.Some? && r.validFrom.value > now then Some(RewardNotYetAvailable)
      else if r.validUntil.Some? && r.validUntil.value < now then Some(RewardExpired)
      else if r.capacity.Some? && r.sold >= r.capacity.value then Some(RewardSoldOut)
      else None
  }

  predicate MadeBy(s: Shop, i: nat, user: UserId, reward: RewardId, request: nat) {
    && i < |s.redemptions| && s.redemptions[i].user == user && s.redemptions[i].reward == reward
    && s.redemptions[i].txn < |s.book.rows| && s.book.rows[s.redemptions[i].txn].posting.key == RedemptionKey(request)
  }

  /** The user's redemption of this reward debited under this request key, searching the first `n`. */
  function FindRedemption(s: Shop, n: nat, user: UserId, reward: RewardId, request: nat): (at: Option<nat>)
    requires n <= |s.redemptions|
    ensures at.Some? ==> at.value < n && MadeBy(s, at.value, user, reward, request)
    ensures at.None? ==> forall i :: 0 <= i < n ==> !MadeBy(s, i, user, reward, request)
  {
    if n == 0 then None
    else if MadeBy(s, n - 1, user, reward, request) then Some(n - 1)
    else FindRedemption(s, n - 1, user, reward, request)
  }

  function DebitFor(user: UserId, reward: RewardId, cost: int, request: nat): Posting {
    Posting(user, Debit, cost, RewardRedemption, ToReward(reward), RedemptionKey(request))
  }

  predicate TxnTaken(redemptions: seq<Redemption>, txn: nat) {
    exists i :: 0 <= i < |redemptions| && redemptions[i].txn == txn
  }

  predicate HasCode(redemptions: seq<Redemption>, code: nat) {
    exists i :: 0 <= i < |redemptions| && redemptions[i].code == code
  }

  function Sell(r: Reward, units: int): Reward { r.(sold := r.sold + units) }

  /** The redeem transaction, for a reward whose cost was read before it. The debit row and the code
      are both unique, and a violated unique rolls everything back, later attempts included. */
  function CommitRedeem(s: Shop, user: UserId, reward: RewardId, cost: int, request: nat, code: nat, now: Instant):
    (Shop, Result<nat, Error>)
  {
    var (book, posted) := Post(s.book, DebitFor(user, reward, cost, request));
    if posted.Err? then (s, Err(NotPosted(posted.error)))
    else
      var txn := FindKey(book.rows, RedemptionKey(request));
      if txn.None? || TxnTaken(s.redemptions, txn.value) then (s, Err(DebitTaken))
      else if HasCode(s.redemptions, code) then (s, Err(CodeTaken))
      else if reward !in s.rewards then (s, Err(RewardNotFound))
      else
        var row := Redemption(user, reward, cost, Active, code, txn.value, Some(now + DEFAULT_EXPIRY_MS));
        (Shop(book, s.rewards[reward := Sell(s.rewards[reward], 1)], s.redemptions + [row]), Ok(|s.redemptions|))
  }

  /** One call of redeem with nothing else running; `code` is the first code drawn. */
  function Redeem(s: Shop, user: UserId, reward: RewardId, request: nat, code: nat, now: Instant):
    (Shop, Result<nat, Error>)
  {
    var problem := RewardProblem(s, reward, now);
    if problem.Some? then (s, Err(problem.value))
    else
      var existing := FindRedemption(s, |s.redemptions|, user, reward, request);
      if existing.Some? then (s, Ok(existing.value))
      else if user !in s.book.accounts || Balance(s.book, user) < s.rewards[reward].cost
      then (s, Err(PointsInsufficient))
      else CommitRedeem(s, user, reward, s.rewards[reward].cost, request, code, now)
  }

  // ---------------------------------------------------------------- mark used, cancel

  function FindCode(redemptions: seq<Redemption>, n: nat, code: nat): (at: Option<nat>)
    requires n <= |redemptions|
    ensures at.Some? ==> at.value < n && redemptions[at.value].code == code
    ensures at.None? ==> forall i :: 0 <= i < n ==> redemptions[i].code != code
  {
    if n == 0 then None
    else if redemptions[n - 1].code == code then Some(n - 1)
    else FindCode(redemptions, n - 1, code)
  }

  /** Why a redemption cannot be spent or cancelled at `now`; cancelling ignores expiry. */
  function UseProblem(r: Redemption, now: Instant): Option<Error> {
    if r.status != Active then Some(RedemptionNotActive)
    else if r.expiresAt.Some? && r.expiresAt.value < now then Some(RedemptionExpired)
    else None
  }

  function SetStatus(s: Shop, id: nat, status: Status): Shop
    requires id < |s.redemptions|
  {
    s.(redemptions := s.redemptions[id := s.redemptions[id].(status := status)])
  }

  function MarkUsed(s: Shop, code: nat, now: Instant): (Shop, Result<nat, Error>) {
    var at := FindCode(s.redemptions, |s.redemptions|, code);
    if at.None? then (s, Err(RedemptionNotFound))
    else
      var problem := UseProblem(s.redemptions[at.value], now);
      if problem.Some? then (s, Err(problem.value)) else (SetStatus(s, at.value, Used), Ok(at.value))
  }

  function Refund(s: Shop, id: nat): Posting
    requires id < |s.redemptions|
  {
    var r := s.redemptions[id];
    Posting(r.user, Credit, r.cost, Reversal, ToRedemption(id), RefundKey(id))
  }

  /** The cancel transaction; the status was checked before it and is not checked again inside. */
  function CommitCancel(s: Shop, id: nat): (Shop, Result<nat, Error>)
    requires id < |s.redemptions|
  {
    var r := s.redemptions[id];
    var (book, posted) := Post(s.book, Refund(s, id));
    if posted.Err? then (s, Err(NotPosted(posted.error)))
    else if r.reward !in s.rewards then (s, Err(RewardNotFound))
    else
      (SetStatus(s, id, Cancelled).(book := book, rewards := s.rewards[r.reward := Sell(s.rewards[r.reward], -1)]),
       Ok(id))
  }

  function CancelAndRefund(s: Shop, id: nat): (Shop, Result<nat, Error>) {
    if id >= |s.redemptions| then (s, Err(RedemptionNotFound))
    else if s.redemptions[id].status != Active then (s, Err(RedemptionNotActive))
    else CommitCancel(s, id)
  }

  /** The status a client sees: an active redemption past its expiry reads as expired. */
  function ComputedStatus(r: Redemption, now: Instant): Status {
    if r.status == Active && r.expiresAt.Some? && r.expiresAt.value < now then Expired else r.status
  }

  /** The view agrees with the till: a redemption reads "active" exactly while it can be spent, and
      reads "expired" exactly when spending it would be refused for expiry. */
  lemma ViewAgreesWithTill(r: Redemption, now: Instant)
    requires r.status != Expired
    ensures ComputedStatus(r, now) == Active <==> UseProblem(r, now).None?
    ensures ComputedStatus(r, now) == Expired <==> UseProblem(r, now) == Some(RedemptionExpired)
  {}

  // ---------------------------------------------------------------- the service object

  class RedemptionsService {
    const points: PointsService
    var rewards: map<RewardId, Reward>
    var redemptions: seq<Redemption>

    constructor (points: PointsService)
      ensures this.points == points && Contents() == Shop(points.Contents(), map[], [])
    {
      this.points, rewards, redemptions := points, map[], [];
    }

    function Contents(): Shop
      reads this, points
    {
      Shop(points.Contents(), rewards, redemptions)
    }

    /** `codes` are the codes drawn, one per attempt. After a collision the transaction is aborted:
        the next insert fails for that reason, whatever its code, so the retries never help and
        the loop is left after its first two rounds at the latest. */
    method RedeemReward(user: UserId, reward: RewardId, request: nat, codes: seq<nat>, now: Instant)
      returns (r: Result<nat, Error>)
      requires |codes| == CODE_RETRIES
      modifies this, points
      ensures (Contents(), r) == Redeem(old(Contents()), user, reward, request, codes[0], now)
    {
      var problem := RewardProblem(Contents(), reward, now);
      if problem.Some? {
        return Err(problem.value);
      }
      var cost := rewards[reward].cost;
      var existing := FindRedemption(Contents(), |redemptions|, user, reward, request);
      if existing.Some? {
        return Ok(existing.value);
      }
      if user !in points.accounts || points.accounts[user].balance < cost {
        return Err(PointsInsufficient);
      }
      r := RedeemTransaction(user, reward, cost, request, codes, now);
    }

    method RedeemTransaction(user: UserId, reward: RewardId, cost: int, request: nat, codes: seq<nat>, now: Instant)
      returns (r: Result<nat, Error>)
      requires |codes| == CODE_RETRIES && reward in rewards
      modifies this, points
      ensures (Contents(), r) == CommitRedeem(old(Contents()), user, reward, cost, request, codes[0], now)
    {
      var savedAccounts, savedRows := points.accounts, points.rows;
      var posted := points.PostPoints(DebitFor(user, reward, cost, request));
      if posted.Err? {
        return Err(NotPosted(posted.error));
      }
      var txn := FindKey(points.rows, RedemptionKey(request));
      if txn.None? || TxnTaken(redemptions, txn.value) {
        points.accounts, points.rows := savedAccounts, savedRows;
        return Err(DebitTaken);
      }
      var created := false;
      var aborted := false;
      var attempt := 0;
      while attempt < CODE_RETRIES && !created
        invariant attempt <= 1 && !created
        invariant aborted <==> attempt > 0
        invariant attempt > 0 ==> HasCode(redemptions, codes[0])
        invariant redemptions == old(redemptions) && rewards == old(rewards)
      {
        if aborted {
          points.accounts, points.rows := savedAccounts, savedRows;
          return Err(CodeTaken);
        }
        if HasCode(redemptions, codes[attempt]) {
          aborted := true;
          attempt := attempt + 1;
          continue;
        }
        redemptions := redemptions +
          [Redemption(user, reward, cost, Active, codes[attempt], txn.value, Some(now + DEFAULT_EXPIRY_MS))];
        created := true;
        break;
      }
      rewards := rewards[reward := Sell(rewards[reward], 1)];
      r := Ok(|redemptions| - 1);
    }

    method MarkUsedByCode(code: nat, now: Instant) returns (r: Result<nat, Error>)
      modifies this
      ensures (Contents(), r) == MarkUsed(old(Contents()), code, now)
    {
      var at := FindCode(redemptions, |redemptions|, code);
      if at.None? {
        return Err(RedemptionNotFound);
      }
      var found := redemptions[at.value];
      if found.status != Active {
        return Err(RedemptionNotActive);
      }
      if found.expiresAt.Some? && found.expiresAt.value < now {
        return Err(RedemptionExpired);
      }
      redemptions := redemptions[at.value := found.(status := Used)];
      r := Ok(at.value);
    }

    method CancelRedemption(id: nat) returns (r: Result<nat, Error>)
      modifies this, points
      ensures (Contents(), r) == CancelAndRefund(old(Contents()), id)
    {
      if id >= |redemptions| {
        return Err(RedemptionNotFound);
      }
      var found := redemptions[id];
      if found.status != Active {
        return Err(RedemptionNotActive);
      }
      var savedAccounts, savedRows := points.accounts, points.rows;
      var posted := points.PostPoints(Posting(found.user, Credit, found.cost, Reversal, ToRedemption(id),
                                              RefundKey(id)));
      if posted.Err? {
        return Err(NotPosted(posted.error));
      }
      if found.reward !in rewards {
        points.accounts, points.rows := savedAccounts, savedRows;
        return Err(RewardNotFound);
      }
      redemptions := redemptions[id := found.(status := Cancelled)];
      rewards := rewards[found.reward := Sell(rewards[found.reward], -1)];
      r := Ok(id);
    }
  }
}
