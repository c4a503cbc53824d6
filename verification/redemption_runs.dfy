/** Conservation over every run of atomic redeem, mark-used and cancel calls, mixed with other
    ledger writers and admin edits of rewards and accounts. */
module RedemptionRuns {
  import opened Domain
  import opened Ledger
  import opened Redemptions

  datatype Step =
    | DoRedeem(user: UserId, reward: RewardId, request: nat, code: nat, now: Instant)
    | DoMarkUsed(code: nat, now: Instant)
    | DoCancel(redemption: nat)
    | PostOther(posting: Posting)                     // signup, attendance, manual and cleanup keys
    | SetAccount(owner: UserId, account: AccountStatus)
    | SaveReward(edited: RewardId, fields: Reward)    // an edit keeps the count, a new reward starts at 0

  predicate OwnKey(k: Key) { k.RedemptionKey? || k.RefundKey? }

  function Apply(s: Shop, step: Step): Shop {
    match step
    case DoRedeem(user, reward, request, code, now) => Redeem(s, user, reward, request, code, now).0
    case DoMarkUsed(code, now) => MarkUsed(s, code, now).0
    case DoCancel(id) => CancelAndRefund(s, id).0
    case PostOther(p) => if OwnKey(p.key) then s else s.(book := Post(s.book, p).0)
    case SetAccount(u, account) => s.(book := WithStatus(s.book, u, account))
    case SaveReward(id, fields) =>
      s.(rewards := s.rewards[id := fields.(sold := if id in s.rewards then s.rewards[id].sold else 0)])
  }

  function Run(s: Shop, steps: seq<Step>): Shop
    decreases |steps|
  {
    if |steps| == 0 then s else Run(Apply(s, steps[0]), steps[1..])
  }

  // ---------------------------------------------------------------- the quantities conserved

  /** What a user spent on redemptions, refunds taken off. */
  function NetSpend(rows: seq<Row>, user: UserId): int {
    if |rows| == 0 then 0
    else
      var p := rows[|rows| - 1].posting;
      NetSpend(rows[..|rows| - 1], user) - (if p.user == user && OwnKey(p.key) then Signed(p) else 0)
  }

  /** Summed cost of a user's redemptions that are not cancelled. */
  function HeldCost(rs: seq<Redemption>, user: UserId): int {
    if |rs| == 0 then 0
    else
      var r := rs[|rs| - 1];
      HeldCost(rs[..|rs| - 1], user) + (if r.user == user && r.status != Cancelled then r.cost else 0)
  }

  /** Number of a reward's redemptions that are not cancelled. */
  function HeldCount(rs: seq<Redemption>, reward: RewardId): int {
    if |rs| == 0 then 0
    else
      var r := rs[|rs| - 1];
      HeldCount(rs[..|rs| - 1], reward) + (if r.reward == reward && r.status != Cancelled then 1 else 0)
  }

  lemma SumsAppend(rs: seq<Redemption>, r: Redemption, user: UserId, reward: RewardId)
    ensures HeldCost(rs + [r], user) == HeldCost(rs, user)
            + (if r.user == user && r.status != Cancelled then r.cost else 0)
    ensures HeldCount(rs + [r], reward) == HeldCount(rs, reward)
            + (if r.reward == reward && r.status != Cancelled then 1 else 0)
  {
    assert (rs + [r])[..|rs|] == rs;
  }

  lemma SpendAppend(rows: seq<Row>, row: Row, user: UserId)
    ensures NetSpend(rows + [row], user) ==
            NetSpend(rows, user)
            - (if row.posting.user == user && OwnKey(row.posting.key) then Signed(row.posting) else 0)
  {
    assert (rows + [row])[..|rows|] == rows;
  }

  function Weight(r: Redemption): int { if r.status != Cancelled then 1 else 0 }

  /** Changing one redemption's status moves the sums by its own weight. */
  lemma {:induction false} SumsUpdate(rs: seq<Redemption>, i: nat, status: Status, user: UserId, reward: RewardId)
    requires i < |rs|
    ensures var r := rs[i].(status := status);
            && HeldCost(rs[i := r], user) == HeldCost(rs, user)
              + (if r.user == user then (Weight(r) - Weight(rs[i])) * r.cost else 0)
            && HeldCount(rs[i := r], reward) == HeldCount(rs, reward)
              + (if r.reward == reward then Weight(r) - Weight(rs[i]) else 0)
    decreases |rs|
  {
    var r := rs[i].(status := status);
    var front := rs[..|rs| - 1];
    if i == |rs| - 1 {
      assert rs[i := r][..|rs| - 1] == front;
    } else {
      assert rs[i := r][..|rs| - 1] == front[i := r];
      SumsUpdate(front, i, status, user, reward);
    }
  }

  // ---------------------------------------------------------------- the invariant

  /** Each redemption is backed by one debit of its own cost, and each redemption debit backs one. */
  ghost predicate Backed(s: Shop) {
    && (forall i :: 0 <= i < |s.redemptions| ==>
          var r := s.redemptions[i];
          && r.txn < |s.book.rows|
          && s.book.rows[r.txn].posting.key.RedemptionKey?
          && s.book.rows[r.txn].posting == DebitFor(r.user, r.reward, r.cost, s.book.rows[r.txn].posting.key.request))
    && (forall i, j :: 0 <= i < j < |s.redemptions| ==>
          s.redemptions[i].txn != s.redemptions[j].txn && s.redemptions[i].code != s.redemptions[j].code)
    && (forall t :: 0 <= t < |s.book.rows| && s.book.rows[t].posting.key.RedemptionKey? ==> TxnTaken(s.redemptions, t))
  }

  /** A refund exists exactly for the cancelled redemptions, and is the redemption's own refund. */
  ghost predicate RefundsMatch(s: Shop) {
    && (forall i: nat :: HasKey(s.book.rows, RefundKey(i)) <==>
        i < |s.redemptions| && s.redemptions[i].status == Cancelled)
    && (forall t :: 0 <= t < |s.book.rows| && s.book.rows[t].posting.key.RefundKey? ==>
          var id := s.book.rows[t].posting.key.redemption;
          id < |s.redemptions| && s.book.rows[t].posting == Refund(s, id))
  }

  ghost predicate CountsMatch(s: Shop) {
    && (forall i :: 0 <= i < |s.redemptions| ==>
          s.redemptions[i].reward in s.rewards && s.redemptions[i].status != Expired)
    && (forall reward :: reward in s.rewards ==> s.rewards[reward].sold == HeldCount(s.redemptions, reward))
    && (forall user :: NetSpend(s.book.rows, user) == HeldCost(s.redemptions, user))
  }

  ghost predicate Inv(s: Shop) {
    Valid(s.book) && Backed(s) && RefundsMatch(s) && CountsMatch(s)
  }

  /** Rows stay, redemptions keep everything but their status, and a decided status is final. */
  ghost predicate Grows(s: Shop, later: Shop) {
    && s.book.rows <= later.book.rows
    && |s.redemptions| <= |later.redemptions|
    && (forall i :: 0 <= i < |s.redemptions| ==>
          && later.redemptions[i] == s.redemptions[i].(status := later.redemptions[i].status)
          && (s.redemptions[i].status != Status.Active ==> later.redemptions[i].status == s.redemptions[i].status)
          && later.redemptions[i].status in {Status.Active, Used, Cancelled, s.redemptions[i].status})
  }

  // ---------------------------------------------------------------- each call keeps it

  lemma KeyOfAppend(b: Book, p: Posting, key: Key)
    ensures HasKey(Append(b, p).rows, key) <==> HasKey(b.rows, key) || p.key == key
  {
    var after := Append(b, p).rows;
    assert after[|b.rows|].posting.key == p.key;
    forall i | 0 <= i < |b.rows| ensures after[i] == b.rows[i] {}
    if HasKey(b.rows, key) {
      var i :| 0 <= i < |b.rows| && b.rows[i].posting.key == key;
      assert after[i].posting.key == key;
    }
  }

  /** A request key already on the ledger belongs to some redemption, so its debit is taken:
      sharing a key across users or rewards is refused and changes nothing. */
  lemma UsedRequestIsRefused(s: Shop, user: UserId, reward: RewardId, cost: int, request: nat, code: nat, now: Instant)
    requires Inv(s) && HasKey(s.book.rows, RedemptionKey(request)) && cost > 0
    ensures CommitRedeem(s, user, reward, cost, request, code, now) == (s, Err(DebitTaken))
  {
    var t := FindKey(s.book.rows, RedemptionKey(request)).value;
    assert TxnTaken(s.redemptions, t);
  }

  lemma FindKeyOfAppended(b: Book, p: Posting)
    ensures FindKey(Append(b, p).rows, p.key) == Some(|b.rows|)
  {
    assert Append(b, p).rows[|b.rows|].posting.key == p.key;
  }

  /** What a successful redeem transaction wrote: one debit, one redemption on it, one more sold. */
  lemma RedeemWrites(s: Shop, user: UserId, reward: RewardId, cost: int, request: nat, code: nat, now: Instant)
    requires Inv(s) && CommitRedeem(s, user, reward, cost, request, code, now).1.Ok?
    ensures cost > 0 && reward in s.rewards && !HasCode(s.redemptions, code)
    ensures !HasKey(s.book.rows, RedemptionKey(request))
    ensures CommitRedeem(s, user, reward, cost, request, code, now) ==
            (Shop(Append(s.book, DebitFor(user, reward, cost, request)),
                  s.rewards[reward := Sell(s.rewards[reward], 1)],
                  s.redemptions + [Redemption(user, reward, cost, Status.Active, code, |s.book.rows|,
                                              Some(now + DEFAULT_EXPIRY_MS))]),
             Ok(|s.redemptions|))
  {
    var p := DebitFor(user, reward, cost, request);
    if HasKey(s.book.rows, RedemptionKey(request)) {
      UsedRequestIsRefused(s, user, reward, cost, request, code, now);
    }
    FindKeyOfAppended(s.book, p);
  }

  lemma RedeemedBacked(s: Shop, later: Shop, user: UserId, reward: RewardId, cost: int, request: nat, code: nat,
                       now: Instant)
    requires Backed(s) && !HasCode(s.redemptions, code)
    requires later.book == Append(s.book, DebitFor(user, reward, cost, request))
    requires later.redemptions ==
             s.redemptions + [Redemption(user, reward, cost, Status.Active, code, |s.book.rows|,
                                         Some(now + DEFAULT_EXPIRY_MS))]
    ensures Backed(later)
  {
    var n := |s.redemptions|;
    assert later.redemptions[n].txn == |s.book.rows|;
    forall i | 0 <= i < n
      ensures later.redemptions[i] == s.redemptions[i]
      ensures s.redemptions[i].txn < |s.book.rows| && s.redemptions[i].code != code
    {}
    forall t | 0 <= t < |later.book.rows| && later.book.rows[t].posting.key.RedemptionKey?
      ensures TxnTaken(later.redemptions, t)
    {
      if t < |s.book.rows| {
        assert later.book.rows[t] == s.book.rows[t];
        var i :| 0 <= i < n && s.redemptions[i].txn == t;
        assert later.redemptions[i].txn == t;
      }
    }
  }

  lemma RedeemedRefunds(s: Shop, later: Shop, p: Posting)
    requires RefundsMatch(s) && p.key.RedemptionKey? && later.book == Append(s.book, p)
    requires |later.redemptions| == |s.redemptions| + 1 && s.redemptions <= later.redemptions
    requires later.redemptions[|s.redemptions|].status != Cancelled
    ensures RefundsMatch(later)
  {
    forall i: nat ensures HasKey(later.book.rows, RefundKey(i)) <==> HasKey(s.book.rows, RefundKey(i)) {
      KeyOfAppend(s.book, p, RefundKey(i));
    }
    forall i | 0 <= i < |s.redemptions| ensures later.redemptions[i] == s.redemptions[i] {}
  }

  lemma RedeemedCounts(s: Shop, later: Shop, reward: RewardId, p: Posting)
    requires CountsMatch(s) && reward in s.rewards && p.key.RedemptionKey? && p.direction == Debit
    requires later.book == Append(s.book, p) && later.rewards == s.rewards[reward := Sell(s.rewards[reward], 1)]
    requires |later.redemptions| == |s.redemptions| + 1 && s.redemptions <= later.redemptions
    requires var r := later.redemptions[|s.redemptions|];
             r.user == p.user && r.reward == reward && r.cost == p.amount && r.status == Status.Active
    ensures CountsMatch(later)
  {
    var r := later.redemptions[|s.redemptions|];
    assert later.redemptions == s.redemptions + [r];
    forall u
      ensures HeldCost(later.redemptions, u) == HeldCost(s.redemptions, u) + (if r.user == u then r.cost else 0)
    {
      SumsAppend(s.redemptions, r, u, reward);
    }
    forall w ensures HeldCount(later.redemptions, w) == HeldCount(s.redemptions, w) + (if w == reward then 1 else 0) {
      SumsAppend(s.redemptions, r, r.user, w);
    }
    forall u ensures NetSpend(later.book.rows, u) == NetSpend(s.book.rows, u) + (if p.user == u then p.amount else 0) {
      SpendAppend(s.book.rows, later.book.rows[|s.book.rows|], u);
    }
  }

  lemma RedeemedKeeps(s: Shop, later: Shop, user: UserId, reward: RewardId, cost: int, request: nat, code: nat,
                      now: Instant)
    requires Inv(s) && cost > 0 && reward in s.rewards && !HasCode(s.redemptions, code)
    requires !HasKey(s.book.rows, RedemptionKey(request))
    requires later.book == Append(s.book, DebitFor(user, reward, cost, request))
    requires later.rewards == s.rewards[reward := Sell(s.rewards[reward], 1)]
    requires later.redemptions ==
             s.redemptions + [Redemption(user, reward, cost, Status.Active, code, |s.book.rows|,
                                         Some(now + DEFAULT_EXPIRY_MS))]
    ensures Inv(later) && Grows(s, later)
  {
    var p := DebitFor(user, reward, cost, request);
    AppendKeepsValid(s.book, p);
    RedeemedBacked(s, later, user, reward, cost, request, code, now);
    RedeemedRefunds(s, later, p);
    RedeemedCounts(s, later, reward, p);
  }

  lemma GrowsReflexively(s: Shop)
    ensures Grows(s, s)
  {}

  lemma CommitRedeemKeeps(s: Shop, user: UserId, reward: RewardId, cost: int, request: nat, code: nat, now: Instant)
    requires Inv(s)
    ensures var later := CommitRedeem(s, user, reward, cost, request, code, now).0;
            Inv(later) && Grows(s, later)
  {
    var (later, r) := CommitRedeem(s, user, reward, cost, request, code, now);
    if r.Ok? {
      RedeemWrites(s, user, reward, cost, request, code, now);
      RedeemedKeeps(s, later, user, reward, cost, request, code, now);
    } else {
      GrowsReflexively(s);
    }
  }

  lemma UsedKeepsCounts(s: Shop, later: Shop, id: nat)
    requires CountsMatch(s) && id < |s.redemptions| && s.redemptions[id].status == Status.Active
    requires later == SetStatus(s, id, Used)
    ensures CountsMatch(later)
  {
    forall u ensures HeldCost(later.redemptions, u) == HeldCost(s.redemptions, u) {
      SumsUpdate(s.redemptions, id, Used, u, 0);
    }
    forall w ensures HeldCount(later.redemptions, w) == HeldCount(s.redemptions, w) {
      SumsUpdate(s.redemptions, id, Used, 0, w);
    }
  }

  lemma UsedKeepsRefunds(s: Shop, later: Shop, id: nat)
    requires RefundsMatch(s) && id < |s.redemptions| && s.redemptions[id].status == Status.Active
    requires later == SetStatus(s, id, Used)
    ensures RefundsMatch(later)
  {}

  lemma StatusChangeKeepsBacking(s: Shop, later: Shop, id: nat, status: Status)
    requires Backed(s) && id < |s.redemptions|
    requires later.book == s.book && later.redemptions == s.redemptions[id := s.redemptions[id].(status := status)]
    ensures Backed(later)
  {
    forall t | 0 <= t < |s.book.rows| && s.book.rows[t].posting.key.RedemptionKey?
      ensures TxnTaken(later.redemptions, t)
    {
      var i :| 0 <= i < |s.redemptions| && s.redemptions[i].txn == t;
      assert later.redemptions[i].txn == t;
    }
  }

  lemma MarkUsedKeeps(s: Shop, code: nat, now: Instant)
    requires Inv(s)
    ensures var later := MarkUsed(s, code, now).0;
            Inv(later) && Grows(s, later)
  {
    var (later, r) := MarkUsed(s, code, now);
    if r.Ok? {
      StatusChangeKeepsBacking(s, later, r.value, Used);
      UsedKeepsCounts(s, later, r.value);
      UsedKeepsRefunds(s, later, r.value);
    }
  }

  /** A ledger row under a key of its own leaves the backing of redemptions as it was. */
  lemma OtherRowKeepsBacking(s: Shop, p: Posting)
    requires Backed(s) && !p.key.RedemptionKey?
    ensures Backed(s.(book := Append(s.book, p)))
  {
    var later := s.(book := Append(s.book, p));
    forall t | 0 <= t < |s.book.rows| ensures later.book.rows[t] == s.book.rows[t] {}
  }

  /** What a successful cancel wrote: the refund, the status, one fewer sold. */
  lemma CancelWrites(s: Shop, id: nat)
    requires Inv(s) && CancelAndRefund(s, id).1.Ok?
    ensures id < |s.redemptions| && s.redemptions[id].status == Status.Active && s.redemptions[id].reward in s.rewards
    ensures s.redemptions[id].cost > 0 && !HasKey(s.book.rows, RefundKey(id))
    ensures var w := s.redemptions[id].reward;
            CancelAndRefund(s, id).0 ==
            Shop(Append(s.book, Refund(s, id)), s.rewards[w := Sell(s.rewards[w], -1)],
                 s.redemptions[id := s.redemptions[id].(status := Cancelled)])
  {
    assert !HasKey(s.book.rows, RefundKey(id));
  }

  lemma CancelledGrows(s: Shop, later: Shop, id: nat)
    requires id < |s.redemptions| && s.redemptions[id].status == Status.Active && s.book.rows <= later.book.rows
    requires later.redemptions == s.redemptions[id := s.redemptions[id].(status := Cancelled)]
    ensures Grows(s, later)
  {}

  lemma CancelledBacking(s: Shop, later: Shop, id: nat)
    requires Backed(s) && id < |s.redemptions| && later.book == Append(s.book, Refund(s, id))
    requires later.redemptions == s.redemptions[id := s.redemptions[id].(status := Cancelled)]
    ensures Backed(later)
  {
    OtherRowKeepsBacking(s, Refund(s, id));
    StatusChangeKeepsBacking(s.(book := later.book), later, id, Cancelled);
  }

  lemma CancelledRefunds(s: Shop, later: Shop, id: nat)
    requires RefundsMatch(s) && id < |s.redemptions| && later.book == Append(s.book, Refund(s, id))
    requires later.redemptions == s.redemptions[id := s.redemptions[id].(status := Cancelled)]
    ensures RefundsMatch(later)
  {
    forall i: nat ensures HasKey(later.book.rows, RefundKey(i)) <==> HasKey(s.book.rows, RefundKey(i)) || i == id {
      KeyOfAppend(s.book, Refund(s, id), RefundKey(i));
    }
    forall t | 0 <= t < |later.book.rows| && later.book.rows[t].posting.key.RefundKey?
      ensures var i := later.book.rows[t].posting.key.redemption;
              i < |later.redemptions| && later.book.rows[t].posting == Refund(later, i)
    {
      if t < |s.book.rows| {
        assert later.book.rows[t] == s.book.rows[t];
      }
    }
  }

  lemma CancelledCounts(s: Shop, later: Shop, id: nat)
    requires CountsMatch(s) && id < |s.redemptions| && s.redemptions[id].status != Cancelled
    requires later.book == Append(s.book, Refund(s, id))
    requires later.redemptions == s.redemptions[id := s.redemptions[id].(status := Cancelled)]
    requires var w := s.redemptions[id].reward;
             w in s.rewards && later.rewards == s.rewards[w := Sell(s.rewards[w], -1)]
    ensures CountsMatch(later)
  {
    var r := s.redemptions[id];
    forall u
      ensures HeldCost(later.redemptions, u) == HeldCost(s.redemptions, u) - (if r.user == u then r.cost else 0)
    {
      SumsUpdate(s.redemptions, id, Cancelled, u, r.reward);
    }
    forall w ensures HeldCount(later.redemptions, w) == HeldCount(s.redemptions, w) - (if r.reward == w then 1 else 0) {
      SumsUpdate(s.redemptions, id, Cancelled, r.user, w);
    }
    forall u ensures NetSpend(later.book.rows, u) == NetSpend(s.book.rows, u) - (if r.user == u then r.cost else 0) {
      SpendAppend(s.book.rows, later.book.rows[|s.book.rows|], u);
    }
  }

  lemma CancelledKeeps(s: Shop, later: Shop, id: nat)
    requires Inv(s) && id < |s.redemptions| && s.redemptions[id].status == Status.Active
    requires s.redemptions[id].reward in s.rewards
    requires s.redemptions[id].cost > 0 && !HasKey(s.book.rows, RefundKey(id))
    requires var w := s.redemptions[id].reward;
             later == Shop(Append(s.book, Refund(s, id)), s.rewards[w := Sell(s.rewards[w], -1)],
                           s.redemptions[id := s.redemptions[id].(status := Cancelled)])
    ensures Inv(later) && Grows(s, later)
  {
    AppendKeepsValid(s.book, Refund(s, id));
    CancelledBacking(s, later, id);
    CancelledRefunds(s, later, id);
    CancelledCounts(s, later, id);
    CancelledGrows(s, later, id);
  }

  lemma CancelKeeps(s: Shop, id: nat)
    requires Inv(s)
    ensures var later := CancelAndRefund(s, id).0;
            Inv(later) && Grows(s, later)
  {
    var (later, r) := CancelAndRefund(s, id);
    if r.Ok? {
      CancelWrites(s, id);
      CancelledKeeps(s, later, id);
    } else {
      GrowsReflexively(s);
    }
  }

  lemma OtherRowKeepsRefunds(s: Shop, p: Posting)
    requires RefundsMatch(s) && !OwnKey(p.key)
    ensures RefundsMatch(s.(book := Append(s.book, p)))
  {
    var later := s.(book := Append(s.book, p));
    forall i: nat ensures HasKey(later.book.rows, RefundKey(i)) <==> HasKey(s.book.rows, RefundKey(i)) {
      KeyOfAppend(s.book, p, RefundKey(i));
    }
    forall t | 0 <= t < |s.book.rows| ensures later.book.rows[t] == s.book.rows[t] {}
  }

  lemma OtherPostingKeeps(s: Shop, p: Posting)
    requires Inv(s) && !OwnKey(p.key)
    ensures var later := s.(book := Post(s.book, p).0);
            Inv(later) && Grows(s, later)
  {
    var later := s.(book := Post(s.book, p).0);
    if later.book == Append(s.book, p) {
      if p.amount > 0 && FindKey(s.book.rows, p.key).None? {
        AppendKeepsValid(s.book, p);
        OtherRowKeepsBacking(s, p);
        OtherRowKeepsRefunds(s, p);
        forall u ensures NetSpend(later.book.rows, u) == NetSpend(s.book.rows, u) {
          SpendAppend(s.book.rows, later.book.rows[|s.book.rows|], u);
        }
      }
    }
  }

  lemma SameRowsMatch(s: Shop, book: Book)
    requires Backed(s) && RefundsMatch(s) && CountsMatch(s) && book.rows == s.book.rows
    ensures Backed(s.(book := book)) && RefundsMatch(s.(book := book)) && CountsMatch(s.(book := book))
  {}

  lemma AccountEditKeeps(s: Shop, book: Book)
    requires Inv(s) && Valid(book) && book.rows == s.book.rows
    ensures Inv(s.(book := book)) && Grows(s, s.(book := book))
  {
    SameRowsMatch(s, book);
    GrowsReflexively(s);
  }

  lemma {:induction false} NoneHeld(rs: seq<Redemption>, reward: RewardId)
    requires forall i :: 0 <= i < |rs| ==> rs[i].reward != reward
    ensures HeldCount(rs, reward) == 0
    decreases |rs|
  {
    if |rs| > 0 {
      NoneHeld(rs[..|rs| - 1], reward);
    }
  }

  lemma NoRedemptionsOfNewReward(s: Shop, reward: RewardId)
    requires Inv(s)
    ensures reward !in s.rewards ==> HeldCount(s.redemptions, reward) == 0
  {
    if reward !in s.rewards {
      forall i | 0 <= i < |s.redemptions| ensures s.redemptions[i].reward != reward {}
      NoneHeld(s.redemptions, reward);
    }
  }

  lemma EditKeeps(s: Shop, step: Step)
    requires Inv(s) && (step.SetAccount? || step.SaveReward?)
    ensures Inv(Apply(s, step)) && Grows(s, Apply(s, step))
  {
    if step.SetAccount? {
      StatusKeepsValid(s.book, step.owner, step.account);
      AccountEditKeeps(s, WithStatus(s.book, step.owner, step.account));
    } else {
      NoRedemptionsOfNewReward(s, step.edited);
    }
  }

  /** Redeem either leaves the shop alone or is its transaction at the cost it read. */
  lemma RedeemIsItsTransaction(s: Shop, user: UserId, reward: RewardId, request: nat, code: nat, now: Instant)
    ensures var (later, r) := Redeem(s, user, reward, request, code, now);
            || later == s
            || (&& reward in s.rewards
                && (later, r) == CommitRedeem(s, user, reward, s.rewards[reward].cost, request, code, now))
  {}

  lemma RedeemKeeps(s: Shop, user: UserId, reward: RewardId, request: nat, code: nat, now: Instant)
    requires Inv(s)
    ensures var later := Redeem(s, user, reward, request, code, now).0;
            Inv(later) && Grows(s, later)
  {
    RedeemIsItsTransaction(s, user, reward, request, code, now);
    GrowsReflexively(s);
    if reward in s.rewards {
      CommitRedeemKeeps(s, user, reward, s.rewards[reward].cost, request, code, now);
    }
  }

  lemma StepKeeps(s: Shop, step: Step)
    requires Inv(s)
    ensures Inv(Apply(s, step)) && Grows(s, Apply(s, step))
  {
    match step
    case DoRedeem(user, reward, request, code, now) => RedeemKeeps(s, user, reward, request, code, now);
    case DoMarkUsed(code, now) => MarkUsedKeeps(s, code, now);
    case DoCancel(id) => CancelKeeps(s, id);
    case PostOther(p) =>
      if !OwnKey(p.key) {
        OtherPostingKeeps(s, p);
      }
    case SetAccount(_, _) => EditKeeps(s, step);
    case SaveReward(_, _) => EditKeeps(s, step);
  }

  lemma GrowsTransitively(a: Shop, b: Shop, c: Shop)
    requires Grows(a, b) && Grows(b, c)
    ensures Grows(a, c)
  {}

  /** Conservation over every run, and what no run ever undoes. */
  lemma {:induction false} EveryRunConserves(s: Shop, steps: seq<Step>)
    requires Inv(s)
    ensures Inv(Run(s, steps)) && Grows(s, Run(s, steps))
    decreases |steps|
  {
    if |steps| > 0 {
      var next := Apply(s, steps[0]);
      StepKeeps(s, steps[0]);
      EveryRunConserves(next, steps[1..]);
      GrowsTransitively(s, next, Run(s, steps));
    }
  }

  /** A shop before its first redemption. */
  ghost predicate Unsold(s: Shop) {
    && Valid(s.book) && s.redemptions == []
    && (forall t :: 0 <= t < |s.book.rows| ==> !OwnKey(s.book.rows[t].posting.key))
    && (forall reward :: reward in s.rewards ==> s.rewards[reward].sold == 0)
  }

  lemma {:induction false} NothingSpent(rows: seq<Row>, user: UserId)
    requires forall t :: 0 <= t < |rows| ==> !OwnKey(rows[t].posting.key)
    ensures NetSpend(rows, user) == 0
    decreases |rows|
  {
    if |rows| > 0 {
      NothingSpent(rows[..|rows| - 1], user);
    }
  }

  lemma OpeningIsSound(s: Shop)
    requires Unsold(s)
    ensures Inv(s)
  {
    forall user ensures NetSpend(s.book.rows, user) == 0 {
      NothingSpent(s.book.rows, user);
    }
  }

  /** So from such a shop every run conserves: at its end each redemption is backed by one debit, the
      refunds are those of the cancelled ones, and what users spent and rewards sold is what is held. */
  lemma ConservedFromOpening(s: Shop, steps: seq<Step>)
    requires Unsold(s)
    ensures var end := Run(s, steps);
            && Valid(end.book) && Backed(end) && RefundsMatch(end)
            && (forall user :: NetSpend(end.book.rows, user) == HeldCost(end.redemptions, user))
            && (forall reward :: reward in end.rewards ==>
                end.rewards[reward].sold == HeldCount(end.redemptions, reward))
  {
    OpeningIsSound(s);
    EveryRunConserves(s, steps);
  }

  /** The view agrees with the till: a redemption is shown active exactly when its code would be accepted
      now, and shown expired exactly when the code would be refused for expiry. */
  lemma ShownActiveIsAccepted(s: Shop, id: nat, now: Instant)
    requires Inv(s) && id < |s.redemptions|
    ensures var r := s.redemptions[id];
            && (ComputedStatus(r, now) == Status.Active <==> MarkUsed(s, r.code, now).1 == Ok(id))
            && (ComputedStatus(r, now) == Expired <==> MarkUsed(s, r.code, now).1 == Err(RedemptionExpired))
  {
    var r := s.redemptions[id];
    var at := FindCode(s.redemptions, |s.redemptions|, r.code);
    assert at.Some? && (at.value < id || id < at.value || at.value == id);
    ViewAgreesWithTill(r, now);
  }

  // ---------------------------------------------------------------- what one call undoes, what a retry sees

  /** An active redemption of an unblocked account can always be cancelled. */
  lemma ActiveCanBeCancelled(s: Shop, id: nat)
    requires Inv(s) && id < |s.redemptions| && s.redemptions[id].status == Status.Active
    requires AccountOf(s.book, s.redemptions[id].user).status == ActiveAccount
    ensures CancelAndRefund(s, id).1 == Ok(id)
  {
    assert !HasKey(s.book.rows, RefundKey(id));
    assert s.book.rows[s.redemptions[id].txn].posting.amount == s.redemptions[id].cost;
  }

  lemma SoldAgain(rewards: map<RewardId, Reward>, reward: RewardId)
    requires reward in rewards
    ensures var more := rewards[reward := Sell(rewards[reward], 1)];
            more[reward := Sell(more[reward], -1)] == rewards
  {}

  lemma DebitThenRefund(b: Book, debit: Posting, refund: Posting)
    requires debit.user == refund.user && Signed(debit) + Signed(refund) == 0
    ensures forall u :: Balance(Append(Append(b, debit), refund), u) == Balance(b, u)
  {}

  lemma UndoCommit(s: Shop, mid: Shop, user: UserId, reward: RewardId, cost: int, request: nat, code: nat, now: Instant)
    requires Inv(s) && Inv(mid) && CommitRedeem(s, user, reward, cost, request, code, now) == (mid, Ok(|s.redemptions|))
    ensures var id := |s.redemptions|;
            var (end, cancelled) := CancelAndRefund(mid, id);
            && cancelled == Ok(id) && id < |end.redemptions| && end.redemptions[id].status == Cancelled
            && end.rewards == s.rewards
            && (forall u :: Balance(end.book, u) == Balance(s.book, u))
  {
    RedeemWrites(s, user, reward, cost, request, code, now);
    var id := |s.redemptions|;
    ActiveCanBeCancelled(mid, id);
    CancelWrites(mid, id);
    DebitThenRefund(s.book, DebitFor(user, reward, cost, request), Refund(mid, id));
    SoldAgain(s.rewards, reward);
  }

  /** Cancelling right after redeeming succeeds and restores every balance and every sold count. */
  lemma CancelUndoesRedeem(s: Shop, user: UserId, reward: RewardId, request: nat, code: nat, now: Instant)
    requires Inv(s)
    requires var (mid, r) := Redeem(s, user, reward, request, code, now); r.Ok? && mid != s
    ensures var (mid, r) := Redeem(s, user, reward, request, code, now);
            var (end, cancelled) := CancelAndRefund(mid, r.value);
            && cancelled == r && r.value < |end.redemptions| && end.redemptions[r.value].status == Cancelled
            && end.rewards == s.rewards
            && (forall u :: Balance(end.book, u) == Balance(s.book, u))
  {
    var (mid, r) := Redeem(s, user, reward, request, code, now);
    RedeemKeeps(s, user, reward, request, code, now);
    RedeemIsItsTransaction(s, user, reward, request, code, now);
    UndoCommit(s, mid, user, reward, s.rewards[reward].cost, request, code, now);
  }

  lemma MadeByItself(s: Shop, user: UserId, reward: RewardId, request: nat, code: nat, now: Instant)
    requires Inv(s) && Redeem(s, user, reward, request, code, now).1.Ok?
    ensures var (mid, r) := Redeem(s, user, reward, request, code, now);
            MadeBy(mid, r.value, user, reward, request)
  {}

  /** At most one redemption is made under one request key. */
  lemma OneMaker(s: Shop, user: UserId, reward: RewardId, request: nat, i: nat, j: nat)
    requires Inv(s) && MadeBy(s, i, user, reward, request) && MadeBy(s, j, user, reward, request)
    ensures i == j
  {
    var t, u := s.redemptions[i].txn, s.redemptions[j].txn;
    assert s.book.rows[t].posting.key == s.book.rows[u].posting.key;
    assert t == u;
  }

  /** Retrying with the same key later. The documentation promises the same redemption; the code
      gives it if and only if the reward checks still pass, since they run before the key lookup. */
  lemma RetryAnswers(s: Shop, user: UserId, reward: RewardId, request: nat, code: nat, now: Instant,
                     steps: seq<Step>, code2: nat, later: Instant)
    requires Inv(s) && Redeem(s, user, reward, request, code, now).1.Ok?
    ensures var (mid, r) := Redeem(s, user, reward, request, code, now);
            var end := Run(mid, steps);
            var (again, answer) := Redeem(end, user, reward, request, code2, later);
            && again == end
            && (RewardProblem(end, reward, later).Some? ==> answer == Err(RewardProblem(end, reward, later).value))
            && (answer == r <==> RewardProblem(end, reward, later).None?)
  {
    var (mid, r) := Redeem(s, user, reward, request, code, now);
    StepKeeps(s, DoRedeem(user, reward, request, code, now));
    assert mid == Apply(s, DoRedeem(user, reward, request, code, now));
    MadeByItself(s, user, reward, request, code, now);
    EveryRunConserves(mid, steps);
    var end := Run(mid, steps);
    assert end.book.rows[mid.redemptions[r.value].txn] == mid.book.rows[mid.redemptions[r.value].txn];
    assert MadeBy(end, r.value, user, reward, request);
    var at := FindRedemption(end, |end.redemptions|, user, reward, request);
    OneMaker(end, user, reward, request, r.value, at.value);
  }

  /** The status check of a cancel is outside its transaction: two cancels that both passed it pay
      one refund but take two off the sold count. */
  lemma RacingCancelsUndercount(s: Shop, id: nat)
    requires Inv(s) && id < |s.redemptions| && CancelAndRefund(s, id).1.Ok?
    ensures var once := CommitCancel(s, id).0;
            var twice := CommitCancel(once, id).0;
            var w := s.redemptions[id].reward;
            && twice.book == once.book && twice.redemptions == once.redemptions
            && once.rewards[w].sold == s.rewards[w].sold - 1
            && twice.rewards[w].sold == s.rewards[w].sold - 2
  {
    CancelKeeps(s, id);
    var once := CommitCancel(s, id).0;
    assert HasKey(once.book.rows, RefundKey(id));
    assert once.redemptions[id := once.redemptions[id].(status := Cancelled)] == once.redemptions;
  }
}
