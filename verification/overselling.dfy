/** Redeem calls whose reward check, balance check and transaction are separate steps: how far
    concurrent calls can overshoot a capacity and a balance. */
module Overselling {
  import opened Domain
  import opened Ledger
  import opened Redemptions

  /** A redeem between its reward check and its commit; `cost` is the cost it read. */
  datatype Flight = Flight(user: UserId, reward: RewardId, cost: int, request: nat, funded: bool)

  datatype State = State(shop: Shop, flights: seq<Flight>)

  datatype Step =
    | Enter(user: UserId, reward: RewardId, request: nat, now: Instant)  // reward read and checked
    | Fund(index: nat)                                                   // key lookup, then balance check
    | Finish(index: nat, code: nat, now: Instant)                        // the transaction
    | Fail(index: nat)                                                   // the call dies
    | CancelOne(redemption: nat)
    | UseOne(code: nat, now: Instant)
    | CreditPoints(posting: Posting)
    | SetAccount(owner: UserId, account: AccountStatus)
    | EditReward(edited: RewardId, fields: Reward)                       // capacity held fixed

  function Without(fs: seq<Flight>, i: nat): seq<Flight>
    requires i < |fs|
  {
    fs[..i] + fs[i + 1..]
  }

  function Apply(s: State, step: Step): State {
    match step
    case Enter(user, reward, request, now) =>
      if RewardProblem(s.shop, reward, now).Some? then s
      else s.(flights := s.flights + [Flight(user, reward, s.shop.rewards[reward].cost, request, false)])
    case Fund(i) =>
      if i >= |s.flights| || s.flights[i].funded then s
      else
        var f := s.flights[i];
        if FindRedemption(s.shop, |s.shop.redemptions|, f.user, f.reward, f.request).Some?
           || f.user !in s.shop.book.accounts || Balance(s.shop.book, f.user) < f.cost
        then s.(flights := Without(s.flights, i))
        else s.(flights := s.flights[i := f.(funded := true)])
    case Finish(i, code, now) =>
      if i >= |s.flights| || !s.flights[i].funded then s
      else
        var f := s.flights[i];
        State(CommitRedeem(s.shop, f.user, f.reward, f.cost, f.request, code, now).0, Without(s.flights, i))
    case Fail(i) => if i >= |s.flights| then s else s.(flights := Without(s.flights, i))
    case CancelOne(id) => s.(shop := CancelAndRefund(s.shop, id).0)
    case UseOne(code, now) => s.(shop := MarkUsed(s.shop, code, now).0)
    case CreditPoints(p) =>
      if p.direction == Debit then s else s.(shop := s.shop.(book := Post(s.shop.book, p).0))
    case SetAccount(u, account) => s.(shop := s.shop.(book := WithStatus(s.shop.book, u, account)))
    case EditReward(id, fields) =>
      if id !in s.shop.rewards then s
      else
        var r := s.shop.rewards[id];
        s.(shop := s.shop.(rewards := s.shop.rewards[id := fields.(sold := r.sold, capacity := r.capacity)]))
  }

  function Run(s: State, steps: seq<Step>): State
    decreases |steps|
  {
    if |steps| == 0 then s else Run(Apply(s, steps[0]), steps[1..])
  }

  // ---------------------------------------------------------------- weighing the calls in flight

  function Sum(fs: seq<Flight>, weight: Flight -> int): int {
    if |fs| == 0 then 0 else Sum(fs[..|fs| - 1], weight) + weight(fs[|fs| - 1])
  }

  function OnReward(reward: RewardId): Flight -> int { (f: Flight) => if f.reward == reward then 1 else 0 }

  function OfUser(user: UserId): Flight -> int { (f: Flight) => if f.user == user then 1 else 0 }

  /** What the funded calls of `user` are about to debit. */
  function Owed(user: UserId): Flight -> int { (f: Flight) => if f.user == user && f.funded then f.cost else 0 }

  lemma SumAppend(fs: seq<Flight>, f: Flight, weight: Flight -> int)
    ensures Sum(fs + [f], weight) == Sum(fs, weight) + weight(f)
  {
    assert (fs + [f])[..|fs|] == fs;
  }

  lemma {:induction false} SumWithout(fs: seq<Flight>, i: nat, weight: Flight -> int)
    requires i < |fs|
    ensures Sum(Without(fs, i), weight) == Sum(fs, weight) - weight(fs[i])
    decreases |fs|
  {
    var n := |fs| - 1;
    if i == n {
      assert Without(fs, i) == fs[..n];
    } else {
      assert Without(fs, i)[..n - 1] == Without(fs[..n], i);
      assert Without(fs, i)[n - 1] == fs[n];
      SumWithout(fs[..n], i, weight);
    }
  }

  lemma {:induction false} SumUpdate(fs: seq<Flight>, i: nat, f: Flight, weight: Flight -> int)
    requires i < |fs|
    ensures Sum(fs[i := f], weight) == Sum(fs, weight) - weight(fs[i]) + weight(f)
    decreases |fs|
  {
    var n := |fs| - 1;
    if i == n {
      assert fs[i := f][..n] == fs[..n];
    } else {
      assert fs[i := f][..n] == fs[..n][i := f];
      SumUpdate(fs[..n], i, f, weight);
    }
  }

  lemma {:induction false} SumNonNegative(fs: seq<Flight>, weight: Flight -> int)
    requires forall f :: weight(f) >= 0
    ensures Sum(fs, weight) >= 0
    decreases |fs|
  {
    if |fs| > 0 {
      SumNonNegative(fs[..|fs| - 1], weight);
    }
  }

  lemma {:induction false} OwedAtMost(fs: seq<Flight>, user: UserId, max: int)
    requires max >= 0 && forall i :: 0 <= i < |fs| ==> fs[i].cost <= max
    ensures Sum(fs, Owed(user)) <= Sum(fs, OfUser(user)) * max
    decreases |fs|
  {
    if |fs| > 0 {
      var front := fs[..|fs| - 1];
      OwedAtMost(front, user, max);
      var n := Sum(front, OfUser(user));
      assert (n + 1) * max == n * max + max;
    }
  }

  // ---------------------------------------------------------------- sold count against capacity

  /** At most `k` calls of this weight are in flight in every state of the run. */
  ghost predicate Few(s: State, steps: seq<Step>, weight: Flight -> int, k: int)
    decreases |steps|
  {
    Sum(s.flights, weight) <= k && (|steps| > 0 ==> Few(Apply(s, steps[0]), steps[1..], weight, k))
  }

  ghost predicate SoldWithin(s: State, reward: RewardId, capacity: int, k: int) {
    && reward in s.shop.rewards && s.shop.rewards[reward].capacity == Some(capacity)
    && s.shop.rewards[reward].sold + Sum(s.flights, OnReward(reward)) <= capacity + k - 1
  }

  lemma FinishKeepsSold(s: State, i: nat, code: nat, now: Instant, reward: RewardId, capacity: int, k: int)
    requires SoldWithin(s, reward, capacity, k)
    ensures SoldWithin(Apply(s, Finish(i, code, now)), reward, capacity, k)
  {
    if i < |s.flights| && s.flights[i].funded {
      SumWithout(s.flights, i, OnReward(reward));
    }
  }

  lemma EnterKeepsSold(s: State, step: Step, reward: RewardId, capacity: int, k: int)
    requires step.Enter? && SoldWithin(s, reward, capacity, k)
    requires Sum(Apply(s, step).flights, OnReward(reward)) <= k
    ensures SoldWithin(Apply(s, step), reward, capacity, k)
  {
    if Apply(s, step) != s {
      var f := Flight(step.user, step.reward, s.shop.rewards[step.reward].cost, step.request, false);
      SumAppend(s.flights, f, OnReward(reward));
    }
  }

  lemma FundKeepsSold(s: State, i: nat, reward: RewardId, capacity: int, k: int)
    requires SoldWithin(s, reward, capacity, k)
    ensures SoldWithin(Apply(s, Fund(i)), reward, capacity, k)
  {
    if Apply(s, Fund(i)) != s {
      SumWithout(s.flights, i, OnReward(reward));
      SumUpdate(s.flights, i, s.flights[i].(funded := true), OnReward(reward));
    }
  }

  lemma StepKeepsSold(s: State, step: Step, reward: RewardId, capacity: int, k: int)
    requires SoldWithin(s, reward, capacity, k) && Sum(Apply(s, step).flights, OnReward(reward)) <= k
    ensures SoldWithin(Apply(s, step), reward, capacity, k)
  {
    match step
    case Enter(_, _, _, _) => EnterKeepsSold(s, step, reward, capacity, k);
    case Fund(i) => FundKeepsSold(s, i, reward, capacity, k);
    case Finish(i, code, now) => FinishKeepsSold(s, i, code, now, reward, capacity, k);
    case Fail(i) =>
      if i < |s.flights| {
        SumWithout(s.flights, i, OnReward(reward));
      }
    case CancelOne(id) =>
    case UseOne(_, _) =>
    case CreditPoints(_) =>
    case SetAccount(_, _) =>
    case EditReward(_, _) =>
  }

  lemma {:induction false} RunKeepsSold(s: State, steps: seq<Step>, reward: RewardId, capacity: int, k: int)
    requires SoldWithin(s, reward, capacity, k) && Few(s, steps, OnReward(reward), k)
    ensures SoldWithin(Run(s, steps), reward, capacity, k)
    decreases |steps|
  {
    if |steps| > 0 {
      StepKeepsSold(s, steps[0], reward, capacity, k);
      RunKeepsSold(Apply(s, steps[0]), steps[1..], reward, capacity, k);
    }
  }

  /** With at most k redeems of a reward between check and commit, it is oversold by at most k - 1;
      one at a time, never. */
  lemma SoldAtMost(s: State, steps: seq<Step>, reward: RewardId, capacity: int, k: nat)
    requires k >= 1 && s.flights == [] && Few(s, steps, OnReward(reward), k)
    requires reward in s.shop.rewards && s.shop.rewards[reward].capacity == Some(capacity)
    requires s.shop.rewards[reward].sold <= capacity
    ensures var end := Run(s, steps).shop;
            reward in end.rewards && end.rewards[reward].sold <= capacity + k - 1
  {
    RunKeepsSold(s, steps, reward, capacity, k);
    SumNonNegative(Run(s, steps).flights, OnReward(reward));
  }

  // ---------------------------------------------------------------- balance against debits

  /** Costs read by calls, stored on rewards and set by edits lie in 0..max. */
  ghost predicate CostsWithin(s: State, max: int) {
    && (forall i :: 0 <= i < |s.flights| ==> 0 <= s.flights[i].cost <= max)
    && (forall r :: r in s.shop.rewards ==> 0 <= s.shop.rewards[r].cost <= max)
  }

  ghost predicate EditsWithin(steps: seq<Step>, max: int) {
    forall i :: 0 <= i < |steps| && steps[i].EditReward? ==> 0 <= steps[i].fields.cost <= max
  }

  ghost predicate BalanceWithin(s: State, user: UserId, max: int, k: int) {
    && CostsWithin(s, max)
    && Balance(s.shop.book, user) - Sum(s.flights, Owed(user)) >= -((k - 1) * max)
  }

  /** What posting does to a balance. */
  lemma PostMoves(b: Book, p: Posting, user: UserId)
    ensures var after := Post(b, p).0;
            || Balance(after, user) == Balance(b, user)
            || (p.amount > 0 && user == p.user && Balance(after, user) == Balance(b, user) + Signed(p))
  {}

  lemma CommitMoves(s: Shop, f: Flight, code: nat, now: Instant, user: UserId)
    requires f.cost >= 0
    ensures var later := CommitRedeem(s, f.user, f.reward, f.cost, f.request, code, now).0;
            && Balance(later.book, user) >= Balance(s.book, user) - (if f.user == user then f.cost else 0)
            && (forall r :: r in later.rewards ==> r in s.rewards && later.rewards[r].cost == s.rewards[r].cost)
  {
    PostMoves(s.book, DebitFor(f.user, f.reward, f.cost, f.request), user);
  }

  lemma CancelMoves(s: Shop, id: nat, user: UserId)
    ensures var later := CancelAndRefund(s, id).0;
            && Balance(later.book, user) >= Balance(s.book, user)
            && (forall r :: r in later.rewards ==> r in s.rewards && later.rewards[r].cost == s.rewards[r].cost)
  {
    if id < |s.redemptions| {
      PostMoves(s.book, Refund(s, id), user);
    }
  }

  lemma MulMonotone(m: int, n: int, max: int)
    requires m <= n && 0 <= max
    ensures m * max <= n * max
  {}

  /** The balance check leaves room for this debit beside the k - 1 others that may be in flight. */
  lemma FundingLeavesRoom(fs: seq<Flight>, i: nat, user: UserId, balance: int, max: int, k: int)
    requires i < |fs| && fs[i].user == user && !fs[i].funded && balance >= fs[i].cost
    requires max >= 0 && Sum(fs, OfUser(user)) <= k
    requires forall j :: 0 <= j < |fs| ==> 0 <= fs[j].cost <= max
    ensures balance - Sum(fs[i := fs[i].(funded := true)], Owed(user)) >= -((k - 1) * max)
  {
    var others := Without(fs, i);
    SumWithout(fs, i, Owed(user));
    SumWithout(fs, i, OfUser(user));
    SumUpdate(fs, i, fs[i].(funded := true), Owed(user));
    forall j | 0 <= j < |others| ensures others[j].cost <= max {
      assert others[j] == if j < i then fs[j] else fs[j + 1];
    }
    OwedAtMost(others, user, max);
    MulMonotone(Sum(others, OfUser(user)), k - 1, max);
  }

  lemma FundKeepsBalance(s: State, i: nat, user: UserId, max: int, k: int)
    requires BalanceWithin(s, user, max, k) && max >= 0 && Sum(s.flights, OfUser(user)) <= k
    ensures BalanceWithin(Apply(s, Fund(i)), user, max, k)
  {
    if i < |s.flights| && !s.flights[i].funded {
      var f := s.flights[i];
      SumWithout(s.flights, i, Owed(user));
      SumUpdate(s.flights, i, f.(funded := true), Owed(user));
      if f.user == user && Balance(s.shop.book, user) >= f.cost {
        FundingLeavesRoom(s.flights, i, user, Balance(s.shop.book, user), max, k);
      }
    }
  }

  lemma FinishKeepsBalance(s: State, i: nat, code: nat, now: Instant, user: UserId, max: int, k: int)
    requires BalanceWithin(s, user, max, k)
    ensures BalanceWithin(Apply(s, Finish(i, code, now)), user, max, k)
  {
    if Apply(s, Finish(i, code, now)) != s {
      SumWithout(s.flights, i, Owed(user));
      CommitMoves(s.shop, s.flights[i], code, now, user);
    }
  }

  lemma StepKeepsBalance(s: State, step: Step, user: UserId, max: int, k: int)
    requires BalanceWithin(s, user, max, k) && max >= 0 && Sum(s.flights, OfUser(user)) <= k
    requires EditsWithin([step], max)
    ensures BalanceWithin(Apply(s, step), user, max, k)
  {
    match step
    case Enter(u, entered, request, _) =>
      if Apply(s, step) != s {
        SumAppend(s.flights, Flight(u, entered, s.shop.rewards[entered].cost, request, false), Owed(user));
      }
    case Fund(i) => FundKeepsBalance(s, i, user, max, k);
    case Finish(i, code, now) => FinishKeepsBalance(s, i, code, now, user, max, k);
    case Fail(i) =>
      if i < |s.flights| {
        SumWithout(s.flights, i, Owed(user));
      }
    case CancelOne(id) => CancelMoves(s.shop, id, user);
    case UseOne(_, _) =>
    case CreditPoints(p) => PostMoves(s.shop.book, p, user);
    case SetAccount(_, _) =>
    case EditReward(_, fields) =>
      assert [step][0].fields.cost <= max;
  }

  lemma {:induction false} RunKeepsBalance(s: State, steps: seq<Step>, user: UserId, max: int, k: int)
    requires BalanceWithin(s, user, max, k) && max >= 0 && Few(s, steps, OfUser(user), k) && EditsWithin(steps, max)
    ensures BalanceWithin(Run(s, steps), user, max, k)
    decreases |steps|
  {
    if |steps| > 0 {
      assert EditsWithin([steps[0]], max) by {
        assert [steps[0]][0] == steps[0];
      }
      assert EditsWithin(steps[1..], max) by {
        forall i | 0 <= i < |steps[1..]| && steps[1..][i].EditReward? ensures 0 <= steps[1..][i].fields.cost <= max {
          assert steps[1..][i] == steps[i + 1];
        }
      }
      StepKeepsBalance(s, steps[0], user, max, k);
      RunKeepsBalance(Apply(s, steps[0]), steps[1..], user, max, k);
    }
  }

  lemma {:induction false} OwedNonNegative(fs: seq<Flight>, user: UserId, max: int)
    requires forall i :: 0 <= i < |fs| ==> 0 <= fs[i].cost <= max
    ensures Sum(fs, Owed(user)) >= 0
    decreases |fs|
  {
    if |fs| > 0 {
      OwedNonNegative(fs[..|fs| - 1], user, max);
    }
  }

  /** With at most k redeems of a user in flight, no other debits and costs up to `max`, the balance
      never falls below -(k - 1) * max; one at a time, never below zero. */
  lemma BalanceAtLeast(s: State, steps: seq<Step>, user: UserId, max: int, k: nat)
    requires k >= 1 && max >= 0 && s.flights == [] && CostsWithin(s, max) && EditsWithin(steps, max)
    requires Balance(s.shop.book, user) >= 0 && Few(s, steps, OfUser(user), k)
    ensures Balance(Run(s, steps).shop.book, user) >= -((k - 1) * max)
  {
    assert (k - 1) * max >= 0;
    RunKeepsBalance(s, steps, user, max, k);
    OwedNonNegative(Run(s, steps).flights, user, max);
  }

  // ---------------------------------------------------------------- the bounds are reached

  /** One reward of capacity 1 costing `cost`, one runner who earned exactly that. */
  function Opening(cost: int): State {
    var earned := Posting(0, Credit, cost, ManualAdjustment, NoRef, ManualKey(0));
    State(Shop(Book(map[0 := Account(ActiveAccount, cost)], [Row(earned, cost)]),
               map[0 := Reward(cost, true, true, None, None, Some(1), 0)], []), [])
  }

  /** `n` of the runner's calls, with request keys from `first` on, all past both checks. */
  function Waiting(cost: int, first: nat, n: nat): seq<Flight> {
    seq(n, (i: nat) => Flight(0, 0, cost, first + i, true))
  }

  function AfterOne(shop: Shop, cost: int, first: nat): Shop { CommitRedeem(shop, 0, 0, cost, first, first, 0).0 }

  /** The shop after `n` of those calls committed, from number `first` on. */
  function Served(shop: Shop, cost: int, first: nat, n: nat): Shop
    decreases n
  {
    if n == 0 then shop else Served(AfterOne(shop, cost, first), cost, first + 1, n - 1)
  }

  /** What serving `n` calls leaves: n sold, n debits, request keys and codes below n. */
  ghost predicate ServedOk(s: Shop, cost: int, n: nat) {
    && s.rewards == map[0 := Reward(cost, true, true, None, None, Some(1), n)]
    && AccountOf(s.book, 0) == Account(ActiveAccount, cost - n * cost)
    && (forall i :: 0 <= i < |s.book.rows| && s.book.rows[i].posting.key.RedemptionKey? ==>
          s.book.rows[i].posting.key.request < n)
    && (forall i :: 0 <= i < |s.redemptions| ==> s.redemptions[i].code < n && s.redemptions[i].txn < |s.book.rows|)
  }

  lemma ServeOneMore(s: Shop, cost: int, n: nat)
    requires cost > 0 && ServedOk(s, cost, n)
    ensures ServedOk(CommitRedeem(s, 0, 0, cost, n, n, 0).0, cost, n + 1)
  {
    var p := DebitFor(0, 0, cost, n);
    assert !HasKey(s.book.rows, p.key);
    var book := Append(s.book, p);
    assert book.rows[|s.book.rows|].posting.key == p.key;
    assert FindKey(book.rows, p.key) == Some(|s.book.rows|);
    assert !TxnTaken(s.redemptions, |s.book.rows|) && !HasCode(s.redemptions, n);
    assert (n + 1) * cost == n * cost + cost;
  }

  lemma {:induction false} ServedTotals(shop: Shop, cost: int, first: nat, n: nat)
    requires cost > 0 && ServedOk(shop, cost, first)
    ensures ServedOk(Served(shop, cost, first, n), cost, first + n)
    decreases n
  {
    if n > 0 {
      ServeOneMore(shop, cost, first);
      ServedTotals(AfterOne(shop, cost, first), cost, first + 1, n - 1);
    }
  }

  lemma OpeningOk(cost: int)
    ensures ServedOk(Opening(cost).shop, cost, 0)
  {}

  function EnterSteps(first: nat, n: nat): seq<Step>
    decreases n
  {
    if n == 0 then [] else [Enter(0, 0, first, 0), Fund(first)] + EnterSteps(first + 1, n - 1)
  }

  function FinishSteps(first: nat, n: nat): (steps: seq<Step>)
    ensures |steps| == n
    decreases n
  {
    if n == 0 then [] else [Finish(0, first, 0)] + FinishSteps(first + 1, n - 1)
  }

  lemma {:induction false} RunConcat(s: State, xs: seq<Step>, ys: seq<Step>)
    ensures Run(s, xs + ys) == Run(Run(s, xs), ys)
    decreases |xs|
  {
    if |xs| == 0 {
      assert xs + ys == ys;
    } else {
      assert (xs + ys)[1..] == xs[1..] + ys;
      RunConcat(Apply(s, xs[0]), xs[1..], ys);
    }
  }

  lemma {:induction false} FewConcat(s: State, xs: seq<Step>, ys: seq<Step>, weight: Flight -> int, k: int)
    requires Few(s, xs, weight, k) && Few(Run(s, xs), ys, weight, k)
    ensures Few(s, xs + ys, weight, k)
    decreases |xs|
  {
    if |xs| == 0 {
      assert xs + ys == ys;
    } else {
      assert (xs + ys)[1..] == xs[1..] + ys;
      FewConcat(Apply(s, xs[0]), xs[1..], ys, weight, k);
    }
  }

  /** A weight that counts a call once or not at all. */
  ghost predicate Counts(weight: Flight -> int) { forall f :: weight(f) <= 1 }

  lemma {:induction false} SumAtMostLength(fs: seq<Flight>, weight: Flight -> int)
    requires Counts(weight)
    ensures Sum(fs, weight) <= |fs|
    decreases |fs|
  {
    if |fs| > 0 {
      SumAtMostLength(fs[..|fs| - 1], weight);
    }
  }

  lemma EnterOne(cost: int, first: nat)
    requires cost > 0
    ensures Apply(Apply(State(Opening(cost).shop, Waiting(cost, 0, first)), Enter(0, 0, first, 0)), Fund(first)) ==
            State(Opening(cost).shop, Waiting(cost, 0, first + 1))
  {
    var s := State(Opening(cost).shop, Waiting(cost, 0, first));
    var entered := Apply(s, Enter(0, 0, first, 0));
    assert entered.flights == s.flights + [Flight(0, 0, cost, first, false)];
    assert entered.flights[first := Flight(0, 0, cost, first, true)] == Waiting(cost, 0, first + 1);
  }

  function EnterState(cost: int, n: nat): State { State(Opening(cost).shop, Waiting(cost, 0, n)) }

  lemma OneThenRest(s: State, step: Step, rest: seq<Step>, steps: seq<Step>, weight: Flight -> int, k: int)
    requires steps == [step] + rest && Sum(s.flights, weight) <= k && Few(Apply(s, step), rest, weight, k)
    ensures Few(s, steps, weight, k) && Run(s, steps) == Run(Apply(s, step), rest)
  {
    assert steps[0] == step && steps[1..] == rest;
  }

  lemma EnterThenRest(cost: int, first: nat, rest: seq<Step>, weight: Flight -> int, k: int)
    requires cost > 0 && Counts(weight) && first + 1 <= k && Few(EnterState(cost, first + 1), rest, weight, k)
    ensures var steps := [Enter(0, 0, first, 0), Fund(first)] + rest;
            && Few(EnterState(cost, first), steps, weight, k)
            && Run(EnterState(cost, first), steps) == Run(EnterState(cost, first + 1), rest)
  {
    var s := EnterState(cost, first);
    var entered := Apply(s, Enter(0, 0, first, 0));
    EnterOne(cost, first);
    SumAtMostLength(s.flights, weight);
    assert entered.flights == s.flights + [Flight(0, 0, cost, first, false)];
    SumAtMostLength(entered.flights, weight);
    OneThenRest(entered, Fund(first), rest, [Fund(first)] + rest, weight, k);
    OneThenRest(s, Enter(0, 0, first, 0), [Fund(first)] + rest, [Enter(0, 0, first, 0), Fund(first)] + rest, weight, k);
  }

  lemma {:induction false} AllEnter(cost: int, first: nat, n: nat, weight: Flight -> int)
    requires cost > 0 && Counts(weight)
    ensures Few(EnterState(cost, first), EnterSteps(first, n), weight, first + n)
    ensures Run(EnterState(cost, first), EnterSteps(first, n)) == EnterState(cost, first + n)
    decreases n
  {
    SumAtMostLength(EnterState(cost, first).flights, weight);
    if n > 0 {
      AllEnter(cost, first + 1, n - 1, weight);
      EnterThenRest(cost, first, EnterSteps(first + 1, n - 1), weight, first + n);
    }
  }

  /** A run given state by state. */
  lemma {:induction false} Chain(states: seq<State>, steps: seq<Step>, weight: Flight -> int, k: int)
    requires |states| == |steps| + 1
    requires forall i :: 0 <= i < |steps| ==> Apply(states[i], steps[i]) == states[i + 1]
    requires forall i :: 0 <= i < |states| ==> Sum(states[i].flights, weight) <= k
    ensures Few(states[0], steps, weight, k) && Run(states[0], steps) == states[|steps|]
    decreases |steps|
  {
    if |steps| > 0 {
      Chain(states[1..], steps[1..], weight, k);
    }
  }

  function FinishStates(shop: Shop, cost: int, first: nat, n: nat): (states: seq<State>)
    ensures |states| == n + 1 && states[0] == State(shop, Waiting(cost, first, n))
    decreases n
  {
    [State(shop, Waiting(cost, first, n))]
    + (if n == 0 then [] else FinishStates(AfterOne(shop, cost, first), cost, first + 1, n - 1))
  }

  lemma FinishOne(shop: Shop, cost: int, first: nat, n: nat)
    requires n > 0
    ensures Apply(State(shop, Waiting(cost, first, n)), Finish(0, first, 0)) ==
            State(AfterOne(shop, cost, first), Waiting(cost, first + 1, n - 1))
  {
    var flights := Waiting(cost, first, n);
    assert flights[0] == Flight(0, 0, cost, first, true);
    assert Without(flights, 0) == Waiting(cost, first + 1, n - 1);
  }

  lemma {:induction false} FinishStep(shop: Shop, cost: int, first: nat, n: nat, i: nat)
    requires i < n
    ensures Apply(FinishStates(shop, cost, first, n)[i], FinishSteps(first, n)[i]) ==
            FinishStates(shop, cost, first, n)[i + 1]
    decreases n
  {
    if i == 0 {
      FinishOne(shop, cost, first, n);
    } else {
      FinishStep(AfterOne(shop, cost, first), cost, first + 1, n - 1, i - 1);
    }
  }

  lemma {:induction false} FewerWait(shop: Shop, cost: int, first: nat, n: nat, i: nat)
    requires i <= n
    ensures |FinishStates(shop, cost, first, n)[i].flights| == n - i
    decreases n
  {
    if i > 0 {
      FewerWait(AfterOne(shop, cost, first), cost, first + 1, n - 1, i - 1);
    }
  }

  lemma {:induction false} LastServed(shop: Shop, cost: int, first: nat, n: nat)
    ensures FinishStates(shop, cost, first, n)[n].shop == Served(shop, cost, first, n)
    decreases n
  {
    if n > 0 {
      LastServed(AfterOne(shop, cost, first), cost, first + 1, n - 1);
    }
  }

  lemma StatesAreFew(shop: Shop, cost: int, first: nat, n: nat, i: nat, weight: Flight -> int)
    requires i <= n && Counts(weight)
    ensures Sum(FinishStates(shop, cost, first, n)[i].flights, weight) <= n
  {
    FewerWait(shop, cost, first, n, i);
    SumAtMostLength(FinishStates(shop, cost, first, n)[i].flights, weight);
  }

  lemma AllFinish(shop: Shop, cost: int, n: nat, weight: Flight -> int)
    requires Counts(weight)
    ensures var s, steps := State(shop, Waiting(cost, 0, n)), FinishSteps(0, n);
            Few(s, steps, weight, n) && Run(s, steps) == State(Served(shop, cost, 0, n), [])
  {
    var states, steps := FinishStates(shop, cost, 0, n), FinishSteps(0, n);
    forall i | 0 <= i < |steps| ensures Apply(states[i], steps[i]) == states[i + 1] {
      FinishStep(shop, cost, 0, n, i);
    }
    forall i | 0 <= i < |states| ensures Sum(states[i].flights, weight) <= n {
      StatesAreFew(shop, cost, 0, n, i, weight);
    }
    Chain(states, steps, weight, n);
    LastServed(shop, cost, 0, n);
    FewerWait(shop, cost, 0, n, n);
  }

  lemma OpeningIsValid(cost: int)
    requires cost > 0
    ensures Valid(Opening(cost).shop.book)
  {
    var rows := Opening(cost).shop.book.rows;
    assert rows[..1] == rows && rows[..0] == [];
  }

  /** All check first, then all commit. */
  function Rush(k: nat): seq<Step> { EnterSteps(0, k) + FinishSteps(0, k) }

  lemma EveryoneChecksFirst(cost: int, k: nat, weight: Flight -> int)
    requires cost > 0 && Counts(weight)
    ensures Few(Opening(cost), Rush(k), weight, k)
    ensures Run(Opening(cost), Rush(k)) == State(Served(Opening(cost).shop, cost, 0, k), [])
  {
    var start := Opening(cost);
    assert start.flights == Waiting(cost, 0, 0);
    AllEnter(cost, 0, k, weight);
    AllFinish(start.shop, cost, k, weight);
    RunConcat(start, EnterSteps(0, k), FinishSteps(0, k));
    FewConcat(start, EnterSteps(0, k), FinishSteps(0, k), weight, k);
  }

  lemma {:induction false} EnteringEditsNothing(first: nat, n: nat)
    ensures forall i :: 0 <= i < |EnterSteps(first, n)| ==> !EnterSteps(first, n)[i].EditReward?
    decreases n
  {
    if n > 0 {
      EnteringEditsNothing(first + 1, n - 1);
    }
  }

  lemma {:induction false} FinishingEditsNothing(first: nat, n: nat)
    ensures forall i :: 0 <= i < |FinishSteps(first, n)| ==> !FinishSteps(first, n)[i].EditReward?
    decreases n
  {
    if n > 0 {
      FinishingEditsNothing(first + 1, n - 1);
    }
  }

  /** The opening meets what both bounds ask of a start. */
  lemma OpeningMeetsBounds(cost: int, k: nat)
    requires cost > 0
    ensures Valid(Opening(cost).shop.book) && Opening(cost).flights == [] && CostsWithin(Opening(cost), cost)
    ensures Balance(Opening(cost).shop.book, 0) == cost && EditsWithin(Rush(k), cost)
  {
    OpeningIsValid(cost);
    EnteringEditsNothing(0, k);
    FinishingEditsNothing(0, k);
  }

  /** Both bounds are tight for every k: from an opening and with a run that meet the hypotheses of both,
      k calls that all checked before the first committed sell capacity + k - 1 units and leave the
      balance at -(k - 1) * cost. The transaction does not check either again. */
  lemma BoundsAreReached(cost: int, k: nat)
    requires cost > 0 && k >= 1
    ensures var start, steps := Opening(cost), Rush(k);
            && Valid(start.shop.book) && start.flights == [] && CostsWithin(start, cost) && EditsWithin(steps, cost)
            && start.shop.rewards[0].capacity == Some(1) && start.shop.rewards[0].sold <= 1
            && Balance(start.shop.book, 0) >= 0
            && Few(start, steps, OnReward(0), k) && Few(start, steps, OfUser(0), k)
    ensures var end := Run(Opening(cost), Rush(k)).shop;
            && 0 in end.rewards && end.rewards[0].sold == 1 + k - 1
            && Balance(end.book, 0) == -((k - 1) * cost)
  {
    OpeningMeetsBounds(cost, k);
    EveryoneChecksFirst(cost, k, OnReward(0));
    EveryoneChecksFirst(cost, k, OfUser(0));
    OpeningOk(cost);
    ServedTotals(Opening(cost).shop, cost, 0, k);
    assert cost - k * cost == -((k - 1) * cost);
  }
}
