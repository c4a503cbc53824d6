/** Concrete shops in which a promise about redemptions does not hold. */
module RedemptionExamples {
  import opened Domain
  import opened Ledger
  import opened Redemptions
  import O = Overselling
  import R = RedemptionRuns

  /** The only unit of a reward is redeemed; the retry with the same key is told it is sold out. */
  lemma RetryCanBeRefused()
    ensures var s := O.Opening(10).shop;
            var (mid, first) := Redeem(s, 0, 0, 7, 1, 0);
            && R.Inv(s) && first == Ok(0)
            && Redeem(mid, 0, 0, 7, 2, 1) == (mid, Err(RewardSoldOut))
  {
    var s := O.Opening(10).shop;
    O.OpeningIsValid(10);
    R.OpeningIsSound(s);
    var book := Append(s.book, DebitFor(0, 0, 10, 7));
    assert book.rows[1].posting == DebitFor(0, 0, 10, 7);
    assert FindKey(s.book.rows, RedemptionKey(7)).None? && FindKey(book.rows, RedemptionKey(7)) == Some(1);
    assert CommitRedeem(s, 0, 0, 10, 7, 1, 0).1 == Ok(0);
  }

  /** A runner with ten points and an unlimited reward for five. */
  function Roomy(): Shop {
    var s := O.Opening(10).shop;
    s.(rewards := map[0 := s.rewards[0].(cost := 5, capacity := None)])
  }

  /** What the first redeem leaves: its debit, its redemption under code 1, one sold. */
  function OneSold(s: Shop): Shop
    requires 0 in s.rewards
  {
    Shop(Append(s.book, DebitFor(0, 0, 5, 7)), s.rewards[0 := Sell(s.rewards[0], 1)],
         [Redemption(0, 0, 5, Status.Active, 1, 1, Some(DEFAULT_EXPIRY_MS))])
  }

  /** The facts about that shop the two redeems turn on. */
  ghost predicate IsRoomy(s: Shop) {
    && s.redemptions == [] && 0 in s.rewards && s.rewards[0] == Reward(5, true, true, None, None, None, 0)
    && |s.book.rows| == 1 && s.book.rows[0].posting.key == ManualKey(0)
    && 0 in s.book.accounts && s.book.accounts[0] == Account(ActiveAccount, 10)
  }

  lemma FirstIsSold(s: Shop)
    requires IsRoomy(s)
    ensures Redeem(s, 0, 0, 7, 1, 0) == (OneSold(s), Ok(0))
  {
    var p := DebitFor(0, 0, 5, 7);
    var book := Append(s.book, p);
    assert FindKey(s.book.rows, p.key).None?;
    assert Post(s.book, p) == (book, Ok(book.rows[1]));
    assert book.rows[1].posting == p && FindKey(book.rows, p.key) == Some(1);
    var row := Redemption(0, 0, 5, Status.Active, 1, 1, Some(DEFAULT_EXPIRY_MS));
    assert s.redemptions + [row] == [row];
    assert CommitRedeem(s, 0, 0, 5, 7, 1, 0) == (OneSold(s), Ok(0));
  }

  lemma SecondPosts(s: Shop, mid: Book, book: Book)
    requires IsRoomy(s) && mid == Append(s.book, DebitFor(0, 0, 5, 7)) && book == Append(mid, DebitFor(0, 0, 5, 8))
    ensures Post(mid, DebitFor(0, 0, 5, 8)).0 == book && Post(mid, DebitFor(0, 0, 5, 8)).1.Ok?
    ensures FindKey(book.rows, RedemptionKey(8)) == Some(2) && FindKey(mid.rows, RedemptionKey(8)).None?
    ensures Balance(mid, 0) == 5 && 0 in mid.accounts
  {
    assert mid.rows[0] == s.book.rows[0] && mid.rows[1].posting == DebitFor(0, 0, 5, 7);
    assert FindKey(mid.rows, RedemptionKey(8)).None?;
    assert book.rows[2].posting == DebitFor(0, 0, 5, 8);
  }

  lemma SecondDraws(s: Shop, code: nat)
    requires IsRoomy(s)
    ensures var mid := OneSold(s);
            && (code == 1 ==> Redeem(mid, 0, 0, 8, code, 0) == (mid, Err(CodeTaken)))
            && (code != 1 ==> Redeem(mid, 0, 0, 8, code, 0).1 == Ok(1))
  {
    var mid := OneSold(s);
    SecondPosts(s, mid.book, Append(mid.book, DebitFor(0, 0, 5, 8)));
    assert mid.redemptions[0].txn == 1 && mid.redemptions[0].code == 1;
    assert FindRedemption(mid, 1, 0, 0, 8).None?;
  }

  /** A second redeem that first draws the code of the first one is refused whatever codes it has left, though
      with a fresh first code it would succeed. */
  lemma CollisionIsFinal()
    ensures var (mid, first) := Redeem(Roomy(), 0, 0, 7, 1, 0);
            && R.Inv(Roomy()) && first == Ok(0)
            && Redeem(mid, 0, 0, 8, 1, 0) == (mid, Err(CodeTaken)) && Redeem(mid, 0, 0, 8, 2, 0).1 == Ok(1)
  {
    var s := Roomy();
    O.OpeningIsValid(10);
    R.OpeningIsSound(s);
    assert IsRoomy(s);
    FirstIsSold(s);
    SecondDraws(s, 1);
    SecondDraws(s, 2);
  }
}
