/** What an attendance earns, what is written for it, and the welcome bonus, spelled out. */
module AwardAmounts {
  import opened Domain
  import opened Ledger
  import opened Awards

  /** Nothing is due for events that earn no points and for partners' events, whatever their own amount. */
  lemma NothingDueExactly(e: Event, cfg: Config)
    ensures Due(e, cfg).None? <==>
              || !e.eligible || e.kind == Partner
              || (e.basePoints <= 0 && e.kind == Regular && cfg.regularFallback <= 0)
              || (e.basePoints <= 0 && e.kind == Special && cfg.specialFallback <= 0)
  {}

  /** Otherwise the event's own amount, and without one the fallback of its type. */
  lemma AmountDue(e: Event, cfg: Config)
    requires Due(e, cfg).Some?
    ensures e.basePoints > 0 ==> Due(e, cfg) == Some(e.basePoints)
    ensures e.basePoints <= 0 && e.kind == Regular ==> Due(e, cfg) == Some(cfg.regularFallback)
    ensures e.basePoints <= 0 && e.kind == Special ==> Due(e, cfg) == Some(cfg.specialFallback)
  {}

  predicate Blocked(b: Book, user: UserId) { user in b.accounts && b.accounts[user].status == BlockedAccount }

  function BalanceOf(b: Book, user: UserId): int { if user in b.accounts then b.accounts[user].balance else 0 }

  /** The row a first award adds to the ledger, and when there is none. */
  lemma AwardsExactly(b: Book, a: AttendanceId, attended: EventId, user: UserId, e: Event, cfg: Config)
    requires !HasKey(b.rows, AttendanceKey(a))
    ensures var (after, r) := Award(b, a, attended, user, e, cfg);
            && (r == Err(EventMismatch) <==> e.eligible && attended != e.id)
            && (r == Err(NotPosted(AccountBlocked)) <==> attended == e.id && Due(e, cfg).Some? && Blocked(b, user))
            && (r == Ok(None) <==> !e.eligible || (attended == e.id && Due(e, cfg).None?))
            && (r.Ok? && r.value.Some? <==> attended == e.id && Due(e, cfg).Some? && !Blocked(b, user))
            && (!(r.Ok? && r.value.Some?) ==> after == b)
            && (r.Ok? && r.value.Some? ==>
                  var amount := Due(e, cfg).value;
                  var reason := if e.kind == Special then AttendanceSpecial else AttendanceRegular;
                  after.rows == b.rows + [Row(Posting(user, Credit, amount, reason, ToAttendance(a), AttendanceKey(a)),
                                              BalanceOf(b, user) + amount)])
  {}

  /** The first sign-up pays exactly the bonus of the configuration, if it has one. */
  lemma WelcomesExactly(b: Book, user: UserId, cfg: Config)
    requires !HasKey(b.rows, SignupKey(user))
    ensures var (after, r) := Welcome(b, user, cfg);
            && (r == Ok(None) <==> cfg.welcomeBonus <= 0)
            && (r == Err(AccountBlocked) <==> cfg.welcomeBonus > 0 && Blocked(b, user))
            && (r.Ok? && r.value.Some? <==> cfg.welcomeBonus > 0 && !Blocked(b, user))
            && (!(r.Ok? && r.value.Some?) ==> after == b)
            && (r.Ok? && r.value.Some? ==>
                  after.rows == b.rows + [Row(Posting(user, Credit, cfg.welcomeBonus, SignupBonus, NoRef,
                                                      SignupKey(user)),
                                              BalanceOf(b, user) + cfg.welcomeBonus)])
  {}

  /** Any posting: refused for its amount, answered by an earlier row, refused for a blocked account, or appended
      with the balance it leaves. */
  lemma PostsExactly(b: Book, p: Posting)
    ensures var (after, r) := Post(b, p);
            && (r == Err(InvalidAmount) <==> p.amount <= 0)
            && (r == Err(AccountBlocked) <==> p.amount > 0 && !HasKey(b.rows, p.key) && Blocked(b, p.user))
            && (r.Ok? <==> p.amount > 0 && (HasKey(b.rows, p.key) || !Blocked(b, p.user)))
            && (r.Err? || HasKey(b.rows, p.key) ==> after == b)
            && (r.Ok? && HasKey(b.rows, p.key) ==> r.value in b.rows && r.value.posting.key == p.key)
            && (r.Ok? && !HasKey(b.rows, p.key) ==>
                  var balance := BalanceOf(b, p.user) + (if p.direction == Credit then p.amount else -p.amount);
                  && r.value == Row(p, balance) && after.rows == b.rows + [r.value]
                  && after.accounts == b.accounts[p.user := Account(ActiveAccount, balance)])
  {}

  /** Blocking an account takes hold at once for new postings, and unblocking lifts it; neither moves a balance. */
  lemma StatusTakesHold(b: Book, p: Posting, status: AccountStatus)
    requires p.amount > 0 && !HasKey(b.rows, p.key) && p.user in b.accounts
    ensures var changed := WithStatus(b, p.user, status);
            && changed.rows == b.rows && (forall u :: BalanceOf(changed, u) == BalanceOf(b, u))
            && (Post(changed, p).1 == Err(AccountBlocked) <==> status == BlockedAccount)
  {}
}
