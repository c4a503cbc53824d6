/** Which attendance earns how many points, and the award written through the ledger. */
module Awards {
  import opened Domain
  import opened Ledger

  datatype Event = Event(id: EventId, kind: EventType, startsAt: Instant, endsAt: Instant, eligible: bool,
                         basePoints: int)

  datatype Config = Config(welcomeBonus: int, regularFallback: int, specialFallback: int)

  datatype AwardError = EventMismatch | NotPosted(error: PostError)

  function AmountForEvent(e: Event, cfg: Config): int {
    if e.basePoints > 0 then e.basePoints
    else match e.kind
      case Regular => cfg.regularFallback
      case Special => cfg.specialFallback
      case Partner => 0
  }

  function ReasonForEvent(kind: EventType): Option<Reason> {
    match kind
    case Regular => Some(AttendanceRegular)
    case Special => Some(AttendanceSpecial)
    case Partner => None
  }

  /** The points an attendance of `e` is due when it is approved now; None when it earns nothing. */
  function Due(e: Event, cfg: Config): Option<int> {
    if !e.eligible || ReasonForEvent(e.kind).None? || AmountForEvent(e, cfg) <= 0 then None
    else Some(AmountForEvent(e, cfg))
  }

  function AwardPosting(a: AttendanceId, user: UserId, e: Event, amount: int): Posting
    requires ReasonForEvent(e.kind).Some?
  {
    Posting(user, Credit, amount, ReasonForEvent(e.kind).value, ToAttendance(a), AttendanceKey(a))
  }

  /** The attendance award as one call inside the caller's transaction. */
  function Award(b: Book, a: AttendanceId, attended: EventId, user: UserId, e: Event, cfg: Config):
    (Book, Result<Option<Row>, AwardError>)
  {
    if !e.eligible then (b, Ok(None))
    else if attended != e.id then (b, Err(EventMismatch))
    else if ReasonForEvent(e.kind).None? then (b, Ok(None))
    else if AmountForEvent(e, cfg) <= 0 then (b, Ok(None))
    else
      var (after, r) := Post(b, AwardPosting(a, user, e, AmountForEvent(e, cfg)));
      (after, match r case Ok(row) => Ok(Some(row)) case Err(error) => Err(NotPosted(error)))
  }

  /** The welcome bonus, once per user. */
  function Welcome(b: Book, user: UserId, cfg: Config): (Book, Result<Option<Row>, PostError>) {
    if cfg.welcomeBonus <= 0 then (b, Ok(None))
    else
      var (after, r) := Post(b, Posting(user, Credit, cfg.welcomeBonus, SignupBonus, NoRef, SignupKey(user)));
      (after, match r case Ok(row) => Ok(Some(row)) case Err(error) => Err(error))
  }

  // ---------------------------------------------------------------- what an award leaves behind

  lemma FindKeyAppend(rows: seq<Row>, row: Row, key: Key)
    ensures FindKey(rows + [row], key) == if row.posting.key == key then Some(|rows|) else FindKey(rows, key)
  {
    assert (rows + [row])[..|rows|] == rows;
  }

  /** The credit recorded for attendance `a` of `user` is exactly `due`. */
  ghost predicate CreditIs(b: Book, a: AttendanceId, user: UserId, due: Option<int>) {
    match FindKey(b.rows, AttendanceKey(a))
    case None => due.None?
    case Some(i) =>
      var p := b.rows[i].posting;
      due == Some(p.amount) && p.user == user && p.direction == Credit && p.ref == ToAttendance(a)
  }

  ghost predicate CreditsOnly(b: Book, after: Book, user: UserId, amount: int) {
    forall u :: Balance(after, u) == Balance(b, u) + (if u == user then amount else 0)
  }

  /** A first award writes exactly the points due, for its own attendance and nobody else's. */
  lemma AwardWritesTheDue(b: Book, a: AttendanceId, user: UserId, e: Event, cfg: Config)
    requires Valid(b) && !HasKey(b.rows, AttendanceKey(a))
    ensures var (after, r) := Award(b, a, e.id, user, e, cfg);
            && Valid(after)
            && (r.Err? ==> after == b && AccountOf(b, user).status != ActiveAccount)
            && (r.Ok? ==> CreditIs(after, a, user, Due(e, cfg)))
            && (r.Ok? ==> CreditsOnly(b, after, user, if Due(e, cfg).Some? then Due(e, cfg).value else 0))
            && (forall k :: k != AttendanceKey(a) ==> FindKey(after.rows, k) == FindKey(b.rows, k))
            && b.rows <= after.rows
  {
    if Due(e, cfg).Some? && AccountOf(b, user).status == ActiveAccount {
      var p := AwardPosting(a, user, e, AmountForEvent(e, cfg));
      AppendKeepsValid(b, p);
      forall k ensures FindKey(Append(b, p).rows, k) == if k == p.key then Some(|b.rows|) else FindKey(b.rows, k) {
        FindKeyAppend(b.rows, Append(b, p).rows[|b.rows|], k);
      }
    }
  }

  /** However often sign-up runs, and whatever was posted in between, the bonus is paid once. */
  lemma WelcomePaidOnce(b: Book, user: UserId, cfg: Config, later: Book)
    requires Valid(b) && Valid(later) && Welcome(b, user, cfg).1.Ok?
    requires Welcome(b, user, cfg).0.rows <= later.rows
    ensures Welcome(later, user, cfg) == (later, Welcome(b, user, cfg).1)
  {
    if cfg.welcomeBonus > 0 {
      var p := Posting(user, Credit, cfg.welcomeBonus, SignupBonus, NoRef, SignupKey(user));
      RepostReturnsOriginal(b, p, later, p);
    }
  }

  /** The award service writes only through the ledger object it was given. */
  class PointsAwardsService {
    const points: PointsService
    const config: Config

    constructor (points: PointsService, config: Config)
      ensures this.points == points && this.config == config
    {
      this.points, this.config := points, config;
    }

    method AwardSignupBonus(user: UserId) returns (r: Result<Option<Row>, PostError>)
      modifies points
      ensures (points.Contents(), r) == Welcome(old(points.Contents()), user, config)
    {
      var amount := config.welcomeBonus;
      if amount <= 0 {
        return Ok(None);
      }
      var row := points.PostPoints(Posting(user, Credit, amount, SignupBonus, NoRef, SignupKey(user)));
      match row {
        case Ok(value) => r := Ok(Some(value));
        case Err(error) => r := Err(error);
      }
    }

    method AwardEventAttendance(a: AttendanceId, attended: EventId, user: UserId, e: Event)
      returns (r: Result<Option<Row>, AwardError>)
      modifies points
      ensures (points.Contents(), r) == Award(old(points.Contents()), a, attended, user, e, config)
    {
      if !e.eligible {
        return Ok(None);
      }
      if attended != e.id {
        return Err(EventMismatch);
      }
      if ReasonForEvent(e.kind).None? {
        return Ok(None);
      }
      var amount := AmountForEvent(e, config);
      if amount <= 0 {
        return Ok(None);
      }
      var row := points.PostPoints(AwardPosting(a, user, e, amount));
      match row {
        case Ok(value) => r := Ok(Some(value));
        case Err(error) => r := Err(NotPosted(error));
      }
    }
  }
}
