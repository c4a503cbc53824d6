/** Vocabulary shared by the services: results, row identities, event kinds and the calendar. */
module Domain {
  datatype Option<+T> = None | Some(value: T)

  datatype Result<+T, +E> = Ok(value: T) | Err(error: E)

  // Row identities (UUIDs in the database).
  type UserId = nat
  type EventId = nat
  type AttendanceId = nat
  type RuleId = nat
  type LocationId = nat

  datatype EventType = Special | Partner | Regular

  /** Special before partner before regular: the order used by every listing, choice and cleanup. */
  function TypeRank(t: EventType): nat {
    match t
    case Special => 0
    case Partner => 1
    case Regular => 2
  }

  // Instants are milliseconds since 1970-01-01T00:00 in the one fixed zone; a day is a day number.
  type Instant = int
  type Day = int

  const DAY_MS: int := 86_400_000
  const MINUTE_MS: int := 60_000

  function DayOf(t: Instant): Day { t / DAY_MS }

  function Midnight(d: Day): Instant { d * DAY_MS }

  /** 0 = Sunday ... 6 = Saturday; day 0 (1970-01-01) was a Thursday. */
  function Weekday(d: Day): nat { (d + 4) % 7 }
}
