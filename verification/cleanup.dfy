/** The duplicate-attendance cleanup: which attendances lose, what deleting them does to the ledger,
    and what happens when a run is stopped and repeated. */
module Cleanup {
  import opened Domain
  import opened Seqs
  import opened Ledger

  /** An attendance with its event's type and UTC day; rows come in the order the query returned. */
  datatype Attended = Attended(id: AttendanceId, user: UserId, day: Day, kind: EventType, matchedAt: Option<Instant>)

  datatype GroupKey = GroupKey(user: UserId, day: Day)

  function KeyOf(a: Attended): GroupKey { GroupKey(a.user, a.day) }

  function MatchedTime(a: Attended): Instant { if a.matchedAt.Some? then a.matchedAt.value else 0 }

  /** Special before partner before regular, then the earliest match. */
  predicate Outranks(a: Attended, b: Attended) {
    TypeRank(a.kind) < TypeRank(b.kind) || (TypeRank(a.kind) == TypeRank(b.kind) && MatchedTime(a) <= MatchedTime(b))
  }

  function Order(): (Attended, Attended) -> bool { (a: Attended, b: Attended) => Outranks(a, b) }

  function Id(): Attended -> AttendanceId { (a: Attended) => a.id }

  function InGroup(k: GroupKey): Attended -> bool { (a: Attended) => KeyOf(a) == k }

  function OutOfGroup(k: GroupKey): Attended -> bool { (a: Attended) => KeyOf(a) != k }

  function NotAmong(gone: seq<Attended>): Attended -> bool { (a: Attended) => a !in gone }

  function Members(rows: seq<Attended>, k: GroupKey): seq<Attended> { Filter(rows, InGroup(k)) }

  function Others(rows: seq<Attended>, k: GroupKey): seq<Attended> { Filter(rows, OutOfGroup(k)) }

  function Ranked(rows: seq<Attended>, k: GroupKey): seq<Attended> { Sort(Members(rows, k), Order()) }

  function Remaining(rows: seq<Attended>, gone: seq<Attended>): seq<Attended> { Filter(rows, NotAmong(gone)) }

  lemma OrderIsPreorder()
    ensures Preorder(Order())
  {}

  /** The losers in the order they are deleted: group after group by first appearance, each group
      ranked, its first kept. */
  function LoserOrder(rows: seq<Attended>): seq<Attended>
    decreases |rows|
  {
    if |rows| == 0 then []
    else
      var k := KeyOf(rows[0]);
      assert rows[0] in Members(rows, k);
      FilterShorter(rows, OutOfGroup(k), rows[0]);
      Ranked(rows, k)[1..] + LoserOrder(Others(rows, k))
  }

  // ---------------------------------------------------------------- deleting losers

  datatype State = State(book: Book, rows: seq<Attended>)

  /** Credited points of an attendance. */
  function Points(rows: seq<Row>, id: AttendanceId): int { CreditSum(rows, None, id) }

  function Reverse(a: Attended, points: int): Posting {
    Posting(a.user, Debit, points, Reversal, ToAttendance(a.id), DedupKey(a.id))
  }

  /** One transaction: reverse the credit, delete the row. */
  function Delete(s: State, a: Attended): State {
    var points := Points(s.book.rows, a.id);
    State(if points > 0 then Append(s.book, Reverse(a, points)) else s.book, Remaining(s.rows, [a]))
  }

  function DeleteAll(s: State, losers: seq<Attended>): State
    decreases |losers|
  {
    if |losers| == 0 then s else DeleteAll(Delete(s, losers[0]), losers[1..])
  }

  /** An applied run. */
  function Cleaned(s: State): State { DeleteAll(s, LoserOrder(s.rows)) }

  /** A sound ledger, attendance ids unique, no attendance that was already reversed. */
  ghost predicate Ready(s: State) {
    && Valid(s.book) && Distinct(s.rows, Id())
    && (forall a :: a in s.rows ==> !HasKey(s.book.rows, DedupKey(a.id)))
  }

  /** Reversals are debits, so they change nobody's credited points. */
  lemma DeleteKeepsPoints(s: State, a: Attended, id: AttendanceId)
    ensures Points(Delete(s, a).book.rows, id) == Points(s.book.rows, id)
  {
    var points := Points(s.book.rows, a.id);
    if points > 0 {
      CreditSumAppend(s.book.rows, Append(s.book, Reverse(a, points)).rows[|s.book.rows|], None, id);
    }
  }

  lemma OneRowPerId(rows: seq<Attended>, a: Attended, b: Attended)
    requires Distinct(rows, Id()) && a in rows && b in rows && a.id == b.id
    ensures a == b
  {
    var i :| 0 <= i < |rows| && rows[i] == a;
    var j :| 0 <= j < |rows| && rows[j] == b;
    assert Id()(rows[i]) == Id()(rows[j]);
  }

  lemma DeleteKeepsReady(s: State, a: Attended)
    requires Ready(s) && a in s.rows
    ensures Ready(Delete(s, a))
    ensures forall u :: Balance(Delete(s, a).book, u) ==
                        Balance(s.book, u)
                        - (if u == a.user && Points(s.book.rows, a.id) > 0 then Points(s.book.rows, a.id) else 0)
  {
    var after := Delete(s, a);
    var points := Points(s.book.rows, a.id);
    FilterDistinct(s.rows, NotAmong([a]), Id());
    if points > 0 {
      AppendKeepsValid(s.book, Reverse(a, points));
    }
    forall b | b in after.rows ensures !HasKey(after.book.rows, DedupKey(b.id)) {
      if b.id == a.id {
        OneRowPerId(s.rows, a, b);
      }
      assert !HasKey(s.book.rows, DedupKey(b.id));
    }
  }

  // ---------------------------------------------------------------- groups

  /** Groups are independent: taking another group away changes nothing in this one. */
  lemma OtherGroupUntouched(rows: seq<Attended>, k: GroupKey, gone: GroupKey)
    requires k != gone
    ensures Members(Others(rows, gone), k) == Members(rows, k)
  {
    FilterTwice(rows, OutOfGroup(gone), InGroup(k), InGroup(k));
  }

  // ---------------------------------------------------------------- who wins

  /** The kept attendance of a group. */
  function Winner(rows: seq<Attended>, k: GroupKey): Attended
    requires |Members(rows, k)| > 0
  {
    Ranked(rows, k)[0]
  }

  /** The winner is a member no other member outranks. */
  lemma WinnerIsMinimal(rows: seq<Attended>, k: GroupKey, a: Attended)
    requires a in Members(rows, k)
    ensures Winner(rows, k) in Members(rows, k) && Outranks(Winner(rows, k), a)
  {
    OrderIsPreorder();
    var ranked := Ranked(rows, k);
    SortSorts(Members(rows, k), Order());
    assert ranked[0] in ranked && a in ranked;
    var j :| 0 <= j < |ranked| && ranked[j] == a;
    assert j > 0 ==> Order()(ranked[0], ranked[j]);
  }

  lemma RankedIsDistinct(rows: seq<Attended>, k: GroupKey)
    requires Distinct(rows, Id())
    ensures Distinct(Ranked(rows, k), Id())
  {
    FilterDistinct(rows, InGroup(k), Id());
    SortDistinct(Members(rows, k), Order(), Id());
  }

  lemma TailIsRest(s: seq<Attended>, a: Attended)
    requires Distinct(s, Id()) && |s| > 0
    ensures a in s[1..] <==> a in s && a != s[0]
  {
    if a in s[1..] {
      var i :| 0 <= i < |s[1..]| && s[1..][i] == a;
      assert s[i + 1] == a && Id()(s[0]) != Id()(s[i + 1]);
    }
    if a in s && a != s[0] {
      var i :| 0 <= i < |s| && s[i] == a;
      assert s[1..][i - 1] == a;
    }
  }

  /** The losers are exactly the attendances that are not their group's winner. */
  lemma {:induction false} LosersAreTheRest(rows: seq<Attended>, a: Attended)
    requires Distinct(rows, Id())
    ensures a in rows ==> a in Members(rows, KeyOf(a))
    ensures a in LoserOrder(rows) <==> a in rows && a != Winner(rows, KeyOf(a))
    decreases |rows|
  {
    if |rows| > 0 {
      var k := KeyOf(rows[0]);
      assert rows[0] in Members(rows, k);
      FilterShorter(rows, OutOfGroup(k), rows[0]);
      FilterDistinct(rows, OutOfGroup(k), Id());
      LosersAreTheRest(Others(rows, k), a);
      if KeyOf(a) == k {
        RankedIsDistinct(rows, k);
        TailIsRest(Ranked(rows, k), a);
      } else {
        OtherGroupUntouched(rows, KeyOf(a), k);
        assert forall b :: b in Ranked(rows, k)[1..] ==> b in Ranked(rows, k);
      }
    }
  }

  // ---------------------------------------------------------------- what an applied run leaves

  lemma {:induction false} DeletedRows(s: State, losers: seq<Attended>)
    ensures DeleteAll(s, losers).rows == Remaining(s.rows, losers)
    decreases |losers|
  {
    if |losers| == 0 {
      FilterAll(s.rows, NotAmong(losers));
    } else {
      DeletedRows(Delete(s, losers[0]), losers[1..]);
      assert losers == [losers[0]] + losers[1..];
      FilterTwice(s.rows, NotAmong([losers[0]]), NotAmong(losers[1..]), NotAmong(losers));
    }
  }

  /** Points taken back from a user. */
  function Lost(rows: seq<Row>, losers: seq<Attended>, user: UserId): int {
    if |losers| == 0 then 0
    else
      var a := losers[|losers| - 1];
      Lost(rows, losers[..|losers| - 1], user)
        + (if a.user == user && Points(rows, a.id) > 0 then Points(rows, a.id) else 0)
  }

  lemma {:induction false} LostFromFront(rows: seq<Row>, losers: seq<Attended>, user: UserId)
    requires |losers| > 0
    ensures Lost(rows, losers, user) ==
            Lost(rows, losers[1..], user) +
            (if losers[0].user == user && Points(rows, losers[0].id) > 0 then Points(rows, losers[0].id) else 0)
    decreases |losers|
  {
    var n := |losers| - 1;
    if n > 0 {
      LostFromFront(rows, losers[..n], user);
      assert losers[..n][1..] == losers[1..][..n - 1];
    }
  }

  lemma {:induction false} LostSame(rows: seq<Row>, later: seq<Row>, losers: seq<Attended>, user: UserId)
    requires forall id :: Points(later, id) == Points(rows, id)
    ensures Lost(later, losers, user) == Lost(rows, losers, user)
    decreases |losers|
  {
    if |losers| > 0 {
      LostSame(rows, later, losers[..|losers| - 1], user);
    }
  }

  lemma TailIsDistinct(s: seq<Attended>)
    requires Distinct(s, Id()) && |s| > 0
    ensures Distinct(s[1..], Id())
  {
    forall i, j | 0 <= i < j < |s[1..]| ensures Id()(s[1..][i]) != Id()(s[1..][j]) {
      assert Id()(s[i + 1]) != Id()(s[j + 1]);
    }
  }

  /** Deleting losers keeps the ledger sound and takes exactly their credits off their owners. */
  lemma {:induction false} DeleteAllBalances(s: State, losers: seq<Attended>, user: UserId)
    requires Ready(s) && Distinct(losers, Id()) && forall a :: a in losers ==> a in s.rows
    ensures Ready(DeleteAll(s, losers))
    ensures Balance(DeleteAll(s, losers).book, user) == Balance(s.book, user) - Lost(s.book.rows, losers, user)
    decreases |losers|
  {
    if |losers| > 0 {
      var next := Delete(s, losers[0]);
      DeleteKeepsReady(s, losers[0]);
      forall a | a in losers[1..] ensures a in next.rows {
        TailIsRest(losers, a);
      }
      forall id ensures Points(next.book.rows, id) == Points(s.book.rows, id) {
        DeleteKeepsPoints(s, losers[0], id);
      }
      TailIsDistinct(losers);
      DeleteAllBalances(next, losers[1..], user);
      LostSame(s.book.rows, next.book.rows, losers[1..], user);
      LostFromFront(s.book.rows, losers, user);
    }
  }

  lemma {:induction false} LosersDistinct(rows: seq<Attended>)
    requires Distinct(rows, Id())
    ensures Distinct(LoserOrder(rows), Id())
    decreases |rows|
  {
    if |rows| > 0 {
      var k := KeyOf(rows[0]);
      assert rows[0] in Members(rows, k);
      FilterShorter(rows, OutOfGroup(k), rows[0]);
      FilterDistinct(rows, OutOfGroup(k), Id());
      LosersDistinct(Others(rows, k));
      RankedIsDistinct(rows, k);
      TailIsDistinct(Ranked(rows, k));
      forall a, b | a in Ranked(rows, k)[1..] && b in LoserOrder(Others(rows, k)) ensures Id()(a) != Id()(b) {
        LosersAreTheRest(Others(rows, k), b);
        assert a in Ranked(rows, k) && a in rows && b in rows && KeyOf(a) != KeyOf(b);
        if a.id == b.id {
          OneRowPerId(rows, a, b);
        }
      }
      DistinctConcat(Ranked(rows, k)[1..], LoserOrder(Others(rows, k)), Id());
    }
  }

  /** After an applied run each (user, day) that had attendances has exactly one, the winner, which no
      deleted one outranks; balances fell by exactly the losers' credits; the ledger stays sound. */
  lemma AppliedRun(s: State, user: UserId)
    requires Ready(s)
    ensures var end := Cleaned(s);
            && Ready(end)
            && (forall a :: a in s.rows ==> a in Members(s.rows, KeyOf(a)))
            && (forall a :: a in end.rows <==> a in s.rows && a == Winner(s.rows, KeyOf(a)))
            && (forall a :: a in s.rows ==>
                  Outranks(Winner(s.rows, KeyOf(a)), a) && Winner(s.rows, KeyOf(a)) in end.rows)
            && (forall a, b :: a in end.rows && b in end.rows && KeyOf(a) == KeyOf(b) ==> a == b)
            && Balance(end.book, user) == Balance(s.book, user) - Lost(s.book.rows, LoserOrder(s.rows), user)
  {
    var order := LoserOrder(s.rows);
    LosersDistinct(s.rows);
    DeletedRows(s, order);
    forall a
      ensures a in s.rows ==> a in Members(s.rows, KeyOf(a))
      ensures a in order <==> a in s.rows && a != Winner(s.rows, KeyOf(a))
    {
      LosersAreTheRest(s.rows, a);
    }
    DeleteAllBalances(s, order, user);
    forall a | a in s.rows
      ensures Outranks(Winner(s.rows, KeyOf(a)), a) && Winner(s.rows, KeyOf(a)) in Cleaned(s).rows
    {
      WinnerIsMinimal(s.rows, KeyOf(a), a);
    }
  }
}
