/** Which attendance of a day stays, in terms of types and times, and the ledger rows the cleanup writes. */
module CleanupOutcomes {
  import opened Domain
  import opened Seqs
  import opened Ledger
  import opened Cleanup

  function TimeOf(a: Attended): Instant { if a.matchedAt.Some? then a.matchedAt.value else 0 }

  /** The attendance that stays is a special one if the day has one, a regular one only if the day has no other,
      and among those of its type one that matched first. */
  lemma SpecialStays(rows: seq<Attended>, k: GroupKey, a: Attended)
    requires a in rows && a.user == k.user && a.day == k.day
    ensures |Members(rows, k)| > 0
    ensures var winner := Winner(rows, k);
            && winner in rows && winner.user == k.user && winner.day == k.day
            && (a.kind == Special ==> winner.kind == Special)
            && (winner.kind == Regular ==> a.kind == Regular)
            && (a.kind == winner.kind ==> TimeOf(winner) <= TimeOf(a))
  {
    assert a in Members(rows, k);
    WinnerIsMinimal(rows, k, a);
    assert Winner(rows, k) in Members(rows, k);
  }

  // ---------------------------------------------------------------- the rows written

  /** What was credited for an attendance, to anybody. */
  function CreditedFor(rows: seq<Row>, id: AttendanceId): int {
    if |rows| == 0 then 0
    else
      var p := rows[|rows| - 1].posting;
      CreditedFor(rows[..|rows| - 1], id) + (if p.direction == Credit && p.ref == ToAttendance(id) then p.amount else 0)
  }

  lemma {:induction false} PointsAreCredits(rows: seq<Row>, id: AttendanceId)
    ensures Points(rows, id) == CreditedFor(rows, id)
    decreases |rows|
  {
    if |rows| > 0 {
      PointsAreCredits(rows[..|rows| - 1], id);
    }
  }

  /** The reversals of these losers, in order: a debit of what was credited for each that earned anything. */
  function Reversals(rows: seq<Row>, losers: seq<Attended>): seq<Posting> {
    if |losers| == 0 then []
    else
      var a := losers[0];
      var points := CreditedFor(rows, a.id);
      (if points > 0 then [Posting(a.user, Debit, points, Reversal, ToAttendance(a.id), DedupKey(a.id))] else [])
      + Reversals(rows, losers[1..])
  }

  function Postings(rows: seq<Row>): seq<Posting> { seq(|rows|, i requires 0 <= i < |rows| => rows[i].posting) }

  lemma {:induction false} SameReversals(rows: seq<Row>, later: seq<Row>, losers: seq<Attended>)
    requires forall id :: CreditedFor(rows, id) == CreditedFor(later, id)
    ensures Reversals(rows, losers) == Reversals(later, losers)
    decreases |losers|
  {
    if |losers| > 0 {
      SameReversals(rows, later, losers[1..]);
    }
  }

  lemma DeleteWrites(s: State, a: Attended)
    ensures Postings(Delete(s, a).book.rows) == Postings(s.book.rows) + Reversals(s.book.rows, [a])
    ensures forall id :: CreditedFor(Delete(s, a).book.rows, id) == CreditedFor(s.book.rows, id)
  {
    PointsAreCredits(s.book.rows, a.id);
    assert [a][1..] == [];
    forall id ensures CreditedFor(Delete(s, a).book.rows, id) == CreditedFor(s.book.rows, id) {
      DeleteKeepsPoints(s, a, id);
      PointsAreCredits(s.book.rows, id);
      PointsAreCredits(Delete(s, a).book.rows, id);
    }
  }

  lemma FirstReversal(rows: seq<Row>, losers: seq<Attended>)
    requires |losers| > 0
    ensures Reversals(rows, losers) == Reversals(rows, [losers[0]]) + Reversals(rows, losers[1..])
  {
    assert [losers[0]][1..] == [];
  }

  lemma Associate(xs: seq<Posting>, ys: seq<Posting>, zs: seq<Posting>)
    ensures xs + ys + zs == xs + (ys + zs)
  {}

  lemma {:induction false} DeleteAllWrites(s: State, losers: seq<Attended>)
    ensures Postings(DeleteAll(s, losers).book.rows) == Postings(s.book.rows) + Reversals(s.book.rows, losers)
    decreases |losers|
  {
    if |losers| > 0 {
      var next := Delete(s, losers[0]);
      DeleteWrites(s, losers[0]);
      DeleteAllWrites(next, losers[1..]);
      SameReversals(s.book.rows, next.book.rows, losers[1..]);
      FirstReversal(s.book.rows, losers);
      Associate(Postings(s.book.rows), Reversals(s.book.rows, [losers[0]]), Reversals(s.book.rows, losers[1..]));
    }
  }

  ghost predicate Reverses(rows: seq<Row>, losers: seq<Attended>, p: Posting) {
    exists a :: a in losers && CreditedFor(rows, a.id) > 0
                && p == Posting(a.user, Debit, CreditedFor(rows, a.id), Reversal, ToAttendance(a.id), DedupKey(a.id))
  }

  lemma {:induction false} ReversalsAre(rows: seq<Row>, losers: seq<Attended>, p: Posting)
    ensures p in Reversals(rows, losers) <==> Reverses(rows, losers, p)
    decreases |losers|
  {
    if |losers| > 0 {
      ReversalsAre(rows, losers[1..], p);
      assert losers == [losers[0]] + losers[1..];
    }
  }

  /** An applied run adds exactly one reversal per deleted attendance that earned anything, each a debit of what was
      credited for it, and nothing else. */
  lemma CleanupWrites(s: State)
    ensures Postings(Cleaned(s).book.rows) == Postings(s.book.rows) + Reversals(s.book.rows, LoserOrder(s.rows))
    ensures forall p :: p in Reversals(s.book.rows, LoserOrder(s.rows)) <==>
              exists a :: a in LoserOrder(s.rows) && CreditedFor(s.book.rows, a.id) > 0
                          && p == Posting(a.user, Debit, CreditedFor(s.book.rows, a.id), Reversal, ToAttendance(a.id),
                                          DedupKey(a.id))
  {
    DeleteAllWrites(s, LoserOrder(s.rows));
    forall p ensures p in Reversals(s.book.rows, LoserOrder(s.rows)) <==> Reverses(s.book.rows, LoserOrder(s.rows), p) {
      ReversalsAre(s.book.rows, LoserOrder(s.rows), p);
    }
  }
}
