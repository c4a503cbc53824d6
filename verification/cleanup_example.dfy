/** A run whose interruption changes the order of the ledger rows. */
module CleanupExample {
  import opened Domain
  import opened Seqs
  import opened Ledger
  import opened Cleanup
  import opened CleanupResume

  // One user, two days; the special events win.
  const A1 := Attended(1, 0, 0, Regular, Some(10))
  const A2 := Attended(2, 0, 0, Regular, Some(20))
  const A3 := Attended(3, 0, 0, Special, Some(30))
  const B1 := Attended(4, 0, 1, Regular, Some(40))
  const B2 := Attended(5, 0, 1, Special, Some(50))

  function CreditOf(a: Attended): Posting {
    Posting(a.user, Credit, 100, AttendanceRegular, ToAttendance(a.id), AttendanceKey(a.id))
  }

  function CreditAll(losers: seq<Attended>): Book {
    if |losers| == 0 then Book(map[], []) else Append(CreditAll(losers[..|losers| - 1]), CreditOf(losers[|losers| - 1]))
  }

  ghost predicate CreditsOf(b: Book, losers: seq<Attended>) {
    |b.rows| == |losers| && forall i :: 0 <= i < |losers| ==> b.rows[i].posting == CreditOf(losers[i])
  }

  lemma OneMoreCredit(b: Book, losers: seq<Attended>, x: Attended)
    requires CreditsOf(b, losers) && forall a :: a in losers ==> a.id != x.id
    ensures !HasKey(b.rows, CreditOf(x).key) && CreditsOf(Append(b, CreditOf(x)), losers + [x])
  {
    forall i | 0 <= i < |b.rows| ensures b.rows[i].posting.key != CreditOf(x).key {
      assert losers[i] in losers;
    }
  }

  lemma {:induction false} CreditedBook(losers: seq<Attended>)
    requires Distinct(losers, Id())
    ensures Valid(CreditAll(losers)) && CreditsOf(CreditAll(losers), losers)
    decreases |losers|
  {
    if |losers| > 0 {
      var front, x := losers[..|losers| - 1], losers[|losers| - 1];
      assert losers == front + [x];
      Apart(front, [x]);
      CreditedBook(front);
      forall a | a in front ensures a.id != x.id {
        var i :| 0 <= i < |front| && front[i] == a;
        assert Id()(losers[i]) != Id()(losers[|losers| - 1]);
      }
      OneMoreCredit(CreditAll(front), front, x);
      AppendKeepsValid(CreditAll(front), CreditOf(x));
    }
  }

  lemma {:induction false} PointsNonNegative(rows: seq<Row>, id: AttendanceId)
    requires forall i :: 0 <= i < |rows| ==> rows[i].posting.amount > 0
    ensures CreditSum(rows, None, id) >= 0
  {
    if |rows| > 0 {
      PointsNonNegative(rows[..|rows| - 1], id);
    }
  }

  lemma {:induction false} CreditIsSeen(rows: seq<Row>, i: nat, id: AttendanceId)
    requires forall j :: 0 <= j < |rows| ==> rows[j].posting.amount > 0
    requires i < |rows| && rows[i].posting.ref == ToAttendance(id) && rows[i].posting.direction == Credit
    ensures CreditSum(rows, None, id) > 0
  {
    PointsNonNegative(rows[..|rows| - 1], id);
    if i < |rows| - 1 {
      CreditIsSeen(rows[..|rows| - 1], i, id);
    }
  }

  lemma SortOne(x: Attended)
    ensures Sort([x], Order()) == [x]
  {
    var e: seq<Attended> := [];
    SortAppend(e, x, Order());
    assert e + [x] == [x];
  }

  lemma MovesBefore(front: seq<Attended>, x: Attended, last: Attended)
    requires !Outranks(last, x)
    ensures Insert(front + [last], x, Order()) == Insert(front, x, Order()) + [last]
    ensures front == [] ==> front + [last] == [last] && Insert(front, x, Order()) + [last] == [x, last]
  {
    InsertBefore(front, x, last, Order());
  }

  lemma SortTwo(x: Attended, y: Attended)
    requires !Outranks(x, y)
    ensures Sort([x, y], Order()) == [y, x]
  {
    SortOne(x);
    SortAppend([x], y, Order());
    assert [x] + [y] == [x, y];
    MovesBefore([], y, x);
  }

  lemma SortPair(x: Attended, y: Attended)
    requires Outranks(x, y)
    ensures Sort([x, y], Order()) == [x, y]
  {
    SortOne(x);
    SortAppend([x], y, Order());
    assert [x] + [y] == [x, y];
    InsertLast([x], y, Order());
  }

  lemma InsertFront(x: Attended, y: Attended, z: Attended)
    requires !Outranks(x, z) && !Outranks(y, z)
    ensures Insert([x, y], z, Order()) == [z, x, y]
  {
    MovesBefore([x], z, y);
    MovesBefore([], z, x);
    assert [x] + [y] == [x, y] && [z, x] + [y] == [z, x, y];
  }

  lemma SortThree(x: Attended, y: Attended, z: Attended)
    requires Outranks(x, y) && !Outranks(x, z) && !Outranks(y, z)
    ensures Sort([x, y, z], Order()) == [z, x, y]
  {
    SortPair(x, y);
    SortAppend([x, y], z, Order());
    assert [x, y] + [z] == [x, y, z];
    InsertFront(x, y, z);
  }

  /** Two days of one user: `a3` wins day `a`, `b2` wins day `b`. */
  predicate TwoDays(a1: Attended, a2: Attended, a3: Attended, b1: Attended, b2: Attended) {
    && KeyOf(a1) == KeyOf(a2) == KeyOf(a3) && KeyOf(b1) == KeyOf(b2) && KeyOf(a1) != KeyOf(b1)
    && Outranks(a1, a2) && !Outranks(a1, a3) && !Outranks(a2, a3) && !Outranks(b1, b2)
  }

  lemma OnlyOneDay(rows: seq<Attended>, k: GroupKey)
    requires |rows| > 0 && forall i :: 0 <= i < |rows| ==> KeyOf(rows[i]) == k
    ensures Members(rows, k) == rows && Others(rows, k) == []
    ensures |Ranked(rows, k)| == |rows| && LoserOrder(rows) == Sort(rows, Order())[1..]
  {
    FilterAll(rows, InGroup(k));
    FilterNone(rows, OutOfGroup(k));
    FirstGroup(rows, k);
  }

  lemma GroupsAre(rows: seq<Attended>, k: GroupKey, members: seq<Attended>, others: seq<Attended>,
                  losers: seq<Attended>)
    requires |rows| > 0 && k == KeyOf(rows[0])
    requires Members(rows, k) == members && Others(rows, k) == others
    requires |members| > 0 && Sort(members, Order())[1..] == losers
    ensures LoserOrder(rows) == losers + LoserOrder(others)
  {
    FirstGroup(rows, k);
  }

  lemma OneDayLeft(x: Attended, y: Attended)
    requires KeyOf(x) == KeyOf(y) && !Outranks(x, y)
    ensures LoserOrder([x, y]) == [x]
  {
    OnlyOneDay([x, y], KeyOf(x));
    SortTwo(x, y);
  }

  lemma DayA(a1: Attended, a2: Attended, a3: Attended, b1: Attended, b2: Attended)
    requires TwoDays(a1, a2, a3, b1, b2)
    ensures Members([a1, b1, b2, a2, a3], KeyOf(a1)) == [a1, a2, a3]
    ensures Others([a1, b1, b2, a2, a3], KeyOf(a1)) == [b1, b2]
  {
    var k := KeyOf(a1);
    assert [a1, b1, b2, a2, a3] == [a1] + [b1, b2] + [a2, a3];
    FilterSplit([a1], [b1, b2], [a2, a3], InGroup(k));
    FilterMiddle([a1], [b1, b2], [a2, a3], OutOfGroup(k));
  }

  lemma FirstOrder(a1: Attended, a2: Attended, a3: Attended, b1: Attended, b2: Attended)
    requires TwoDays(a1, a2, a3, b1, b2)
    ensures LoserOrder([a1, b1, b2, a2, a3]) == [a1, a2, b1]
  {
    DayA(a1, a2, a3, b1, b2);
    SortThree(a1, a2, a3);
    assert [a3, a1, a2][1..] == [a1, a2];
    GroupsAre([a1, b1, b2, a2, a3], KeyOf(a1), [a1, a2, a3], [b1, b2], [a1, a2]);
    OneDayLeft(b1, b2);
  }

  lemma DayB(a2: Attended, a3: Attended, b1: Attended, b2: Attended)
    requires KeyOf(a2) == KeyOf(a3) && KeyOf(b1) == KeyOf(b2) && KeyOf(a2) != KeyOf(b1)
    ensures Members([b1, b2] + [a2, a3], KeyOf(b1)) == [b1, b2]
    ensures Others([b1, b2] + [a2, a3], KeyOf(b1)) == [a2, a3]
  {
    var e: seq<Attended> := [];
    FilterSplit([b1, b2], [a2, a3], e, InGroup(KeyOf(b1)));
    FilterSplit(e, [b1, b2], [a2, a3], OutOfGroup(KeyOf(b1)));
    assert [b1, b2] + [a2, a3] + e == [b1, b2] + [a2, a3] && e + [b1, b2] == [b1, b2];
    assert [b1, b2] + e == [b1, b2] && e + [a2, a3] == [a2, a3];
  }

  lemma OrderAfterStop(a1: Attended, a2: Attended, a3: Attended, b1: Attended, b2: Attended)
    requires TwoDays(a1, a2, a3, b1, b2)
    ensures LoserOrder([b1, b2] + [a2, a3]) == [b1, a2]
  {
    DayB(a2, a3, b1, b2);
    SortTwo(b1, b2);
    assert [b2, b1][1..] == [b1];
    GroupsAre([b1, b2] + [a2, a3], KeyOf(b1), [b1, b2], [a2, a3], [b1]);
    OneDayLeft(a2, a3);
  }

  lemma AfterFirst(a1: Attended, a2: Attended, a3: Attended, b1: Attended, b2: Attended)
    requires Distinct([a1, b1, b2, a2, a3], Id())
    ensures Remaining([a1, b1, b2, a2, a3], [a1]) == [b1, b2] + [a2, a3]
  {
    var rest, e: seq<Attended> := [b1, b2] + [a2, a3], [];
    assert [a1, b1, b2, a2, a3] == e + [a1] + rest;
    assert [a1] + rest == [a1, b1, b2, a2, a3];
    Apart([a1], rest);
    FilterSplit(e, [a1], rest, NotAmong([a1]));
    assert e + rest == rest;
  }

  function Example(): State { State(CreditAll([A1, A2, B1]), [A1, B1, B2, A2, A3]) }

  lemma CreditsOfThree(x: Attended, y: Attended, z: Attended)
    requires x.id != y.id && x.id != z.id && y.id != z.id
    ensures var b := CreditAll([x, y, z]);
            && Valid(b) && (forall id :: !HasKey(b.rows, DedupKey(id)))
            && Points(b.rows, y.id) > 0 && Points(b.rows, z.id) > 0
  {
    var losers := [x, y, z];
    CreditedBook(losers);
    CreditIsSeen(CreditAll(losers).rows, 1, losers[1].id);
    CreditIsSeen(CreditAll(losers).rows, 2, losers[2].id);
  }

  lemma ExampleReady(s: State, book: Book, a1: Attended, a2: Attended, a3: Attended, b1: Attended, b2: Attended)
    requires s == State(book, [a1, b1, b2, a2, a3]) && Valid(book) && forall id :: !HasKey(book.rows, DedupKey(id))
    requires a1.id < a2.id < a3.id < b1.id < b2.id
    ensures Ready(s)
  {}

  lemma NextGroups(rows: seq<Attended>, x: Attended, y: Attended, counts: Attended -> bool)
    requires LoserOrder(rows) == [y, x] && counts(x) && counts(y)
    ensures FirstCounted(rows, counts) == Some(KeyOf(y)) && HeadKey(Filter([x, y], counts)) == Some(KeyOf(x))
  {
    FilterAll([x, y], counts);
    FilterAll([y, x], counts);
    FirstLoser(rows, counts);
  }

  lemma Reordered(s: State, a1: Attended, a2: Attended, a3: Attended, b1: Attended, b2: Attended)
    requires Ready(s) && s.rows == [a1, b1, b2, a2, a3] && TwoDays(a1, a2, a3, b1, b2)
    requires Points(s.book.rows, a2.id) > 0 && Points(s.book.rows, b1.id) > 0
    ensures LoserOrder(s.rows) == [a1, a2, b1]
    ensures var mid := DeleteAll(s, [a1]);
            LoserOrder(mid.rows) == [b1, a2] && Cleaned(mid) != Cleaned(s)
  {
    FirstOrder(a1, a2, a3, b1, b2);
    assert [a1, a2, b1][..1] == [a1] && [a1, a2, b1][1..] == [a2, b1];
    DeletedRows(s, [a1]);
    AfterFirst(a1, a2, a3, b1, b2);
    OrderAfterStop(a1, a2, a3, b1, b2);
    NextGroups(DeleteAll(s, [a1]).rows, a2, b1, Credited(s.book.rows));
    ResumedLedger(s, 1);
  }

  /** Stopped after its first transaction and repeated, this run reverses day 1 before the rest of day 0:
      the ledger ends with its reversals in another order. */
  lemma ReorderedAfterStop()
    ensures Ready(Example()) && LoserOrder(Example().rows) == [A1, A2, B1]
    ensures var mid := DeleteAll(Example(), [A1]);
            LoserOrder(mid.rows) == [B1, A2] && Cleaned(mid) != Cleaned(Example())
  {
    CreditsOfThree(A1, A2, B1);
    ExampleReady(Example(), CreditAll([A1, A2, B1]), A1, A2, A3, B1, B2);
    Reordered(Example(), A1, A2, A3, B1, B2);
  }
}
