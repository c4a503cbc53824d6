/** Repeating the cleanup: on a clean database, and after a run stopped between two transactions. */
module CleanupResume {
  import opened Domain
  import opened Seqs
  import opened Ledger
  import opened Cleanup

  // ---------------------------------------------------------------- winners survive

  /** Ranking what remains of a group is what remains of its ranking. */
  lemma RankedRemaining(rows: seq<Attended>, gone: seq<Attended>, k: GroupKey)
    ensures Ranked(Remaining(rows, gone), k) == Filter(Ranked(rows, k), NotAmong(gone))
  {
    var both := (a: Attended) => KeyOf(a) == k && a !in gone;
    FilterTwice(rows, NotAmong(gone), InGroup(k), both);
    FilterTwice(rows, InGroup(k), NotAmong(gone), both);
    OrderIsPreorder();
    SortFilter(Members(rows, k), NotAmong(gone), Order());
  }

  lemma WinnerStays(rows: seq<Attended>, gone: seq<Attended>, k: GroupKey)
    requires |Members(rows, k)| > 0 && Winner(rows, k) !in gone
    ensures |Members(Remaining(rows, gone), k)| > 0 && Winner(Remaining(rows, gone), k) == Winner(rows, k)
  {
    RankedRemaining(rows, gone, k);
    FilterHead(Ranked(rows, k), NotAmong(gone));
  }

  lemma PrefixIn(s: seq<Attended>, n: nat)
    requires n <= |s|
    ensures forall a :: a in s[..n] ==> a in s
  {}

  /** After deleting some losers, the losers are the ones not deleted yet. */
  lemma LosersLeft(rows: seq<Attended>, n: nat, a: Attended)
    requires Distinct(rows, Id()) && n <= |LoserOrder(rows)| && a in rows
    ensures var gone := LoserOrder(rows)[..n];
            a in LoserOrder(rows) <==> a in gone || a in LoserOrder(Remaining(rows, gone))
  {
    var gone := LoserOrder(rows)[..n];
    var rest := Remaining(rows, gone);
    var k := KeyOf(a);
    FilterDistinct(rows, NotAmong(gone), Id());
    LosersAreTheRest(rows, a);
    LosersAreTheRest(rest, a);
    PrefixIn(LoserOrder(rows), n);
    LosersAreTheRest(rows, Winner(rows, k));
    assert Winner(rows, k) in Ranked(rows, k);
    WinnerStays(rows, gone, k);
  }

  lemma HasMember(s: seq<Attended>)
    requires |s| > 0
    ensures exists a :: a in s
  {
    assert s[0] in s;
  }

  lemma NoMembers(s: seq<Attended>)
    requires forall a :: a !in s
    ensures s == []
  {
    if |s| > 0 {
      HasMember(s);
    }
  }

  /** Without two attendances in one group nothing is deleted. */
  lemma NothingDuplicated(rows: seq<Attended>)
    requires Distinct(rows, Id())
    requires forall a, b :: a in rows && b in rows && KeyOf(a) == KeyOf(b) ==> a == b
    ensures LoserOrder(rows) == []
  {
    forall a ensures a !in LoserOrder(rows) {
      LosersAreTheRest(rows, a);
      if a in rows {
        WinnerIsMinimal(rows, KeyOf(a), a);
      }
    }
    NoMembers(LoserOrder(rows));
  }

  /** A run on a clean database is a no-op. */
  lemma SecondRunChangesNothing(s: State)
    requires Ready(s)
    ensures LoserOrder(Cleaned(s).rows) == [] && Cleaned(Cleaned(s)) == Cleaned(s)
  {
    AppliedRun(s, 0);
    NothingDuplicated(Cleaned(s).rows);
  }

  // ---------------------------------------------------------------- stopped, then repeated

  lemma {:induction false} DeleteAllConcat(s: State, xs: seq<Attended>, ys: seq<Attended>)
    ensures DeleteAll(s, xs + ys) == DeleteAll(DeleteAll(s, xs), ys)
    decreases |xs|
  {
    if |xs| == 0 {
      assert xs + ys == ys;
    } else {
      assert (xs + ys)[1..] == xs[1..] + ys;
      DeleteAllConcat(Delete(s, xs[0]), xs[1..], ys);
    }
  }

  lemma {:induction false} LostConcat(rows: seq<Row>, xs: seq<Attended>, ys: seq<Attended>, user: UserId)
    ensures Lost(rows, xs + ys, user) == Lost(rows, xs, user) + Lost(rows, ys, user)
    decreases |ys|
  {
    if |ys| == 0 {
      assert xs + ys == xs;
    } else {
      assert (xs + ys)[..|xs + ys| - 1] == xs + ys[..|ys| - 1];
      LostConcat(rows, xs, ys[..|ys| - 1], user);
    }
  }

  lemma WithoutOne(s: seq<Attended>, j: nat)
    requires Distinct(s, Id()) && j < |s|
    ensures var others := s[..j] + s[j + 1..];
            Distinct(others, Id()) && forall a :: a in others <==> a in s && a != s[j]
  {
    var others := s[..j] + s[j + 1..];
    forall i, m | 0 <= i < m < |others| ensures Id()(others[i]) != Id()(others[m]) {
      var p, q := if i < j then i else i + 1, if m < j then m else m + 1;
      assert Id()(s[p]) != Id()(s[q]);
    }
    forall a ensures a in others <==> a in s && a != s[j] {
      if a in others {
        var i :| 0 <= i < |others| && others[i] == a;
        var p := if i < j then i else i + 1;
        assert s[p] == a && (p < j ==> Id()(s[p]) != Id()(s[j])) && (j < p ==> Id()(s[j]) != Id()(s[p]));
      }
      if a in s && a != s[j] {
        var p :| 0 <= p < |s| && s[p] == a;
        assert others[if p < j then p else p - 1] == a;
      }
    }
  }

  lemma LostWithoutOne(rows: seq<Row>, ys: seq<Attended>, j: nat, user: UserId)
    requires j < |ys|
    ensures Lost(rows, ys, user) ==
            Lost(rows, ys[..j] + ys[j + 1..], user)
            + (if ys[j].user == user && Points(rows, ys[j].id) > 0 then Points(rows, ys[j].id) else 0)
  {
    var front, back := ys[..j], ys[j..];
    assert ys == front + back && back[1..] == ys[j + 1..] && back[0] == ys[j];
    LostConcat(rows, front, back, user);
    LostFromFront(rows, back, user);
    LostConcat(rows, front, back[1..], user);
  }

  /** What is lost depends on who loses, not on the order. */
  lemma {:induction false} LostAnyOrder(rows: seq<Row>, xs: seq<Attended>, ys: seq<Attended>, user: UserId)
    requires Distinct(xs, Id()) && Distinct(ys, Id()) && forall a :: a in xs <==> a in ys
    ensures Lost(rows, xs, user) == Lost(rows, ys, user)
    decreases |xs|
  {
    if |xs| > 0 {
      assert xs[0] in ys;
      var j :| 0 <= j < |ys| && ys[j] == xs[0];
      var others := ys[..j] + ys[j + 1..];
      WithoutOne(ys, j);
      TailIsDistinct(xs);
      forall a ensures a in xs[1..] <==> a in others {
        TailIsRest(xs, a);
      }
      LostAnyOrder(rows, xs[1..], others, user);
      LostFromFront(rows, xs, user);
      LostWithoutOne(rows, ys, j, user);
    } else {
      NoMembers(ys);
    }
  }

  /** The postings on a ledger. */
  ghost function Postings(rows: seq<Row>): set<Posting> { set r | r in rows :: r.posting }

  ghost predicate ReversedBy(rows: seq<Row>, losers: seq<Attended>, p: Posting) {
    exists a :: a in losers && Points(rows, a.id) > 0 && p == Reverse(a, Points(rows, a.id))
  }

  lemma OneMorePosting(s: State, a: Attended, p: Posting)
    ensures p in Postings(Delete(s, a).book.rows) <==>
            p in Postings(s.book.rows) || (Points(s.book.rows, a.id) > 0 && p == Reverse(a, Points(s.book.rows, a.id)))
  {
    var after := Delete(s, a).book.rows;
    if Points(s.book.rows, a.id) > 0 {
      assert after[|s.book.rows|].posting == Reverse(a, Points(s.book.rows, a.id));
      assert after[|s.book.rows|] in after;
      if p in Postings(s.book.rows) {
        var r :| r in s.book.rows && r.posting == p;
        assert r in after;
      }
      if p in Postings(after) {
        var r :| r in after && r.posting == p;
        assert r in s.book.rows || r == after[|s.book.rows|];
      }
    }
  }

  lemma {:induction false} PostingsAfter(s: State, losers: seq<Attended>, p: Posting)
    ensures p in Postings(DeleteAll(s, losers).book.rows) <==>
            p in Postings(s.book.rows) || ReversedBy(s.book.rows, losers, p)
    decreases |losers|
  {
    if |losers| > 0 {
      var a := losers[0];
      var next := Delete(s, a);
      PostingsAfter(next, losers[1..], p);
      forall id ensures Points(next.book.rows, id) == Points(s.book.rows, id) {
        DeleteKeepsPoints(s, a, id);
      }
      OneMorePosting(s, a, p);
      assert forall x :: x in losers <==> x == a || x in losers[1..];
      assert ReversedBy(s.book.rows, losers, p) <==>
          ReversedBy(next.book.rows, losers[1..], p)
            || (Points(s.book.rows, a.id) > 0 && p == Reverse(a, Points(s.book.rows, a.id)));
    }
  }

  lemma {:induction false} DeleteAllKeepsPoints(s: State, losers: seq<Attended>, id: AttendanceId)
    ensures Points(DeleteAll(s, losers).book.rows, id) == Points(s.book.rows, id)
    decreases |losers|
  {
    if |losers| > 0 {
      DeleteKeepsPoints(s, losers[0], id);
      DeleteAllKeepsPoints(Delete(s, losers[0]), losers[1..], id);
    }
  }

  lemma MidIsReady(s: State, n: nat, user: UserId)
    requires Ready(s) && n <= |LoserOrder(s.rows)|
    ensures var gone := LoserOrder(s.rows)[..n];
            && Ready(DeleteAll(s, gone)) && Distinct(gone, Id())
            && Balance(DeleteAll(s, gone).book, user) == Balance(s.book, user) - Lost(s.book.rows, gone, user)
            && (forall id :: Points(DeleteAll(s, gone).book.rows, id) == Points(s.book.rows, id))
  {
    var order := LoserOrder(s.rows);
    var gone := order[..n];
    LosersDistinct(s.rows);
    assert Distinct(gone, Id()) by {
      forall i, j | 0 <= i < j < n ensures Id()(gone[i]) != Id()(gone[j]) {
        assert Id()(order[i]) != Id()(order[j]);
      }
    }
    forall a | a in gone ensures a in s.rows {
      LosersAreTheRest(s.rows, a);
    }
    DeleteAllBalances(s, gone, user);
    forall id ensures Points(DeleteAll(s, gone).book.rows, id) == Points(s.book.rows, id) {
      DeleteAllKeepsPoints(s, gone, id);
    }
  }

  /** First part and rerun together delete exactly the losers, each once. */
  lemma SameMembers(s: State, n: nat)
    requires Ready(s) && n <= |LoserOrder(s.rows)|
    ensures var order := LoserOrder(s.rows);
            var left := LoserOrder(DeleteAll(s, order[..n]).rows);
            && Distinct(order[..n] + left, Id())
            && (forall a :: a in order <==> a in order[..n] + left)
  {
    var order := LoserOrder(s.rows);
    var gone := order[..n];
    var mid := DeleteAll(s, gone);
    MidIsReady(s, n, 0);
    DeletedRows(s, gone);
    var left := LoserOrder(mid.rows);
    LosersDistinct(mid.rows);
    forall a, b | a in gone && b in left ensures Id()(a) != Id()(b) {
      LosersAreTheRest(s.rows, a);
      LosersAreTheRest(mid.rows, b);
      if a.id == b.id {
        OneRowPerId(s.rows, a, b);
      }
    }
    DistinctConcat(gone, left, Id());
    forall a ensures a in order <==> a in gone + left {
      LosersAreTheRest(s.rows, a);
      LosersAreTheRest(mid.rows, a);
      if a in s.rows {
        LosersLeft(s.rows, n, a);
      }
    }
  }

  lemma CleanedBalance(s: State, user: UserId)
    requires Ready(s)
    ensures Balance(Cleaned(s).book, user) == Balance(s.book, user) - Lost(s.book.rows, LoserOrder(s.rows), user)
  {
    AppliedRun(s, user);
  }

  lemma LostTogether(rows: seq<Row>, order: seq<Attended>, gone: seq<Attended>, left: seq<Attended>, user: UserId)
    requires Distinct(order, Id()) && Distinct(gone + left, Id()) && forall a :: a in order <==> a in gone + left
    ensures Lost(rows, order, user) == Lost(rows, gone, user) + Lost(rows, left, user)
  {
    LostAnyOrder(rows, order, gone + left, user);
    LostConcat(rows, gone, left, user);
  }

  lemma MidBalance(s: State, n: nat, user: UserId)
    requires Ready(s) && n <= |LoserOrder(s.rows)|
    ensures var gone := LoserOrder(s.rows)[..n];
            && Ready(DeleteAll(s, gone))
            && Balance(DeleteAll(s, gone).book, user) == Balance(s.book, user) - Lost(s.book.rows, gone, user)
  {
    MidIsReady(s, n, user);
  }

  lemma LostInTwoParts(s: State, n: nat, user: UserId)
    requires Ready(s) && n <= |LoserOrder(s.rows)|
    ensures var gone := LoserOrder(s.rows)[..n];
            var mid := DeleteAll(s, gone);
            Lost(s.book.rows, LoserOrder(s.rows), user) ==
            Lost(s.book.rows, gone, user) + Lost(mid.book.rows, LoserOrder(mid.rows), user)
  {
    var order, gone := LoserOrder(s.rows), LoserOrder(s.rows)[..n];
    var mid := DeleteAll(s, gone);
    SameMembers(s, n);
    LosersDistinct(s.rows);
    LostTogether(s.book.rows, order, gone, LoserOrder(mid.rows), user);
    forall id ensures Points(mid.book.rows, id) == Points(s.book.rows, id) {
      DeleteAllKeepsPoints(s, gone, id);
    }
    LostSame(s.book.rows, mid.book.rows, LoserOrder(mid.rows), user);
  }

  lemma RerunBalance(s: State, n: nat, user: UserId)
    requires Ready(s) && n <= |LoserOrder(s.rows)|
    ensures Balance(Cleaned(DeleteAll(s, LoserOrder(s.rows)[..n])).book, user) == Balance(Cleaned(s).book, user)
  {
    var order := LoserOrder(s.rows);
    var gone := order[..n];
    var mid := DeleteAll(s, gone);
    var left := LoserOrder(mid.rows);
    CleanedBalance(s, user);
    MidBalance(s, n, user);
    CleanedBalance(mid, user);
    LostInTwoParts(s, n, user);
  }

  lemma ReversedTogether(rows: seq<Row>, later: seq<Row>, order: seq<Attended>, gone: seq<Attended>,
                         left: seq<Attended>, p: Posting)
    requires forall id :: Points(later, id) == Points(rows, id)
    requires forall a :: a in order <==> a in gone + left
    ensures ReversedBy(rows, order, p) <==> ReversedBy(rows, gone, p) || ReversedBy(later, left, p)
  {}

  lemma RerunPostings(s: State, n: nat, p: Posting)
    requires Ready(s) && n <= |LoserOrder(s.rows)|
    ensures p in Postings(Cleaned(DeleteAll(s, LoserOrder(s.rows)[..n])).book.rows) <==>
            p in Postings(Cleaned(s).book.rows)
  {
    var order := LoserOrder(s.rows);
    var gone := order[..n];
    var mid := DeleteAll(s, gone);
    var left := LoserOrder(mid.rows);
    MidIsReady(s, n, 0);
    SameMembers(s, n);
    ReversedTogether(s.book.rows, mid.book.rows, order, gone, left, p);
    PostingsAfter(s, order, p);
    PostingsAfter(s, gone, p);
    PostingsAfter(mid, left, p);
  }

  lemma RemainingTwice(rows: seq<Attended>, order: seq<Attended>, gone: seq<Attended>, left: seq<Attended>)
    requires forall a :: a in order <==> a in gone + left
    ensures Remaining(Remaining(rows, gone), left) == Remaining(rows, order)
  {
    FilterTwice(rows, NotAmong(gone), NotAmong(left), NotAmong(order));
  }

  lemma RerunRows(s: State, n: nat)
    requires Ready(s) && n <= |LoserOrder(s.rows)|
    ensures Cleaned(DeleteAll(s, LoserOrder(s.rows)[..n])).rows == Cleaned(s).rows
  {
    var order := LoserOrder(s.rows);
    var gone := order[..n];
    var mid := DeleteAll(s, gone);
    var left := LoserOrder(mid.rows);
    SameMembers(s, n);
    DeletedRows(s, gone);
    DeletedRows(mid, left);
    DeletedRows(s, order);
    RemainingTwice(s.rows, order, gone, left);
  }

  /** Stopping at any transaction boundary and running again (rows in the same order) reaches the same
      attendances, the same balances and the same set of postings. */
  lemma StopAndRerun(s: State, n: nat, user: UserId)
    requires Ready(s) && n <= |LoserOrder(s.rows)|
    ensures var mid := DeleteAll(s, LoserOrder(s.rows)[..n]);
            var end := Cleaned(s);
            var again := Cleaned(mid);
            && Ready(mid) && again.rows == end.rows
            && Balance(again.book, user) == Balance(end.book, user)
            && Postings(again.book.rows) == Postings(end.book.rows)
  {
    MidIsReady(s, n, user);
    RerunRows(s, n);
    RerunBalance(s, n, user);
    forall p
      ensures p in Postings(Cleaned(DeleteAll(s, LoserOrder(s.rows)[..n])).book.rows) <==>
              p in Postings(Cleaned(s).book.rows)
    {
      RerunPostings(s, n, p);
    }
  }

  // ---------------------------------------------------------------- the order of the ledger rows

  /** Losers of one group, in the order they are deleted. */
  function Tail(rows: seq<Attended>, k: GroupKey): seq<Attended> {
    if |Ranked(rows, k)| == 0 then [] else Ranked(rows, k)[1..]
  }

  /** Those losers that count: all of them, or the ones with credit to reverse. */
  function CountedIn(rows: seq<Attended>, k: GroupKey, counts: Attended -> bool): seq<Attended> {
    Filter(Tail(rows, k), counts)
  }

  function Counted(rows: seq<Attended>, counts: Attended -> bool): seq<Attended> {
    Filter(LoserOrder(rows), counts)
  }

  /** The first group in the rows with a loser that counts. */
  function FirstCounted(rows: seq<Attended>, counts: Attended -> bool): Option<GroupKey>
    decreases |rows|
  {
    if |rows| == 0 then None
    else
      var k := KeyOf(rows[0]);
      assert rows[0] in rows;
      FilterShorter(rows, OutOfGroup(k), rows[0]);
      if |CountedIn(rows, k, counts)| > 0 then Some(k) else FirstCounted(Others(rows, k), counts)
  }

  function HeadKey(losers: seq<Attended>): Option<GroupKey> {
    if |losers| == 0 then None else Some(KeyOf(losers[0]))
  }

  lemma Apart(s: seq<Attended>, t: seq<Attended>)
    requires Distinct(s + t, Id())
    ensures Distinct(s, Id()) && forall a :: a in s ==> a !in t
  {
    forall i, j | 0 <= i < j < |s| ensures Id()(s[i]) != Id()(s[j]) {
      assert Id()((s + t)[i]) != Id()((s + t)[j]);
    }
    forall i, j | 0 <= i < |s| && 0 <= j < |t| ensures s[i] != t[j] {
      assert Id()((s + t)[i]) != Id()((s + t)[|s| + j]);
    }
  }

  /** Cutting a middle part out of a list without duplicates. */
  lemma FilterCut(first: Attended, gone: seq<Attended>, rest: seq<Attended>)
    requires Distinct([first] + gone + rest, Id())
    ensures Filter([first] + gone + rest, NotAmong(gone)) == [first] + rest
  {
    Apart([first] + gone, rest);
    Apart([first], gone);
    FilterSplit([first], gone, rest, NotAmong(gone));
  }

  lemma OthersCommute(rows: seq<Attended>, j: GroupKey, k: GroupKey)
    ensures Others(Others(rows, j), k) == Others(Others(rows, k), j)
  {
    var both := (a: Attended) => KeyOf(a) != j && KeyOf(a) != k;
    FilterTwice(rows, OutOfGroup(j), OutOfGroup(k), both);
    FilterTwice(rows, OutOfGroup(k), OutOfGroup(j), both);
  }

  /** What the first row's group contributes. */
  lemma FirstGroup(rows: seq<Attended>, k: GroupKey)
    requires |rows| > 0 && k == KeyOf(rows[0])
    ensures |Ranked(rows, k)| > 0 && |Others(rows, k)| < |rows|
    ensures LoserOrder(rows) == Ranked(rows, k)[1..] + LoserOrder(Others(rows, k))
  {
    assert rows[0] in Members(rows, k);
    FilterShorter(rows, OutOfGroup(k), rows[0]);
  }

  lemma CountedUnrolled(rows: seq<Attended>, k: GroupKey, counts: Attended -> bool)
    requires |rows| > 0 && k == KeyOf(rows[0])
    ensures |Others(rows, k)| < |rows|
    ensures Counted(rows, counts) == CountedIn(rows, k, counts) + Counted(Others(rows, k), counts)
    ensures FirstCounted(rows, counts) ==
            if |CountedIn(rows, k, counts)| > 0 then Some(k) else FirstCounted(Others(rows, k), counts)
  {
    FirstGroup(rows, k);
    FilterConcat(Tail(rows, k), LoserOrder(Others(rows, k)), counts);
  }

  lemma OtherTailUntouched(rows: seq<Attended>, k: GroupKey, gone: GroupKey, counts: Attended -> bool)
    requires k != gone
    ensures CountedIn(Others(rows, gone), k, counts) == CountedIn(rows, k, counts)
  {
    OtherGroupUntouched(rows, k, gone);
  }

  /** A group without a loser that counts contributes nothing. */
  lemma {:induction false} DropIdle(rows: seq<Attended>, k: GroupKey, counts: Attended -> bool)
    requires CountedIn(rows, k, counts) == []
    ensures Counted(rows, counts) == Counted(Others(rows, k), counts)
    ensures FirstCounted(rows, counts) == FirstCounted(Others(rows, k), counts)
    decreases |rows|
  {
    if |rows| > 0 {
      var j := KeyOf(rows[0]);
      CountedUnrolled(rows, j, counts);
      if j != k {
        OtherTailUntouched(rows, k, j, counts);
        DropIdle(Others(rows, j), k, counts);
        FilterHead(rows, OutOfGroup(k));
        OtherTailUntouched(rows, j, k, counts);
        OthersCommute(rows, j, k);
        CountedUnrolled(Others(rows, k), j, counts);
      }
    }
  }

  lemma NoGroupLeft(rows: seq<Attended>, k: GroupKey)
    ensures Tail(Others(rows, k), k) == []
  {
    FilterNone(Others(rows, k), InGroup(k));
  }

  lemma BehindIdle(rows: seq<Attended>, j: GroupKey, k: GroupKey, counts: Attended -> bool)
    requires CountedIn(rows, j, counts) == [] && |CountedIn(Others(rows, j), k, counts)| > 0
    ensures CountedIn(Others(rows, j), k, counts) == CountedIn(rows, k, counts)
    ensures Counted(rows, counts) == Counted(Others(rows, j), counts)
    ensures Counted(Others(Others(rows, j), k), counts) == Counted(Others(rows, k), counts)
  {
    if j == k {
      NoGroupLeft(rows, j);
    }
    DropIdle(rows, j, counts);
    OtherTailUntouched(rows, k, j, counts);
    OtherTailUntouched(rows, j, k, counts);
    OthersCommute(rows, j, k);
    DropIdle(Others(rows, k), j, counts);
  }

  /** The first group with a loser that counts is cleaned first. */
  lemma {:induction false} FirstGroupFirst(rows: seq<Attended>, k: GroupKey, counts: Attended -> bool)
    requires FirstCounted(rows, counts) == Some(k)
    ensures |CountedIn(rows, k, counts)| > 0
    ensures Counted(rows, counts) == CountedIn(rows, k, counts) + Counted(Others(rows, k), counts)
    decreases |rows|
  {
    var j := KeyOf(rows[0]);
    CountedUnrolled(rows, j, counts);
    if |CountedIn(rows, j, counts)| == 0 {
      FirstGroupFirst(Others(rows, j), k, counts);
      BehindIdle(rows, j, k, counts);
    }
  }

  lemma RankedIn(rows: seq<Attended>, k: GroupKey)
    ensures forall i :: 0 <= i < |Ranked(rows, k)| ==> KeyOf(Ranked(rows, k)[i]) == k
  {
    forall i | 0 <= i < |Ranked(rows, k)| ensures KeyOf(Ranked(rows, k)[i]) == k {
      assert Ranked(rows, k)[i] in Members(rows, k);
    }
  }

  /** The first group that counts is the one the first counting loser belongs to. */
  lemma {:induction false} FirstLoser(rows: seq<Attended>, counts: Attended -> bool)
    ensures FirstCounted(rows, counts) == HeadKey(Counted(rows, counts))
    decreases |rows|
  {
    if |rows| > 0 {
      var k := KeyOf(rows[0]);
      CountedUnrolled(rows, k, counts);
      if |CountedIn(rows, k, counts)| > 0 {
        RankedIn(rows, k);
        assert CountedIn(rows, k, counts)[0] in Tail(rows, k);
      } else {
        FirstLoser(Others(rows, k), counts);
        assert [] + Counted(Others(rows, k), counts) == Counted(Others(rows, k), counts);
      }
    }
  }

  /** Taking rows of group `k` away, then looking outside the group, sees nothing missing. */
  lemma OutsideUntouched(rows: seq<Attended>, gone: seq<Attended>, inside: seq<Attended>, outside: seq<Attended>,
                         k: GroupKey)
    requires gone == inside + outside && forall i :: 0 <= i < |inside| ==> KeyOf(inside[i]) == k
    ensures Others(Remaining(rows, gone), k) == Remaining(Others(rows, k), outside)
  {
    var both := (a: Attended) => KeyOf(a) != k && a !in outside;
    assert forall a :: a in gone <==> a in inside || a in outside;
    FilterTwice(rows, NotAmong(gone), OutOfGroup(k), both);
    FilterTwice(rows, OutOfGroup(k), NotAmong(outside), both);
  }

  lemma TailIn(rows: seq<Attended>, k: GroupKey, a: Attended)
    requires a in Tail(rows, k)
    ensures KeyOf(a) == k
  {
    RankedIn(rows, k);
  }

  lemma RankedWithout(rows: seq<Attended>, k: GroupKey, first: Attended, gone: seq<Attended>, tail: seq<Attended>)
    requires Distinct(rows, Id()) && Ranked(rows, k) == [first] + gone + tail
    ensures Ranked(Remaining(rows, gone), k) == [first] + tail
    ensures ([first] + tail)[1..] == tail
  {
    RankedIsDistinct(rows, k);
    RankedRemaining(rows, gone, k);
    FilterCut(first, gone, tail);
  }

  lemma FirstGroupWithout(rows: seq<Attended>, k: GroupKey, gone: seq<Attended>, tail: seq<Attended>)
    requires Distinct(rows, Id()) && Tail(rows, k) == gone + tail
    ensures Tail(Remaining(rows, gone), k) == tail && Others(Remaining(rows, gone), k) == Others(rows, k)
  {
    var ranked := Ranked(rows, k);
    forall i | 0 <= i < |gone| ensures KeyOf(gone[i]) == k {
      assert gone[i] == Tail(rows, k)[i];
      TailIn(rows, k, gone[i]);
    }
    if |ranked| > 0 {
      assert ranked == [ranked[0]] + gone + tail;
      RankedWithout(rows, k, ranked[0], gone, tail);
    } else {
      RankedRemaining(rows, gone, k);
    }
    assert gone == gone + [];
    OutsideUntouched(rows, gone, gone, [], k);
    FilterAll(Others(rows, k), NotAmong([]));
  }

  lemma StoppedInFirstGroup(rows: seq<Attended>, k: GroupKey, gone: seq<Attended>, tail: seq<Attended>,
                            next: seq<Attended>, counts: Attended -> bool)
    requires Distinct(rows, Id()) && Tail(rows, k) == gone + tail && next == tail + LoserOrder(Others(rows, k))
    requires FirstCounted(Remaining(rows, gone), counts) == HeadKey(Filter(next, counts))
    ensures Counted(Remaining(rows, gone), counts) == Filter(next, counts)
  {
    FilterConcat(tail, LoserOrder(Others(rows, k)), counts);
    FirstGroupWithout(rows, k, gone, tail);
    if |Filter(tail, counts)| > 0 {
      TailIn(rows, k, Filter(tail, counts)[0]);
      FirstGroupFirst(Remaining(rows, gone), k, counts);
    } else {
      DropIdle(Remaining(rows, gone), k, counts);
    }
  }

  /** A group whose losers are all gone is down to its winner. */
  lemma SingleLeft(rows: seq<Attended>, gone: seq<Attended>, losers: seq<Attended>, later: seq<Attended>, k: GroupKey)
    requires Distinct(rows, Id()) && |Members(rows, k)| > 0
    requires losers == Tail(rows, k) && gone == losers + later
    ensures Tail(Remaining(rows, gone), k) == []
  {
    var ranked := Ranked(rows, k);
    RankedRemaining(rows, gone, k);
    assert ranked == [ranked[0]] + losers;
    FilterConcat([ranked[0]], losers, NotAmong(gone));
    FilterNone(losers, NotAmong(gone));
  }

  /** With its losers gone, group `k` no longer matters. */
  lemma StoppedLater(rows: seq<Attended>, k: GroupKey, losers: seq<Attended>, later: seq<Attended>,
                     gone: seq<Attended>, counts: Attended -> bool)
    requires Distinct(rows, Id()) && |Members(rows, k)| > 0 && losers == Tail(rows, k) && gone == losers + later
    ensures Counted(Remaining(rows, gone), counts) == Counted(Remaining(Others(rows, k), later), counts)
    ensures FirstCounted(Remaining(rows, gone), counts) == FirstCounted(Remaining(Others(rows, k), later), counts)
  {
    RankedIn(rows, k);
    OutsideUntouched(rows, gone, losers, later, k);
    SingleLeft(rows, gone, losers, later, k);
    DropIdle(Remaining(rows, gone), k, counts);
  }

  /** Two ways to cut one list: the first cut falls inside the other's front, or behind it. */
  lemma TwoCuts(gone: seq<Attended>, next: seq<Attended>, losers: seq<Attended>, order: seq<Attended>)
    requires gone + next == losers + order
    ensures |gone| <= |losers| ==> losers == gone + losers[|gone|..] && next == losers[|gone|..] + order
    ensures |gone| > |losers| ==> gone == losers + gone[|losers|..] && order == gone[|losers|..] + next
  {
    assert (gone + next)[..|gone|] == gone && (losers + order)[..|losers|] == losers;
    assert (gone + next)[|gone|..] == next && (losers + order)[|losers|..] == order;
  }

  lemma {:induction false} ResumesWhenFirst(rows: seq<Attended>, gone: seq<Attended>, next: seq<Attended>,
                                            counts: Attended -> bool)
    requires Distinct(rows, Id()) && LoserOrder(rows) == gone + next
    requires FirstCounted(Remaining(rows, gone), counts) == HeadKey(Filter(next, counts))
    ensures Counted(Remaining(rows, gone), counts) == Filter(next, counts)
    decreases |rows|
  {
    if |rows| > 0 {
      var k := KeyOf(rows[0]);
      FirstGroup(rows, k);
      var losers, rest := Tail(rows, k), Others(rows, k);
      TwoCuts(gone, next, losers, LoserOrder(rest));
      if |gone| <= |losers| {
        StoppedInFirstGroup(rows, k, gone, losers[|gone|..], next, counts);
      } else {
        var later := gone[|losers|..];
        StoppedLater(rows, k, losers, later, gone, counts);
        FilterDistinct(rows, OutOfGroup(k), Id());
        ResumesWhenFirst(rest, later, next, counts);
      }
    }
  }

  lemma ResumesInOrder(rows: seq<Attended>, gone: seq<Attended>, next: seq<Attended>, left: seq<Attended>,
                       counts: Attended -> bool)
    requires Distinct(rows, Id()) && LoserOrder(rows) == gone + next && left == Remaining(rows, gone)
    ensures Counted(left, counts) == Filter(next, counts) <==>
            FirstCounted(left, counts) == HeadKey(Filter(next, counts))
  {
    FirstLoser(left, counts);
    if FirstCounted(left, counts) == HeadKey(Filter(next, counts)) {
      ResumesWhenFirst(rows, gone, next, counts);
    }
  }

  /** Resuming continues in the original order if and only if the first group that counts among the
      remaining rows is the one the next counting loser belongs to. */
  lemma ResumeOrder(rows: seq<Attended>, n: nat, counts: Attended -> bool)
    requires Distinct(rows, Id()) && n < |LoserOrder(rows)|
    ensures var order := LoserOrder(rows);
            var left := Remaining(rows, order[..n]);
            Counted(left, counts) == Filter(order[n..], counts) <==>
            FirstCounted(left, counts) == HeadKey(Filter(order[n..], counts))
  {
    var order := LoserOrder(rows);
    assert order == order[..n] + order[n..];
    ResumesInOrder(rows, order[..n], order[n..], Remaining(rows, order[..n]), counts);
  }

  // ---------------------------------------------------------------- what the order does to the ledger

  /** Losers with credit to reverse. */
  function Credited(rows: seq<Row>): Attended -> bool { (a: Attended) => Points(rows, a.id) > 0 }

  lemma FilterFromFront(s: seq<Attended>, f: Attended -> bool)
    requires |s| > 0
    ensures Filter(s, f) == (if f(s[0]) then [s[0]] else []) + Filter(s[1..], f)
  {
    assert s == [s[0]] + s[1..];
    FilterConcat([s[0]], s[1..], f);
    FilterAppend([], s[0], f);
  }

  lemma NoneCredited(losers: seq<Attended>, others: seq<Attended>, c: Attended -> bool)
    requires Filter(losers, c) == Filter(others, c)
    requires (|losers| > 0 ==> c(losers[0])) && (|others| > 0 ==> c(others[0]))
    requires losers == [] || others == []
    ensures losers == others
  {
    if |losers| > 0 {
      FilterHead(losers, c);
    }
    if |others| > 0 {
      FilterHead(others, c);
    }
  }

  lemma SameFirst(x: Attended, xs: seq<Attended>, y: Attended, ys: seq<Attended>)
    requires [x] + xs == [y] + ys
    ensures x == y && xs == ys
  {
    assert ([x] + xs)[0] == x && ([y] + ys)[0] == y;
    assert ([x] + xs)[1..] == xs && ([y] + ys)[1..] == ys;
  }

  lemma SameCredited(s: State, a: Attended, losers: seq<Attended>)
    ensures Filter(losers, Credited(Delete(s, a).book.rows)) == Filter(losers, Credited(s.book.rows))
  {
    forall id ensures Points(Delete(s, a).book.rows, id) == Points(s.book.rows, id) {
      DeleteKeepsPoints(s, a, id);
    }
    FilterSame(losers, Credited(Delete(s, a).book.rows), Credited(s.book.rows));
  }

  /** Only losers with credit leave a mark on the ledger, each its own, in their order. */
  lemma {:induction false} BookOfCredited(s: State, t: State, losers: seq<Attended>, others: seq<Attended>)
    requires s.book == t.book && Filter(losers, Credited(s.book.rows)) == Filter(others, Credited(s.book.rows))
    ensures DeleteAll(s, losers).book == DeleteAll(t, others).book
    decreases |losers| + |others|
  {
    var c := Credited(s.book.rows);
    if |losers| > 0 && !c(losers[0]) {
      FilterFromFront(losers, c);
      BookOfCredited(Delete(s, losers[0]), t, losers[1..], others);
    } else if |others| > 0 && !c(others[0]) {
      FilterFromFront(others, c);
      BookOfCredited(s, Delete(t, others[0]), losers, others[1..]);
    } else if |losers| > 0 && |others| > 0 {
      FilterFromFront(losers, c);
      FilterFromFront(others, c);
      SameFirst(losers[0], Filter(losers[1..], c), others[0], Filter(others[1..], c));
      SameCredited(s, losers[0], losers[1..]);
      SameCredited(s, losers[0], others[1..]);
      BookOfCredited(Delete(s, losers[0]), Delete(t, others[0]), losers[1..], others[1..]);
    } else {
      NoneCredited(losers, others, c);
    }
  }

  lemma {:induction false} DeleteAllExtends(s: State, losers: seq<Attended>)
    ensures s.book.rows <= DeleteAll(s, losers).book.rows
    decreases |losers|
  {
    if |losers| > 0 {
      DeleteAllExtends(Delete(s, losers[0]), losers[1..]);
    }
  }

  /** The next ledger row names the next loser with credit. */
  lemma {:induction false} NextRowNamesLoser(s: State, losers: seq<Attended>)
    ensures var rows, next := DeleteAll(s, losers).book.rows, Filter(losers, Credited(s.book.rows));
            && s.book.rows <= rows
            && (|next| == 0 ==> rows == s.book.rows)
            && (|next| > 0 ==> |rows| > |s.book.rows| && rows[|s.book.rows|].posting.key == DedupKey(next[0].id))
    decreases |losers|
  {
    if |losers| > 0 {
      FilterFromFront(losers, Credited(s.book.rows));
      if Credited(s.book.rows)(losers[0]) {
        DeleteAllExtends(Delete(s, losers[0]), losers[1..]);
      } else {
        NextRowNamesLoser(Delete(s, losers[0]), losers[1..]);
      }
    }
  }

  /** Equal ledgers name the same next loser. */
  lemma SameNextLoser(mid: State, rows: seq<Attended>, next: seq<Attended>, left: seq<Attended>)
    requires Distinct(rows, Id()) && forall a :: a in next || a in left ==> a in rows
    requires DeleteAll(mid, left).book.rows == DeleteAll(mid, next).book.rows
    ensures HeadKey(Filter(left, Credited(mid.book.rows))) == HeadKey(Filter(next, Credited(mid.book.rows)))
  {
    var c := Credited(mid.book.rows);
    NextRowNamesLoser(mid, next);
    NextRowNamesLoser(mid, left);
    if |Filter(left, c)| > 0 && |Filter(next, c)| > 0 {
      assert Filter(left, c)[0] in left && Filter(next, c)[0] in next;
      OneRowPerId(rows, Filter(left, c)[0], Filter(next, c)[0]);
    }
  }

  lemma LosersAreRows(s: State, n: nat)
    requires Ready(s) && n < |LoserOrder(s.rows)|
    ensures forall a :: a in LoserOrder(s.rows)[n..] ==> a in s.rows
    ensures forall a :: a in LoserOrder(DeleteAll(s, LoserOrder(s.rows)[..n]).rows) ==> a in s.rows
  {
    var mid := DeleteAll(s, LoserOrder(s.rows)[..n]);
    MidIsReady(s, n, 0);
    DeletedRows(s, LoserOrder(s.rows)[..n]);
    forall a
      ensures a in LoserOrder(s.rows) ==> a in s.rows
      ensures a in LoserOrder(mid.rows) ==> a in s.rows
    {
      LosersAreTheRest(s.rows, a);
      LosersAreTheRest(mid.rows, a);
    }
  }

  lemma CleanedFrom(s: State, n: nat)
    requires n < |LoserOrder(s.rows)|
    ensures Cleaned(s) == DeleteAll(DeleteAll(s, LoserOrder(s.rows)[..n]), LoserOrder(s.rows)[n..])
  {
    var order := LoserOrder(s.rows);
    assert order == order[..n] + order[n..];
    DeleteAllConcat(s, order[..n], order[n..]);
  }

  lemma MidCredited(s: State, n: nat, losers: seq<Attended>)
    requires n < |LoserOrder(s.rows)|
    ensures Filter(losers, Credited(DeleteAll(s, LoserOrder(s.rows)[..n]).book.rows)) ==
            Filter(losers, Credited(s.book.rows))
  {
    var gone := LoserOrder(s.rows)[..n];
    forall id ensures Points(DeleteAll(s, gone).book.rows, id) == Points(s.book.rows, id) {
      DeleteAllKeepsPoints(s, gone, id);
    }
    FilterSame(losers, Credited(DeleteAll(s, gone).book.rows), Credited(s.book.rows));
  }

  /** The rerun's ledger is the uninterrupted run's, row for row, if and only if the first group with a
      credited loser among the remaining rows is the one the next credited loser belongs to. */
  lemma ResumedLedger(s: State, n: nat)
    requires Ready(s) && n < |LoserOrder(s.rows)|
    ensures var order := LoserOrder(s.rows);
            var mid := DeleteAll(s, order[..n]);
            var c := Credited(s.book.rows);
            Cleaned(mid) == Cleaned(s) <==> FirstCounted(mid.rows, c) == HeadKey(Filter(order[n..], c))
  {
    var order := LoserOrder(s.rows);
    var mid := DeleteAll(s, order[..n]);
    var c := Credited(s.book.rows);
    DeletedRows(s, order[..n]);
    ResumeOrder(s.rows, n, c);
    CleanedFrom(s, n);
    MidCredited(s, n, LoserOrder(mid.rows));
    MidCredited(s, n, order[n..]);
    if Cleaned(mid) == Cleaned(s) {
      LosersAreRows(s, n);
      SameNextLoser(mid, s.rows, order[n..], LoserOrder(mid.rows));
      FirstLoser(mid.rows, c);
    }
    if FirstCounted(mid.rows, c) == HeadKey(Filter(order[n..], c)) {
      BookOfCredited(mid, mid, LoserOrder(mid.rows), order[n..]);
      RerunRows(s, n);
    }
  }
}
