/** The cleanup as it runs: one pass that groups the attendances, then one transaction per loser. */
module CleanupScript {
  import opened Domain
  import opened Seqs
  import opened Ledger
  import opened Cleanup
  import opened CleanupResume

  /** Keys in the order a Map keeps them: by first insertion. */
  function KeysOf(rows: seq<Attended>): (keys: seq<GroupKey>)
    ensures forall a :: a in rows ==> KeyOf(a) in keys
  {
    if |rows| == 0 then []
    else
      var n := |rows| - 1;
      var keys := KeysOf(rows[..n]);
      assert rows == rows[..n] + [rows[n]];
      if KeyOf(rows[n]) in keys then keys else keys + [KeyOf(rows[n])]
  }

  /** The losers of the listed groups, group after group. */
  function Flat(rows: seq<Attended>, keys: seq<GroupKey>): seq<Attended> {
    if |keys| == 0 then [] else Tail(rows, keys[0]) + Flat(rows, keys[1..])
  }

  lemma {:induction false} KeyIsSomeRows(rows: seq<Attended>, k: GroupKey)
    requires k in KeysOf(rows)
    ensures exists a :: a in rows && KeyOf(a) == k
    decreases |rows|
  {
    var n := |rows| - 1;
    if KeyOf(rows[n]) != k {
      KeyIsSomeRows(rows[..n], k);
      var a :| a in rows[..n] && KeyOf(a) == k;
      assert a in rows;
    } else {
      assert rows[n] in rows;
    }
  }

  lemma KeysAppend(rows: seq<Attended>, a: Attended)
    ensures KeysOf(rows + [a]) == if KeyOf(a) in KeysOf(rows) then KeysOf(rows) else KeysOf(rows) + [KeyOf(a)]
  {
    assert (rows + [a])[..|rows|] == rows;
  }

  lemma Prepended(keys: seq<GroupKey>, k: GroupKey, j: GroupKey)
    ensures j in [k] + keys <==> j == k || j in keys
    ensures [k] + keys + [j] == [k] + (keys + [j])
  {}

  /** The first row's group comes first, the others keep their order. */
  lemma {:induction false} KeysFirst(rows: seq<Attended>, k: GroupKey)
    requires |rows| > 0 && k == KeyOf(rows[0])
    ensures KeysOf(rows) == [k] + KeysOf(Others(rows, k))
    decreases |rows|
  {
    var n := |rows| - 1;
    var front, a := rows[..n], rows[n];
    assert rows == front + [a];
    KeysAppend(front, a);
    FilterAppend(front, a, OutOfGroup(k));
    if n == 0 {
      assert front == [];
    } else {
      KeysFirst(front, k);
      KeysAppend(Others(front, k), a);
      Prepended(KeysOf(Others(front, k)), k, KeyOf(a));
    }
  }

  lemma {:induction false} FlatSkips(rows: seq<Attended>, gone: GroupKey, keys: seq<GroupKey>)
    requires gone !in keys
    ensures Flat(Others(rows, gone), keys) == Flat(rows, keys)
    decreases |keys|
  {
    if |keys| > 0 {
      OtherGroupUntouched(rows, keys[0], gone);
      FlatSkips(rows, gone, keys[1..]);
    }
  }

  lemma FlatHead(rows: seq<Attended>, k: GroupKey, keys: seq<GroupKey>)
    ensures Flat(rows, [k] + keys) == Tail(rows, k) + Flat(rows, keys)
  {
    assert ([k] + keys)[1..] == keys;
  }

  /** Grouping in one pass and walking the groups visits the losers in their order. */
  lemma {:induction false} GroupsGiveOrder(rows: seq<Attended>)
    ensures Flat(rows, KeysOf(rows)) == LoserOrder(rows)
    decreases |rows|
  {
    if |rows| > 0 {
      var k := KeyOf(rows[0]);
      FirstGroup(rows, k);
      KeysFirst(rows, k);
      var rest := Others(rows, k);
      FlatHead(rows, k, KeysOf(rest));
      if k in KeysOf(rest) {
        KeyIsSomeRows(rest, k);
      }
      FlatSkips(rows, k, KeysOf(rest));
      GroupsGiveOrder(rest);
    }
  }

  /** The Map of groups after the first pass over `rows`. */
  ghost predicate Grouped(groups: map<GroupKey, seq<Attended>>, rows: seq<Attended>) {
    && (forall k :: k in groups <==> k in KeysOf(rows))
    && (forall k | k in groups :: groups[k] == Members(rows, k))
  }

  /** Credited points as the first pass read them. */
  ghost predicate PointsRead(points: map<AttendanceId, int>, rows: seq<Attended>, ledger: seq<Row>) {
    forall a :: a in rows ==> a.id in points && points[a.id] == Points(ledger, a.id)
  }

  lemma MembersAppend(rows: seq<Attended>, a: Attended, k: GroupKey)
    ensures Members(rows + [a], k) == if KeyOf(a) == k then Members(rows, k) + [a] else Members(rows, k)
    ensures k !in KeysOf(rows) ==> Members(rows, k) == []
  {
    FilterAppend(rows, a, InGroup(k));
    if k !in KeysOf(rows) {
      FilterNone(rows, InGroup(k));
    }
  }

  lemma AppendedGroups(groups: map<GroupKey, seq<Attended>>, rows: seq<Attended>, a: Attended,
                       after: map<GroupKey, seq<Attended>>)
    requires Grouped(groups, rows)
    requires after == groups[KeyOf(a) := (if KeyOf(a) in groups then groups[KeyOf(a)] else []) + [a]]
    ensures forall k | k in after :: after[k] == Members(rows + [a], k)
  {
    forall k | k in after ensures after[k] == Members(rows + [a], k) {
      MembersAppend(rows, a, k);
    }
  }

  lemma GroupedAppend(groups: map<GroupKey, seq<Attended>>, rows: seq<Attended>, a: Attended)
    requires Grouped(groups, rows)
    ensures var before := if KeyOf(a) in groups then groups[KeyOf(a)] else [];
            Grouped(groups[KeyOf(a) := before + [a]], rows + [a])
  {
    var before := if KeyOf(a) in groups then groups[KeyOf(a)] else [];
    KeysAppend(rows, a);
    AppendedGroups(groups, rows, a, groups[KeyOf(a) := before + [a]]);
  }

  /** A group in the Map: its losers are its sorted rows but the first, none if it is alone. */
  lemma GroupLosers(groups: map<GroupKey, seq<Attended>>, rows: seq<Attended>, k: GroupKey)
    requires Grouped(groups, rows) && k in groups
    ensures |groups[k]| > 1 ==> Sort(groups[k], Order())[1..] == Tail(rows, k)
    ensures |groups[k]| <= 1 ==> Tail(rows, k) == []
    ensures forall a :: a in Tail(rows, k) ==> a in rows
  {
    assert groups[k] == Members(rows, k);
    assert forall a :: a in Tail(rows, k) ==> a in Ranked(rows, k);
  }

  lemma FlatNext(rows: seq<Attended>, keys: seq<GroupKey>, i: nat)
    requires i < |keys|
    ensures Flat(rows, keys[i..]) == Tail(rows, keys[i]) + Flat(rows, keys[i + 1..])
    ensures Tail(rows, keys[i]) == [] ==> Flat(rows, keys[i..]) == Flat(rows, keys[i + 1..])
  {
    assert keys[i..] == [keys[i]] + keys[i + 1..];
    FlatHead(rows, keys[i], keys[i + 1..]);
  }

  /** What the first pass has built after `rows`. */
  ghost predicate Passed(keys: seq<GroupKey>, groups: map<GroupKey, seq<Attended>>, points: map<AttendanceId, int>,
                         rows: seq<Attended>, ledger: seq<Row>)
  {
    keys == KeysOf(rows) && Grouped(groups, rows) && PointsRead(points, rows, ledger)
  }

  lemma PointsReadAppend(points: map<AttendanceId, int>, rows: seq<Attended>, ledger: seq<Row>, a: Attended)
    requires PointsRead(points, rows, ledger)
    ensures PointsRead(points[a.id := Points(ledger, a.id)], rows + [a], ledger)
  {}

  lemma PassNext(keys: seq<GroupKey>, groups: map<GroupKey, seq<Attended>>, points: map<AttendanceId, int>,
                 rows: seq<Attended>, ledger: seq<Row>, a: Attended)
    requires Passed(keys, groups, points, rows, ledger)
    ensures Passed(if KeyOf(a) in groups then keys else keys + [KeyOf(a)],
                   groups[KeyOf(a) := (if KeyOf(a) in groups then groups[KeyOf(a)] else []) + [a]],
                   points[a.id := Points(ledger, a.id)], rows + [a], ledger)
  {
    KeysAppend(rows, a);
    GroupedAppend(groups, rows, a);
    PointsReadAppend(points, rows, ledger, a);
  }

  /** Get the group or start it at the end of the Map, then push. */
  method AddToGroup(keys: seq<GroupKey>, groups: map<GroupKey, seq<Attended>>, a: Attended)
      returns (moreKeys: seq<GroupKey>, moreGroups: map<GroupKey, seq<Attended>>)
    ensures moreKeys == if KeyOf(a) in groups then keys else keys + [KeyOf(a)]
    ensures moreGroups == groups[KeyOf(a) := (if KeyOf(a) in groups then groups[KeyOf(a)] else []) + [a]]
  {
    var k := KeyOf(a);
    moreKeys, moreGroups := keys, groups;
    if k !in moreGroups {
      moreKeys := moreKeys + [k];
      moreGroups := moreGroups[k := []];
    }
    moreGroups := moreGroups[k := moreGroups[k] + [a]];
  }

  class Script {
    var accounts: map<UserId, Account>
    var ledger: seq<Row>
    var attendances: seq<Attended>

    function Contents(): State
      reads this
    {
      State(Book(accounts, ledger), attendances)
    }

    /** One loser's transaction: reverse what was read as its credit, then delete the row. */
    method DeleteLoser(loser: Attended, points: int)
      requires points == Points(ledger, loser.id)
      modifies this
      ensures Contents() == Delete(old(Contents()), loser)
      ensures forall id :: Points(ledger, id) == Points(old(ledger), id)
    {
      ghost var before := Contents();
      if points > 0 {
        if loser.user !in accounts {
          accounts := accounts[loser.user := Account(ActiveAccount, 0)];
        }
        var account := accounts[loser.user];
        var newBalance := account.balance - points;
        accounts := accounts[loser.user := Account(account.status, newBalance)];
        ledger := ledger + [Row(Reverse(loser, points), newBalance)];
      }
      attendances := Remaining(attendances, [loser]);
      assert Contents() == Delete(before, loser);
      forall id ensures Points(ledger, id) == Points(before.book.rows, id) {
        DeleteKeepsPoints(before, loser, id);
      }
    }

    /** The first pass: groups by (user, day) in order of appearance, credited points of every row. */
    method GroupAll()
      returns (keys: seq<GroupKey>, groups: map<GroupKey, seq<Attended>>, points: map<AttendanceId, int>)
      ensures keys == KeysOf(attendances) && Grouped(groups, attendances) && PointsRead(points, attendances, ledger)
    {
      keys, groups, points := [], map[], map[];
      for i := 0 to |attendances|
        invariant Passed(keys, groups, points, attendances[..i], ledger)
      {
        var a := attendances[i];
        ghost var seen := attendances[..i];
        assert attendances[..i + 1] == seen + [a];
        PassNext(keys, groups, points, seen, ledger, a);
        keys, groups := AddToGroup(keys, groups, a);
        points := points[a.id := Points(ledger, a.id)];
      }
      assert attendances[..|attendances|] == attendances;
    }

    /** The whole run; without `apply` it only reports. */
    method Run(apply: bool)
      modifies this
      ensures Contents() == if apply then Cleaned(old(Contents())) else old(Contents())
    {
      var keys, groups, points := GroupAll();
      ghost var start := Contents();
      GroupsGiveOrder(start.rows);
      for i := 0 to |keys|
        invariant !apply ==> Contents() == start
        invariant apply ==> DeleteAll(Contents(), Flat(start.rows, keys[i..])) == Cleaned(start)
        invariant forall id :: Points(ledger, id) == Points(start.book.rows, id)
      {
        var k := keys[i];
        FlatNext(start.rows, keys, i);
        GroupLosers(groups, start.rows, k);
        if |groups[k]| > 1 && apply {
          var sorted := Sort(groups[k], Order());
          DeleteGroup(sorted[1..], points, start, Flat(start.rows, keys[i + 1..]));
        }
      }
      assert keys[|keys|..] == [];
    }

    method DeleteGroup(losers: seq<Attended>, points: map<AttendanceId, int>, ghost start: State,
                       ghost later: seq<Attended>)
      requires forall id :: Points(ledger, id) == Points(start.book.rows, id)
      requires PointsRead(points, start.rows, start.book.rows) && forall a :: a in losers ==> a in start.rows
      modifies this
      ensures Contents() == DeleteAll(old(Contents()), losers)
      ensures forall id :: Points(ledger, id) == Points(start.book.rows, id)
      ensures DeleteAll(Contents(), later) == DeleteAll(old(Contents()), losers + later)
    {
      ghost var before := Contents();
      for j := 0 to |losers|
        invariant DeleteAll(Contents(), losers[j..]) == DeleteAll(before, losers)
        invariant forall id :: Points(ledger, id) == Points(start.book.rows, id)
      {
        assert losers[j..][1..] == losers[j + 1..];
        DeleteLoser(losers[j], points[losers[j].id]);
      }
      assert losers[|losers|..] == [];
      DeleteAllConcat(before, losers, later);
    }
  }
}
