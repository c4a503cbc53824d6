/** Keyset paging of the ledger: newest first, following `nextCursor` while rows arrive. */
module Paging {
  import opened Domain
  import opened Seqs
  import opened Ledger

  datatype Txn = Txn(id: nat, createdAt: Instant, user: UserId, reason: Reason)

  datatype Page = Page(items: seq<Txn>, nextCursor: Option<nat>)

  /** The listing order, (createdAt, id) descending. */
  predicate NotOlder(a: Txn, b: Txn) {
    a.createdAt > b.createdAt || (a.createdAt == b.createdAt && a.id >= b.id)
  }

  function Order(): (Txn, Txn) -> bool { (a: Txn, b: Txn) => NotOlder(a, b) }

  function Id(): Txn -> nat { (t: Txn) => t.id }

  function AtOrBehind(c: Txn): Txn -> bool { (t: Txn) => NotOlder(c, t) }

  /** The runner's history is filtered by owner; the admin's by owner and reason, each optional. */
  function OfUser(user: UserId): Txn -> bool { (t: Txn) => t.user == user }

  function AdminFilter(user: Option<UserId>, reason: Option<Reason>): Txn -> bool {
    (t: Txn) => (user.Some? ==> t.user == user.value) && (reason.Some? ==> t.reason == reason.value)
  }

  function Clamp(limit: Option<int>, fallback: nat, most: nat): nat
    requires most > 0
  {
    var asked := if limit.Some? then limit.value else fallback;
    var atLeastOne := if asked < 1 then 1 else asked;
    if atLeastOne > most then most else atLeastOne
  }

  // ---------------------------------------------------------------- one request

  function FindTxn(table: seq<Txn>, id: nat): (t: Option<Txn>)
    ensures t.Some? ==> t.value in table && t.value.id == id
    ensures t.None? ==> forall x :: x in table ==> x.id != id
  {
    if |table| == 0 then None
    else if table[|table| - 1].id == id then Some(table[|table| - 1])
    else
      assert table == table[..|table| - 1] + [table[|table| - 1]];
      FindTxn(table[..|table| - 1], id)
  }

  function Listing(table: seq<Txn>, where: Txn -> bool): seq<Txn> { Sort(Filter(table, where), Order()) }

  /** The rows a query walks: all of them, or those at or behind the cursor's row, it itself skipped. */
  function Rows(table: seq<Txn>, where: Txn -> bool, cursor: Option<nat>): seq<Txn> {
    if cursor.None? then Listing(table, where)
    else
      var c := FindTxn(table, cursor.value);
      if c.None? then []
      else
        var from := Filter(Listing(table, where), AtOrBehind(c.value));
        if |from| == 0 then [] else from[1..]
  }

  /** One request: one row more than asked for is read, to know whether a page follows. */
  function PageOf(table: seq<Txn>, where: Txn -> bool, take: nat, cursor: Option<nat>): Page
    requires take > 0
  {
    var all := Rows(table, where, cursor);
    var rows := if |all| > take + 1 then all[..take + 1] else all;
    var next := if |rows| > take then Some(rows[take - 1].id) else None;
    Page(if |rows| > take then rows[..take] else rows, next)
  }

  /** The two endpoints. */
  datatype Request = History(owner: UserId, limit: Option<int>)
                   | AdminHistory(user: Option<UserId>, reason: Option<Reason>, limit: Option<int>)

  function WhereOf(request: Request): Txn -> bool {
    match request
    case History(owner, _) => OfUser(owner)
    case AdminHistory(user, reason, _) => AdminFilter(user, reason)
  }

  function TakeOf(request: Request): (take: nat)
    ensures take > 0
  {
    match request
    case History(_, limit) => Clamp(limit, 20, 100)
    case AdminHistory(_, _, limit) => Clamp(limit, 50, 200)
  }

  function Answer(request: Request, table: seq<Txn>, cursor: Option<nat>): Page {
    PageOf(table, WhereOf(request), TakeOf(request), cursor)
  }

  // ---------------------------------------------------------------- following the cursor

  /** A client that asks until `nextCursor` is null; `tables[i]` is the table at request `i`. */
  function Follow(tables: seq<seq<Txn>>, where: Txn -> bool, take: nat, cursor: Option<nat>): (pages: seq<Page>)
    requires |tables| > 0 && take > 0
    ensures 0 < |pages| <= |tables|
  {
    var page := PageOf(tables[0], where, take, cursor);
    if page.nextCursor.None? || |tables| == 1 then [page]
    else [page] + Follow(tables[1..], where, take, page.nextCursor)
  }

  function Items(pages: seq<Page>): seq<Txn> {
    if |pages| == 0 then [] else pages[0].items + Items(pages[1..])
  }

  /** The pages needed for `n` rows, one after the other. */
  function Requests(n: nat, take: nat): nat
    requires take > 0
  {
    if n <= take then 1 else 1 + Requests(n - take, take)
  }

  lemma MulMonotone(a: nat, b: nat, d: nat)
    requires a <= b
    ensures a * d <= b * d
  {}

  lemma DivUnique(x: nat, d: nat, q: nat, r: nat)
    requires d > 0 && x == q * d + r && r < d
    ensures x / d == q
  {
    var p, s := x / d, x % d;
    assert x == p * d + s;
    if p < q {
      MulMonotone(p + 1, q, d);
    } else if p > q {
      MulMonotone(q + 1, p, d);
    }
  }

  lemma DivStep(x: nat, d: nat)
    requires d > 0
    ensures (x + d) / d == x / d + 1
  {
    var q, r := x / d, x % d;
    assert x + d == (q + 1) * d + r;
    DivUnique(x + d, d, q + 1, r);
  }

  lemma SmallDiv(x: nat, d: nat)
    requires x < d
    ensures x / d == 0
  {}

  /** That is max(1, n / take rounded up). */
  lemma {:induction false} RequestsIsCeiling(n: nat, take: nat)
    requires take > 0
    ensures Requests(n, take) == if n == 0 then 1 else (n + take - 1) / take
    decreases n
  {
    if n > take {
      RequestsIsCeiling(n - take, take);
      DivStep(n - 1, take);
    } else if n > 0 {
      DivStep(n - 1, take);
      SmallDiv(n - 1, take);
    }
  }

  // ---------------------------------------------------------------- the order is strict

  predicate Ahead(a: Txn, b: Txn) {
    a.createdAt > b.createdAt || (a.createdAt == b.createdAt && a.id > b.id)
  }

  /** Strictly newest first, so nothing is repeated. */
  ghost predicate Descending(rows: seq<Txn>) {
    forall i, j :: 0 <= i < j < |rows| ==> Ahead(rows[i], rows[j])
  }

  lemma ListingDescends(table: seq<Txn>, where: Txn -> bool)
    requires Distinct(table, Id())
    ensures Descending(Listing(table, where))
    ensures forall t :: t in Listing(table, where) <==> t in table && where(t)
  {
    var rows := Listing(table, where);
    SortSorts(Filter(table, where), Order());
    FilterDistinct(table, where, Id());
    SortDistinct(Filter(table, where), Order(), Id());
    forall i, j | 0 <= i < j < |rows| ensures Ahead(rows[i], rows[j]) {
      assert Order()(rows[i], rows[j]) && Id()(rows[i]) != Id()(rows[j]);
    }
  }

  lemma FrontIsAhead(rows: seq<Txn>, k: nat, t: Txn)
    requires Descending(rows) && k < |rows|
    ensures t in rows[..k] ==> Ahead(t, rows[k])
    ensures t in rows[k..] ==> NotOlder(rows[k], t)
    ensures t in rows[k + 1..] ==> Ahead(rows[k], t)
  {
    if t in rows[k..] {
      var i :| 0 <= i < |rows| - k && rows[k..][i] == t;
      assert i == 0 || Ahead(rows[k], rows[k + i]);
    }
  }

  lemma FilterTail(front: seq<Txn>, tail: seq<Txn>, keep: Txn -> bool)
    requires (forall t :: t in front ==> !keep(t)) && (forall t :: t in tail ==> keep(t))
    ensures Filter(front + tail, keep) == tail
  {
    FilterConcat(front, tail, keep);
    FilterNone(front, keep);
    FilterAll(tail, keep);
  }

  /** In a descending list, the rows at or behind the `k`th are the tail from `k`. */
  lemma BehindIsTail(rows: seq<Txn>, k: nat)
    requires Descending(rows) && k < |rows|
    ensures Filter(rows, AtOrBehind(rows[k])) == rows[k..]
  {
    forall t
      ensures t in rows[..k] ==> !AtOrBehind(rows[k])(t)
      ensures t in rows[k..] ==> AtOrBehind(rows[k])(t)
    {
      FrontIsAhead(rows, k, t);
    }
    FilterTail(rows[..k], rows[k..], AtOrBehind(rows[k]));
    assert rows[..k] + rows[k..] == rows;
  }

  lemma OneTxnPerId(table: seq<Txn>, a: Txn, b: Txn)
    requires Distinct(table, Id()) && a in table && b in table && a.id == b.id
    ensures a == b
  {
    var i :| 0 <= i < |table| && table[i] == a;
    var j :| 0 <= j < |table| && table[j] == b;
    assert Id()(table[i]) == Id()(table[j]);
  }

  /** Following the id of a listed row continues behind that row. */
  lemma ContinuesBehind(table: seq<Txn>, where: Txn -> bool, c: Txn)
    requires Distinct(table, Id()) && c in table && where(c)
    ensures var from := Filter(Listing(table, where), AtOrBehind(c));
            |from| > 0 && Rows(table, where, Some(c.id)) == from[1..]
  {
    OneTxnPerId(table, c, FindTxn(table, c.id).value);
    assert c in Listing(table, where);
    assert c in Filter(Listing(table, where), AtOrBehind(c));
  }

  // ---------------------------------------------------------------- rows that arrive are newer

  /** `table` is `first` with rows appended since; those in the listing are newer than all in `first`. */
  ghost predicate GrownNewer(first: seq<Txn>, table: seq<Txn>, where: Txn -> bool) {
    && first <= table && Distinct(table, Id())
    && (forall j, r | |first| <= j < |table| && where(table[j]) && r in first && where(r) :: Ahead(table[j], r))
  }

  lemma FilterIgnores(first: seq<Txn>, extra: seq<Txn>, keep: Txn -> bool)
    requires forall t :: t in extra ==> !keep(t)
    ensures Filter(first + extra, keep) == Filter(first, keep)
  {
    FilterConcat(first, extra, keep);
    FilterNone(extra, keep);
  }

  function Both(where: Txn -> bool, c: Txn): Txn -> bool { (t: Txn) => where(t) && NotOlder(c, t) }

  lemma BehindUnsorted(table: seq<Txn>, where: Txn -> bool, c: Txn)
    ensures Filter(Listing(table, where), AtOrBehind(c)) == Sort(Filter(table, Both(where, c)), Order())
  {
    FilterTwice(table, where, AtOrBehind(c), Both(where, c));
    SortFilter(Filter(table, where), AtOrBehind(c), Order());
  }

  lemma NewRowsIgnored(first: seq<Txn>, extra: seq<Txn>, where: Txn -> bool, c: Txn)
    requires forall j | 0 <= j < |extra| && where(extra[j]) :: Ahead(extra[j], c)
    ensures Filter(Listing(first + extra, where), AtOrBehind(c)) == Filter(Listing(first, where), AtOrBehind(c))
  {
    BehindUnsorted(first + extra, where, c);
    BehindUnsorted(first, where, c);
    FilterIgnores(first, extra, Both(where, c));
  }

  lemma SameBehind(first: seq<Txn>, table: seq<Txn>, where: Txn -> bool, c: Txn)
    requires GrownNewer(first, table, where) && c in first && where(c)
    ensures Filter(Listing(table, where), AtOrBehind(c)) == Filter(Listing(first, where), AtOrBehind(c))
  {
    var extra := table[|first|..];
    forall j | 0 <= j < |extra| && where(extra[j]) ensures Ahead(extra[j], c) {
      assert extra[j] == table[|first| + j];
    }
    assert table == first + extra;
    NewRowsIgnored(first, extra, where, c);
  }

  /** The rows behind a row of the first listing are the same at every later request. */
  lemma TailIsStable(first: seq<Txn>, table: seq<Txn>, where: Txn -> bool, k: nat)
    requires GrownNewer(first, table, where) && Distinct(first, Id()) && k < |Listing(first, where)|
    ensures Rows(table, where, Some(Listing(first, where)[k].id)) == Listing(first, where)[k + 1..]
  {
    var listing := Listing(first, where);
    ListingDescends(first, where);
    BehindIsTail(listing, k);
    assert listing[k] in listing;
    ContinuesBehind(table, where, listing[k]);
    SameBehind(first, table, where, listing[k]);
  }

  /** One page of the `left` rows. */
  lemma OnePage(table: seq<Txn>, where: Txn -> bool, take: nat, cursor: Option<nat>, left: seq<Txn>)
    requires take > 0 && Rows(table, where, cursor) == left
    ensures var page := PageOf(table, where, take, cursor);
            && (|left| > take ==> page == Page(left[..take], Some(left[take - 1].id)))
            && (|left| <= take ==> page == Page(left, None))
  {
    if |left| > take {
      assert left[..take + 1][..take] == left[..take];
    }
  }

  lemma ItemsFirst(page: Page, rest: seq<Page>)
    ensures Items([page] + rest) == page.items + Items(rest)
  {
    assert ([page] + rest)[1..] == rest;
  }

  /** Continuing behind any row of `left` gives the rest of `left`. */
  ghost predicate Serves(table: seq<Txn>, where: Txn -> bool, left: seq<Txn>) {
    forall k {:trigger Rows(table, where, Some(left[k].id))} | 0 <= k < |left| ::
      Rows(table, where, Some(left[k].id)) == left[k + 1..]
  }

  lemma ServesRest(table: seq<Txn>, where: Txn -> bool, left: seq<Txn>, n: nat)
    requires Serves(table, where, left) && 0 < n <= |left|
    ensures Serves(table, where, left[n..]) && Rows(table, where, Some(left[n - 1].id)) == left[n..]
  {
    forall k | 0 <= k < |left[n..]| ensures Rows(table, where, Some(left[n..][k].id)) == left[n..][k + 1..] {
      assert left[n..][k] == left[n + k] && left[n..][k + 1..] == left[n + k + 1..];
      assert Rows(table, where, Some(left[n + k].id)) == left[n + k + 1..];
    }
  }

  ghost predicate AllServe(tables: seq<seq<Txn>>, where: Txn -> bool, left: seq<Txn>)
    decreases |tables|
  {
    |tables| > 0 ==> Serves(tables[0], where, left) && AllServe(tables[1..], where, left)
  }

  lemma {:induction false} AllServeRest(tables: seq<seq<Txn>>, where: Txn -> bool, left: seq<Txn>, n: nat)
    requires AllServe(tables, where, left) && 0 < n <= |left|
    ensures AllServe(tables, where, left[n..])
    decreases |tables|
  {
    if |tables| > 0 {
      ServesRest(tables[0], where, left, n);
      AllServeRest(tables[1..], where, left, n);
    }
  }

  lemma PageThenRest(page: Page, rest: seq<Page>, left: seq<Txn>, take: nat)
    requires take <= |left| && page.items == left[..take] && Items(rest) == left[take..]
    ensures Items([page] + rest) == left
  {
    ItemsFirst(page, rest);
    assert left[..take] + left[take..] == left;
  }

  lemma FollowStep(tables: seq<seq<Txn>>, where: Txn -> bool, take: nat, cursor: Option<nat>, left: seq<Txn>)
    requires 0 < take < |left| && |tables| > 1 && Rows(tables[0], where, cursor) == left
    requires var rest := Follow(tables[1..], where, take, Some(left[take - 1].id));
             && |rest| == Requests(|left| - take, take)
             && rest[|rest| - 1].nextCursor.None? && Items(rest) == left[take..]
    ensures var pages := Follow(tables, where, take, cursor);
            && |pages| == Requests(|left|, take)
            && pages[|pages| - 1].nextCursor.None?
            && Items(pages) == left
  {
    OnePage(tables[0], where, take, cursor, left);
    PageThenRest(PageOf(tables[0], where, take, cursor), Follow(tables[1..], where, take, Some(left[take - 1].id)),
                 left, take);
  }

  lemma FollowEnd(tables: seq<seq<Txn>>, where: Txn -> bool, take: nat, cursor: Option<nat>, left: seq<Txn>)
    requires take > 0 && |tables| > 0 && |left| <= take && Rows(tables[0], where, cursor) == left
    ensures Follow(tables, where, take, cursor) == [Page(left, None)]
    ensures Items(Follow(tables, where, take, cursor)) == left
  {
    OnePage(tables[0], where, take, cursor, left);
    var page := PageOf(tables[0], where, take, cursor);
    ItemsFirst(page, []);
    assert [page] + [] == [page] && left + [] == left;
  }

  /** Tables that serve the rows left hand over exactly those rows. */
  lemma {:induction false} FollowLeft(tables: seq<seq<Txn>>, where: Txn -> bool, take: nat, cursor: Option<nat>,
                                      left: seq<Txn>)
    requires take > 0 && |tables| >= Requests(|left|, take) && AllServe(tables[1..], where, left)
    requires Rows(tables[0], where, cursor) == left
    ensures var pages := Follow(tables, where, take, cursor);
            && |pages| == Requests(|left|, take)
            && pages[|pages| - 1].nextCursor.None?
            && Items(pages) == left
    decreases |tables|
  {
    if |left| > take {
      ServesRest(tables[1], where, left, take);
      AllServeRest(tables[1..], where, left, take);
      FollowLeft(tables[1..], where, take, Some(left[take - 1].id), left[take..]);
      FollowStep(tables, where, take, cursor, left);
    } else {
      FollowEnd(tables, where, take, cursor, left);
    }
  }

  lemma GrownServes(first: seq<Txn>, table: seq<Txn>, where: Txn -> bool)
    requires GrownNewer(first, table, where) && Distinct(first, Id())
    ensures Serves(table, where, Listing(first, where))
  {
    forall k | 0 <= k < |Listing(first, where)|
      ensures Rows(table, where, Some(Listing(first, where)[k].id)) == Listing(first, where)[k + 1..]
    {
      TailIsStable(first, table, where, k);
    }
  }

  ghost predicate AllGrownNewer(tables: seq<seq<Txn>>, where: Txn -> bool) {
    |tables| > 0 && forall i :: 0 <= i < |tables| ==> GrownNewer(tables[0], tables[i], where)
  }

  lemma {:induction false} GrownAllServe(first: seq<Txn>, tables: seq<seq<Txn>>, where: Txn -> bool)
    requires Distinct(first, Id()) && forall i :: 0 <= i < |tables| ==> GrownNewer(first, tables[i], where)
    ensures AllServe(tables, where, Listing(first, where))
    decreases |tables|
  {
    if |tables| > 0 {
      GrownServes(first, tables[0], where);
      GrownAllServe(first, tables[1..], where);
    }
  }

  /** Following the cursor to null lists every transaction present at the first request exactly once, in
      order, in max(1, n / take rounded up) requests, whatever newer rows arrive meanwhile. */
  lemma PagingIsComplete(tables: seq<seq<Txn>>, where: Txn -> bool, take: nat)
    requires take > 0 && AllGrownNewer(tables, where)
    requires |tables| >= Requests(|Filter(tables[0], where)|, take)
    ensures var pages := Follow(tables, where, take, None);
            && |pages| == Requests(|Filter(tables[0], where)|, take)
            && pages[|pages| - 1].nextCursor.None?
            && Descending(Items(pages))
            && (forall t :: t in Items(pages) <==> t in tables[0] && where(t))
  {
    var listing := Listing(tables[0], where);
    assert GrownNewer(tables[0], tables[0], where);
    GrownAllServe(tables[0], tables[1..], where);
    FollowLeft(tables, where, take, None, listing);
    ListingDescends(tables[0], where);
  }

  /** Page `i` of a walk is the endpoint's answer to the cursor before it. */
  ghost predicate PageAsked(tables: seq<seq<Txn>>, where: Txn -> bool, take: nat, cursor: Option<nat>,
                            pages: seq<Page>, i: nat)
    requires i < |pages| <= |tables| && take > 0
  {
    && (i > 0 ==> pages[i - 1].nextCursor.Some?)
    && pages[i] == PageOf(tables[i], where, take, if i == 0 then cursor else pages[i - 1].nextCursor)
  }

  lemma AskedBehind(tables: seq<seq<Txn>>, where: Txn -> bool, take: nat, cursor: Option<nat>, page: Page,
                    rest: seq<Page>, i: nat)
    requires take > 0 && page.nextCursor.Some? && 0 < i <= |rest| < |tables|
    requires PageAsked(tables[1..], where, take, page.nextCursor, rest, i - 1)
    ensures PageAsked(tables, where, take, cursor, [page] + rest, i)
  {
    assert tables[1..][i - 1] == tables[i];
  }

  lemma {:induction false} FollowAsks(tables: seq<seq<Txn>>, where: Txn -> bool, take: nat, cursor: Option<nat>, i: nat)
    requires take > 0 && |tables| > 0 && i < |Follow(tables, where, take, cursor)|
    ensures PageAsked(tables, where, take, cursor, Follow(tables, where, take, cursor), i)
    decreases i
  {
    if i > 0 {
      var next := PageOf(tables[0], where, take, cursor).nextCursor;
      FollowAsks(tables[1..], where, take, next, i - 1);
      AskedBehind(tables, where, take, cursor, PageOf(tables[0], where, take, cursor),
                  Follow(tables[1..], where, take, next), i);
    }
  }

  /** For both endpoints: the walk asks the endpoint for every page and lists everything once. */
  lemma EndpointIsComplete(request: Request, tables: seq<seq<Txn>>)
    requires AllGrownNewer(tables, WhereOf(request))
    requires |tables| >= Requests(|Filter(tables[0], WhereOf(request))|, TakeOf(request))
    ensures var pages := Follow(tables, WhereOf(request), TakeOf(request), None);
            && (forall i :: 0 < i < |pages| ==> pages[i] == Answer(request, tables[i], pages[i - 1].nextCursor))
            && pages[0] == Answer(request, tables[0], None) && pages[|pages| - 1].nextCursor.None?
            && (forall t :: t in Items(pages) <==> t in tables[0] && WhereOf(request)(t)) && Descending(Items(pages))
  {
    var where, take := WhereOf(request), TakeOf(request);
    var pages := Follow(tables, where, take, None);
    PagingIsComplete(tables, where, take);
    FollowAsks(tables, where, take, None, 0);
    forall i | 0 < i < |pages| ensures pages[i] == Answer(request, tables[i], pages[i - 1].nextCursor) {
      FollowAsks(tables, where, take, None, i);
    }
  }

  // ---------------------------------------------------------------- rows that arrive anywhere

  /** Strictly behind the cursor's row; with no cursor, everything. */
  ghost predicate InRange(t: Txn, cursor: Option<Txn>) { cursor.Some? ==> Ahead(cursor.value, t) }

  function CursorId(cursor: Option<Txn>): Option<nat> { if cursor.Some? then Some(cursor.value.id) else None }

  lemma InBackPart(listing: seq<Txn>, k: nat, t: Txn)
    requires Descending(listing) && k < |listing|
    ensures t in listing[k + 1..] <==> t in listing && Ahead(listing[k], t)
  {
    FrontIsAhead(listing, k, t);
    if t in listing && Ahead(listing[k], t) {
      var i :| 0 <= i < |listing| && listing[i] == t;
      if i > k {
        assert listing[k + 1..][i - k - 1] == t;
      }
    }
  }

  lemma BackPart(listing: seq<Txn>, k: nat)
    requires Descending(listing) && k < |listing|
    ensures Descending(listing[k + 1..])
    ensures forall t :: t in listing[k + 1..] <==> t in listing && Ahead(listing[k], t)
  {
    forall t ensures t in listing[k + 1..] <==> t in listing && Ahead(listing[k], t) {
      InBackPart(listing, k, t);
    }
  }

  lemma RowsInRange(table: seq<Txn>, where: Txn -> bool, cursor: Option<Txn>)
    requires Distinct(table, Id()) && (cursor.Some? ==> cursor.value in table && where(cursor.value))
    ensures var rows := Rows(table, where, CursorId(cursor));
            Descending(rows) && forall t :: t in rows <==> t in table && where(t) && InRange(t, cursor)
  {
    ListingDescends(table, where);
    if cursor.Some? {
      var listing := Listing(table, where);
      var k :| 0 <= k < |listing| && listing[k] == cursor.value;
      BehindIsTail(listing, k);
      ContinuesBehind(table, where, cursor.value);
      assert listing[k..][1..] == listing[k + 1..];
      BackPart(listing, k);
    }
  }

  ghost predicate Includes(later: seq<Txn>, earlier: seq<Txn>) { forall t :: t in earlier ==> t in later }

  /** Rows are only added between requests, anywhere in the order. */
  ghost predicate Growing(tables: seq<seq<Txn>>) {
    && (forall i :: 0 <= i < |tables| ==> Distinct(tables[i], Id()))
    && (forall i, j | 0 <= i < j < |tables| :: Includes(tables[j], tables[i]))
  }

  /** Every matching row of the table behind the cursor is among the items. */
  ghost predicate AllListed(table: seq<Txn>, where: Txn -> bool, cursor: Option<Txn>, items: seq<Txn>) {
    forall t :: t in table && where(t) && InRange(t, cursor) ==> t in items
  }

  /** Strictly newest first, all behind the cursor, and, once `nextCursor` is null, all of the table. */
  ghost predicate GoodWalk(table: seq<Txn>, where: Txn -> bool, cursor: Option<Txn>, pages: seq<Page>)
    requires |pages| > 0
  {
    && Descending(Items(pages)) && (forall t :: t in Items(pages) ==> InRange(t, cursor))
    && (pages[|pages| - 1].nextCursor.None? ==> AllListed(table, where, cursor, Items(pages)))
  }

  lemma AllJoined(table: seq<Txn>, next: seq<Txn>, where: Txn -> bool, cursor: Option<Txn>, all: seq<Txn>, take: nat,
                  rest: seq<Txn>)
    requires 0 < take <= |all| && Descending(all) && Includes(next, table)
    requires forall t :: t in table && where(t) && InRange(t, cursor) ==> t in all
    requires AllListed(next, where, Some(all[take - 1]), rest)
    ensures AllListed(table, where, cursor, all[..take] + rest)
  {
    forall t | t in table && where(t) && InRange(t, cursor) ensures t in all[..take] + rest {
      var i :| 0 <= i < |all| && all[i] == t;
      if i < take {
        assert all[..take][i] == t;
      } else {
        assert Ahead(all[take - 1], all[i]);
      }
    }
  }

  /** A page followed by rows strictly behind its last one. */
  lemma Join(all: seq<Txn>, take: nat, rest: seq<Txn>, cursor: Option<Txn>)
    requires 0 < take <= |all| && Descending(all) && Descending(rest)
    requires forall t :: t in rest ==> InRange(t, Some(all[take - 1]))
    requires forall t :: t in all ==> InRange(t, cursor)
    ensures Descending(all[..take] + rest)
    ensures forall t :: t in all[..take] + rest ==> InRange(t, cursor)
  {
    var joined := all[..take] + rest;
    assert all[take - 1] in all;
    forall i, j | 0 <= i < j < |joined| ensures Ahead(joined[i], joined[j]) {
      if i < take <= j {
        assert joined[j] in rest && (i == take - 1 || Ahead(all[i], all[take - 1]));
      }
    }
  }

  lemma WalkOn(table: seq<Txn>, next: seq<Txn>, where: Txn -> bool, cursor: Option<Txn>, all: seq<Txn>, take: nat,
               rest: seq<Page>)
    requires 0 < take < |all| && Descending(all) && Includes(next, table) && |rest| > 0
    requires forall t :: t in all <==> t in table && where(t) && InRange(t, cursor)
    requires GoodWalk(next, where, Some(all[take - 1]), rest)
    ensures GoodWalk(table, where, cursor, [Page(all[..take], Some(all[take - 1].id))] + rest)
  {
    ItemsFirst(Page(all[..take], Some(all[take - 1].id)), rest);
    Join(all, take, Items(rest), cursor);
    if rest[|rest| - 1].nextCursor.None? {
      AllJoined(table, next, where, cursor, all, take, Items(rest));
    }
  }

  lemma MorePages(tables: seq<seq<Txn>>, where: Txn -> bool, take: nat, cursor: Option<Txn>, all: seq<Txn>)
    requires |tables| > 1 && Includes(tables[1], tables[0])
    requires 0 < take < |all| && all == Rows(tables[0], where, CursorId(cursor)) && Descending(all)
    requires forall t :: t in all <==> t in tables[0] && where(t) && InRange(t, cursor)
    requires GoodWalk(tables[1], where, Some(all[take - 1]), Follow(tables[1..], where, take, Some(all[take - 1].id)))
    ensures GoodWalk(tables[0], where, cursor, Follow(tables, where, take, CursorId(cursor)))
  {
    OnePage(tables[0], where, take, CursorId(cursor), all);
    WalkOn(tables[0], tables[1], where, cursor, all, take, Follow(tables[1..], where, take, Some(all[take - 1].id)));
  }

  lemma OnePageWalk(page: Page, all: seq<Txn>, n: nat)
    requires n <= |all| && Descending(all) && page.items == all[..n]
    ensures Items([page]) == page.items && Descending(page.items) && forall t :: t in page.items ==> t in all
  {
    ItemsFirst(page, []);
    assert [page] + [] == [page] && page.items + [] == page.items;
  }

  lemma GrowingTail(tables: seq<seq<Txn>>)
    requires Growing(tables) && |tables| > 1
    ensures Growing(tables[1..]) && Includes(tables[1], tables[0])
  {}

  /** Even if rows turn up anywhere in the order, a walk (from the start, or behind any row) is strictly
      descending, so repeats nothing, and once `nextCursor` is null it has listed every matching row
      that was there at its first request. */
  lemma {:induction false} NothingSkippedOrRepeated(tables: seq<seq<Txn>>, where: Txn -> bool, take: nat,
                                                    cursor: Option<Txn>)
    requires take > 0 && |tables| > 0 && Growing(tables)
    requires cursor.Some? ==> cursor.value in tables[0] && where(cursor.value)
    ensures GoodWalk(tables[0], where, cursor, Follow(tables, where, take, CursorId(cursor)))
    decreases |tables|
  {
    RowsInRange(tables[0], where, cursor);
    var all := Rows(tables[0], where, CursorId(cursor));
    if |all| > take && |tables| > 1 {
      assert all[take - 1] in all;
      GrowingTail(tables);
      NothingSkippedOrRepeated(tables[1..], where, take, Some(all[take - 1]));
      MorePages(tables, where, take, cursor, all);
    } else {
      OnePage(tables[0], where, take, CursorId(cursor), all);
      OnePageWalk(PageOf(tables[0], where, take, CursorId(cursor)), all, if |all| > take then take else |all|);
    }
  }
}
