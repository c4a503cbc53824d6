/** The two listings of the ledger, spelled out: whose rows, how many to a page, and that a walk lists them all. */
module PagingRequests {
  import opened Domain
  import opened Seqs
  import opened Ledger
  import opened Paging

  /** The rows of a runner's own history: the runner's and nobody else's. */
  predicate InHistory(t: Txn, owner: UserId) { t.user == owner }

  /** The rows of the admin listing: those of the user and of the reason asked for, all without. */
  predicate InAdminListing(t: Txn, user: Option<UserId>, reason: Option<Reason>) {
    (user.None? || t.user == user.value) && (reason.None? || t.reason == reason.value)
  }

  /** Pages of a history hold 20 rows, or as many as asked for between 1 and 100; of the admin listing 50, or
      between 1 and 200. */
  lemma PageSizes(owner: UserId, user: Option<UserId>, reason: Option<Reason>, n: int)
    ensures TakeOf(History(owner, None)) == 20 && TakeOf(AdminHistory(user, reason, None)) == 50
    ensures n <= 1 ==> TakeOf(History(owner, Some(n))) == 1 && TakeOf(AdminHistory(user, reason, Some(n))) == 1
    ensures 1 <= n <= 100 ==> TakeOf(History(owner, Some(n))) == n
    ensures 1 <= n <= 200 ==> TakeOf(AdminHistory(user, reason, Some(n))) == n
    ensures n >= 100 ==> TakeOf(History(owner, Some(n))) == 100
    ensures n >= 200 ==> TakeOf(AdminHistory(user, reason, Some(n))) == 200
  {}

  /** What a request is about. */
  predicate Wanted(request: Request, t: Txn) {
    match request
    case History(owner, _) => InHistory(t, owner)
    case AdminHistory(user, reason, _) => InAdminListing(t, user, reason)
  }

  lemma WhereIsWanted(request: Request, t: Txn)
    ensures WhereOf(request)(t) <==> Wanted(request, t)
  {}

  /** Newer rows than every wanted row of the first request. */
  ghost predicate OnlyNewer(request: Request, first: seq<Txn>, table: seq<Txn>) {
    && first <= table && Distinct(table, Id())
    && (forall j, r | |first| <= j < |table| && Wanted(request, table[j]) && r in first && Wanted(request, r) ::
          table[j].createdAt > r.createdAt || (table[j].createdAt == r.createdAt && table[j].id > r.id))
  }

  /** A page that is not the last one is full. */
  lemma AnswerFits(request: Request, table: seq<Txn>, cursor: Option<nat>)
    ensures |Answer(request, table, cursor).items| <= TakeOf(request)
    ensures Answer(request, table, cursor).nextCursor.Some? ==>
              |Answer(request, table, cursor).items| == TakeOf(request)
  {}

  /** A cursor that names no row gets an empty last page. */
  lemma UnknownCursorIsEmpty(request: Request, table: seq<Txn>, cursor: nat)
    requires forall t :: t in table ==> t.id != cursor
    ensures Answer(request, table, Some(cursor)) == Page([], None)
  {}

  lemma NewerIsGrown(request: Request, tables: seq<seq<Txn>>)
    requires |tables| > 0 && forall i :: 0 <= i < |tables| ==> OnlyNewer(request, tables[0], tables[i])
    ensures AllGrownNewer(tables, WhereOf(request))
  {
    forall t ensures WhereOf(request)(t) <==> Wanted(request, t) {
      WhereIsWanted(request, t);
    }
    forall i | 0 <= i < |tables| ensures GrownNewer(tables[0], tables[i], WhereOf(request)) {
      assert OnlyNewer(request, tables[0], tables[i]);
    }
  }

  lemma PagesFit(request: Request, tables: seq<seq<Txn>>, i: nat)
    requires |tables| > 0 && i < |Follow(tables, WhereOf(request), TakeOf(request), None)|
    ensures var pages := Follow(tables, WhereOf(request), TakeOf(request), None);
            && |pages[i].items| <= TakeOf(request)
            && (i < |pages| - 1 ==> |pages[i].items| == TakeOf(request))
  {
    var where, take := WhereOf(request), TakeOf(request);
    var pages := Follow(tables, where, take, None);
    FollowAsks(tables, where, take, None, i);
    AnswerFits(request, tables[i], if i == 0 then None else pages[i - 1].nextCursor);
    if i < |pages| - 1 {
      FollowAsks(tables, where, take, None, i + 1);
    }
  }

  ghost predicate NewestFirst(items: seq<Txn>) {
    forall i, j :: 0 <= i < j < |items| ==>
      items[i].createdAt > items[j].createdAt
      || (items[i].createdAt == items[j].createdAt && items[i].id > items[j].id)
  }

  lemma DescendingIsNewestFirst(items: seq<Txn>)
    requires Descending(items)
    ensures NewestFirst(items)
  {
    forall i, j | 0 <= i < j < |items|
      ensures items[i].createdAt > items[j].createdAt
              || (items[i].createdAt == items[j].createdAt && items[i].id > items[j].id)
    {
      assert Ahead(items[i], items[j]);
    }
  }

  /** Following the cursors of either endpoint while newer rows arrive: every page is the endpoint's answer to the
      cursor before it, all are full but the last, which has no cursor, and together they list exactly the wanted
      rows of the first request, newest first. */
  lemma WalkListsTheWanted(request: Request, tables: seq<seq<Txn>>)
    requires |tables| > 0 && forall i :: 0 <= i < |tables| ==> OnlyNewer(request, tables[0], tables[i])
    requires |tables| >= Requests(|Filter(tables[0], WhereOf(request))|, TakeOf(request))
    ensures var pages := Follow(tables, WhereOf(request), TakeOf(request), None);
            && pages[0] == Answer(request, tables[0], None) && pages[|pages| - 1].nextCursor.None?
            && (forall i :: 0 < i < |pages| ==> pages[i] == Answer(request, tables[i], pages[i - 1].nextCursor))
            && (forall i :: 0 <= i < |pages| ==> |pages[i].items| <= TakeOf(request))
            && (forall i :: 0 <= i < |pages| - 1 ==> |pages[i].items| == TakeOf(request))
            && (forall t :: t in Items(pages) <==> t in tables[0] && Wanted(request, t)) && NewestFirst(Items(pages))
  {
    NewerIsGrown(request, tables);
    EndpointIsComplete(request, tables);
    var pages := Follow(tables, WhereOf(request), TakeOf(request), None);
    DescendingIsNewestFirst(Items(pages));
    forall t ensures t in Items(pages) <==> t in tables[0] && Wanted(request, t) {
      WhereIsWanted(request, t);
    }
    forall i | 0 <= i < |pages|
      ensures |pages[i].items| <= TakeOf(request)
      ensures i < |pages| - 1 ==> |pages[i].items| == TakeOf(request)
    {
      PagesFit(request, tables, i);
    }
  }
}
