/** The points ledger: the canonical writer and what every run of it keeps. */
module Ledger {
  import opened Domain

  datatype Direction = Credit | Debit

  datatype AccountStatus = ActiveAccount | BlockedAccount

  datatype Account = Account(status: AccountStatus, balance: int)

  datatype Reason =
    | SignupBonus
    | AttendanceRegular
    | AttendanceSpecial
    | ManualAdjustment
    | RewardRedemption
    | Reversal

  /** What a row is about (its reasonRef). */
  datatype Ref = NoRef | ToAttendance(attendance: AttendanceId) | ToReward(reward: nat) | ToRedemption(redemption: nat)

  /** Idempotency keys; each constructor is one textual prefix of the source. */
  datatype Key =
    | SignupKey(user: UserId)
    | AttendanceKey(attendance: AttendanceId)
    | RedemptionKey(request: nat)
    | RefundKey(redemption: nat)
    | ManualKey(request: nat)
    | DedupKey(attendance: AttendanceId)

  datatype Posting = Posting(user: UserId, direction: Direction, amount: int, reason: Reason, ref: Ref, key: Key)

  datatype Row = Row(posting: Posting, balanceAfter: int)

  /** Accounts by owner, and the rows in commit order; a row's id is its position. */
  datatype Book = Book(accounts: map<UserId, Account>, rows: seq<Row>)

  datatype PostError = InvalidAmount | AccountBlocked | DuplicateKey

  function Signed(p: Posting): int {
    if p.direction == Credit then p.amount else -p.amount
  }

  // ---------------------------------------------------------------- lookups and sums

  ghost predicate HasKey(rows: seq<Row>, key: Key) {
    exists i :: 0 <= i < |rows| && rows[i].posting.key == key
  }

  /** The row carrying `key`, if there is one. */
  function FindKey(rows: seq<Row>, key: Key): (at: Option<nat>)
    ensures at.Some? ==> at.value < |rows| && rows[at.value].posting.key == key
    ensures at.None? ==> !HasKey(rows, key)
  {
    if |rows| == 0 then None
    else if rows[|rows| - 1].posting.key == key then Some(|rows| - 1)
    else
      assert rows == rows[..|rows| - 1] + [rows[|rows| - 1]];
      FindKey(rows[..|rows| - 1], key)
  }

  /** Signed total of one user's rows. */
  function Total(rows: seq<Row>, user: UserId): int {
    if |rows| == 0 then 0
    else
      var last := rows[|rows| - 1].posting;
      Total(rows[..|rows| - 1], user) + (if last.user == user then Signed(last) else 0)
  }

  lemma TotalAppend(rows: seq<Row>, row: Row, user: UserId)
    ensures Total(rows + [row], user) == Total(rows, user)
            + (if row.posting.user == user then Signed(row.posting) else 0)
  {
    assert (rows + [row])[..|rows|] == rows;
  }

  /** A credit about this attendance, of one owner or of anybody. */
  predicate CreditsFor(p: Posting, owner: Option<UserId>, id: AttendanceId) {
    p.ref == ToAttendance(id) && p.direction == Credit && (owner.Some? ==> p.user == owner.value)
  }

  /** Their sum. */
  function CreditSum(rows: seq<Row>, owner: Option<UserId>, id: AttendanceId): int {
    if |rows| == 0 then 0
    else
      var p := rows[|rows| - 1].posting;
      CreditSum(rows[..|rows| - 1], owner, id) + (if CreditsFor(p, owner, id) then p.amount else 0)
  }

  lemma CreditSumAppend(rows: seq<Row>, row: Row, owner: Option<UserId>, id: AttendanceId)
    ensures CreditSum(rows + [row], owner, id) ==
            CreditSum(rows, owner, id) + (if CreditsFor(row.posting, owner, id) then row.posting.amount else 0)
  {
    assert (rows + [row])[..|rows|] == rows;
  }

  function AccountOf(b: Book, user: UserId): Account {
    if user in b.accounts then b.accounts[user] else Account(ActiveAccount, 0)
  }

  /** What the balance endpoint reports: 0 for a user without an account. */
  function Balance(b: Book, user: UserId): int { AccountOf(b, user).balance }

  // ---------------------------------------------------------------- the invariant

  ghost predicate KeysUnique(rows: seq<Row>) {
    forall i, j :: 0 <= i < j < |rows| ==> rows[i].posting.key != rows[j].posting.key
  }

  ghost predicate PrefixSums(rows: seq<Row>) {
    forall i {:trigger rows[i].balanceAfter} :: 0 <= i < |rows| ==>
      rows[i].balanceAfter == Total(rows[..i + 1], rows[i].posting.user)
  }

  /** Amounts are positive and every row belongs to an account. */
  ghost predicate RowsOwned(b: Book) {
    forall i :: 0 <= i < |b.rows| ==> b.rows[i].posting.amount > 0 && b.rows[i].posting.user in b.accounts
  }

  ghost predicate Valid(b: Book) {
    && KeysUnique(b.rows)
    && PrefixSums(b.rows)
    && RowsOwned(b)
    && (forall u :: Balance(b, u) == Total(b.rows, u))
  }

  // ---------------------------------------------------------------- posting

  /** The committed effect of a posting whose key is new and whose account is active. */
  function Append(b: Book, p: Posting): Book {
    var balance := Balance(b, p.user) + Signed(p);
    Book(b.accounts[p.user := Account(AccountOf(b, p.user).status, balance)], b.rows + [Row(p, balance)])
  }

  /** One call of the ledger writer run as one transaction. */
  function Post(b: Book, p: Posting): (Book, Result<Row, PostError>) {
    if p.amount <= 0 then (b, Err(InvalidAmount))
    else
      var at := FindKey(b.rows, p.key);
      if at.Some? then (b, Ok(b.rows[at.value]))
      else if AccountOf(b, p.user).status != ActiveAccount then (b, Err(AccountBlocked))
      else
        var after := Append(b, p);
        (after, Ok(after.rows[|b.rows|]))
  }

  lemma PrefixTotal(rows: seq<Row>, row: Row)
    requires PrefixSums(rows)
    requires row.balanceAfter == Total(rows, row.posting.user) + Signed(row.posting)
    ensures PrefixSums(rows + [row])
  {
    var longer := rows + [row];
    TotalAppend(rows, row, row.posting.user);
    assert longer[..|rows| + 1] == longer;
    forall i | 0 <= i < |rows| ensures longer[i].balanceAfter == Total(longer[..i + 1], longer[i].posting.user) {
      assert longer[..i + 1] == rows[..i + 1];
    }
  }

  lemma KeysStayUnique(rows: seq<Row>, row: Row)
    requires KeysUnique(rows) && !HasKey(rows, row.posting.key)
    ensures KeysUnique(rows + [row])
  {
    forall i | 0 <= i < |rows| ensures rows[i].posting.key != row.posting.key {
      assert !(0 <= i < |rows| && rows[i].posting.key == row.posting.key);
    }
  }

  lemma BalancesFollow(b: Book, p: Posting)
    requires forall u :: Balance(b, u) == Total(b.rows, u)
    ensures forall u :: Balance(Append(b, p), u) == Balance(b, u) + (if u == p.user then Signed(p) else 0)
    ensures forall u :: Balance(Append(b, p), u) == Total(Append(b, p).rows, u)
  {
    forall u ensures Total(Append(b, p).rows, u) == Total(b.rows, u) + (if u == p.user then Signed(p) else 0) {
      TotalAppend(b.rows, Append(b, p).rows[|b.rows|], u);
    }
  }

  lemma RowsStayOwned(b: Book, p: Posting)
    requires p.amount > 0 && RowsOwned(b)
    ensures RowsOwned(Append(b, p))
  {
    var after := Append(b, p);
    forall i | 0 <= i < |after.rows|
      ensures after.rows[i].posting.amount > 0 && after.rows[i].posting.user in after.accounts
    {
      if i < |b.rows| {
        assert after.rows[i] == b.rows[i];
      }
    }
  }

  lemma AppendKeepsValid(b: Book, p: Posting)
    requires Valid(b) && p.amount > 0 && !HasKey(b.rows, p.key)
    ensures Valid(Append(b, p))
    ensures forall u :: Balance(Append(b, p), u) == Balance(b, u) + (if u == p.user then Signed(p) else 0)
  {
    var row := Row(p, Balance(b, p.user) + Signed(p));
    assert Balance(b, p.user) == Total(b.rows, p.user);
    assert Append(b, p).rows == b.rows + [row];
    PrefixTotal(b.rows, row);
    KeysStayUnique(b.rows, row);
    RowsStayOwned(b, p);
    BalancesFollow(b, p);
  }

  lemma PostKeepsValid(b: Book, p: Posting)
    requires Valid(b)
    ensures Valid(Post(b, p).0)
    ensures b.rows <= Post(b, p).0.rows
    ensures Post(b, p).1.Ok? ==> Post(b, p).1.value.posting.key == p.key && HasKey(Post(b, p).0.rows, p.key)
  {
    var after := Post(b, p).0;
    if after != b {
      AppendKeepsValid(b, p);
      assert after.rows[|b.rows|].posting.key == p.key;
    }
  }

  lemma {:induction false} FindKeyAt(rows: seq<Row>, key: Key, i: nat)
    requires KeysUnique(rows) && i < |rows| && rows[i].posting.key == key
    ensures FindKey(rows, key) == Some(i)
  {
    assert HasKey(rows, key);
  }

  /** An admin blocks or unblocks an existing account. */
  function WithStatus(b: Book, user: UserId, status: AccountStatus): Book {
    if user in b.accounts then b.(accounts := b.accounts[user := Account(status, Balance(b, user))]) else b
  }

  lemma StatusKeepsValid(b: Book, user: UserId, status: AccountStatus)
    requires Valid(b)
    ensures Valid(WithStatus(b, user, status))
    ensures forall u :: Balance(WithStatus(b, user, status), u) == Balance(b, u)
  {
    var after := WithStatus(b, user, status);
    forall u ensures Balance(after, u) == Balance(b, u) {}
  }

  /** Idempotency over time: whatever was appended in between, posting a used key again
      changes nothing and answers with the row the first call wrote. */
  lemma RepostReturnsOriginal(b: Book, p: Posting, later: Book, q: Posting)
    requires Valid(b) && Valid(later)
    requires Post(b, p).1.Ok? && Post(b, p).0.rows <= later.rows
    requires q.key == p.key && q.amount > 0
    ensures Post(later, q) == (later, Post(b, p).1)
  {
    var (first, answer) := Post(b, p);
    PostKeepsValid(b, p);
    var at := FindKey(first.rows, p.key).value;
    assert later.rows[at] == first.rows[at];
    FindKeyAt(later.rows, q.key, at);
    FindKeyAt(first.rows, p.key, at);
    if FindKey(b.rows, p.key).Some? {
      assert first == b;
    } else {
      FindKeyAt(first.rows, p.key, |b.rows|);
    }
  }

  // ---------------------------------------------------------------- the writer as an object

  /** The service object: rows and balances updated in place inside a transaction that
      increments first and inserts last, and is rolled back when the insert fails. */
  class PointsService {
    var accounts: map<UserId, Account>
    var rows: seq<Row>

    constructor ()
      ensures Contents() == Book(map[], []) && Valid(Contents())
    {
      accounts, rows := map[], [];
    }

    function Contents(): Book
      reads this
    {
      Book(accounts, rows)
    }

    method PostPoints(p: Posting) returns (r: Result<Row, PostError>)
      modifies this
      ensures (Contents(), r) == Post(old(Contents()), p)
    {
      if p.amount <= 0 {
        return Err(InvalidAmount);
      }
      var existing := FindKey(rows, p.key);
      if existing.Some? {
        return Ok(rows[existing.value]);
      }
      var savedAccounts, savedRows := accounts, rows;
      if p.user !in accounts {
        accounts := accounts[p.user := Account(ActiveAccount, 0)];
      }
      var account := accounts[p.user];
      if account.status != ActiveAccount {
        accounts, rows := savedAccounts, savedRows;
        return Err(AccountBlocked);
      }
      r := IncrementAndInsert(p);
      assert Contents() == Append(old(Contents()), p) by {
        assert accounts == savedAccounts[p.user := accounts[p.user]];
      }
    }

    /** The tail of the transaction: increment, then insert; a used key rolls both back. */
    method IncrementAndInsert(p: Posting) returns (r: Result<Row, PostError>)
      requires p.user in accounts
      modifies this
      ensures HasKey(old(rows), p.key) ==> Contents() == old(Contents()) && r == Err(DuplicateKey)
      ensures !HasKey(old(rows), p.key) ==>
                Contents() == Append(old(Contents()), p) && r == Ok(rows[|old(rows)|])
    {
      var savedAccounts := accounts;
      var account := accounts[p.user];
      var balance := account.balance + Signed(p);
      accounts := accounts[p.user := Account(account.status, balance)];
      var clash := FindKey(rows, p.key);
      if clash.Some? {
        accounts := savedAccounts;
        return Err(DuplicateKey);
      }
      var row := Row(p, balance);
      rows := rows + [row];
      r := Ok(row);
    }
  }
}
