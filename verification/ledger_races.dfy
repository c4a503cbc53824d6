/** Every interleaving of ledger writers whose key lookup and commit are separate steps. */
module LedgerRaces {
  import opened Domain
  import opened Ledger

  /** Writers that passed their key lookup and have not committed yet, beside the committed book. */
  datatype State = State(book: Book, pending: multiset<Posting>)

  datatype Step =
    | Lookup(posting: Posting)     // amount check and key lookup; a used key answers at once
    | Commit(posting: Posting)     // upsert, status check, increment, insert: commits or rolls back
    | SetStatus(user: UserId, status: AccountStatus)

  function Apply(s: State, step: Step): State {
    match step
    case Lookup(p) =>
      if p.amount > 0 && FindKey(s.book.rows, p.key).None? then s.(pending := s.pending + multiset{p}) else s
    case Commit(p) =>
      if p !in s.pending then s
      else if AccountOf(s.book, p.user).status != ActiveAccount || FindKey(s.book.rows, p.key).Some? then
        s.(pending := s.pending - multiset{p})
      else State(Append(s.book, p), s.pending - multiset{p})
    case SetStatus(u, status) =>
      s.(book := WithStatus(s.book, u, status))
  }

  function Run(s: State, steps: seq<Step>): State
    decreases |steps|
  {
    if |steps| == 0 then s else Run(Apply(s, steps[0]), steps[1..])
  }

  ghost predicate Sound(s: State) {
    Valid(s.book) && forall p :: p in s.pending ==> p.amount > 0
  }

  lemma ApplyKeepsSound(s: State, step: Step)
    requires Sound(s)
    ensures Sound(Apply(s, step))
    ensures s.book.rows <= Apply(s, step).book.rows
  {
    match step
    case Lookup(_) =>
    case Commit(p) =>
      if Apply(s, step).book != s.book {
        AppendKeepsValid(s.book, p);
      }
    case SetStatus(u, status) =>
      StatusKeepsValid(s.book, u, status);
  }

  /** Whatever writers race, balances are the sums of their rows, every balanceAfter is the
      prefix sum in commit order, keys stay unique, and no committed row is ever changed. */
  lemma {:induction false} EveryRunIsSound(s: State, steps: seq<Step>)
    requires Sound(s)
    ensures Sound(Run(s, steps))
    ensures s.book.rows <= Run(s, steps).book.rows
    decreases |steps|
  {
    if |steps| > 0 {
      ApplyKeepsSound(s, steps[0]);
      EveryRunIsSound(Apply(s, steps[0]), steps[1..]);
    }
  }

  lemma CommitWins(s: State, p: Posting)
    requires p in s.pending && !HasKey(s.book.rows, p.key) && AccountOf(s.book, p.user).status == ActiveAccount
    ensures Apply(s, Commit(p)) == State(Append(s.book, p), s.pending - multiset{p})
    ensures HasKey(Append(s.book, p).rows, p.key)
  {
    assert Append(s.book, p).rows[|s.book.rows|].posting.key == p.key;
  }

  lemma CommitLoses(s: State, q: Posting)
    requires q in s.pending && HasKey(s.book.rows, q.key)
    ensures Apply(s, Commit(q)) == s.(pending := s.pending - multiset{q})
  {}

  lemma BothLookedUp(s: State, p: Posting, q: Posting)
    requires p.key == q.key && p.amount > 0 && q.amount > 0 && !HasKey(s.book.rows, p.key)
    ensures Apply(Apply(s, Lookup(p)), Lookup(q)) == State(s.book, s.pending + multiset{p} + multiset{q})
  {}

  /** Two writers racing on one key (the same request twice, say): both pass the lookup, one
      row is written, the loser leaves balance and rows untouched. */
  lemma RaceWritesOnce(s: State, p: Posting, q: Posting)
    requires p.key == q.key && p.amount > 0 && q.amount > 0
    requires !HasKey(s.book.rows, p.key) && AccountOf(s.book, p.user).status == ActiveAccount
    ensures var both := Apply(Apply(s, Lookup(p)), Lookup(q));
            Apply(Apply(both, Commit(p)), Commit(q)) == State(Append(s.book, p), s.pending)
  {
    BothLookedUp(s, p, q);
    var both := State(s.book, s.pending + multiset{p} + multiset{q});
    CommitWins(both, p);
    assert both.pending - multiset{p} == s.pending + multiset{q};
    CommitLoses(State(Append(s.book, p), s.pending + multiset{q}), q);
    assert s.pending + multiset{q} - multiset{q} == s.pending;
  }

  /** A call with nothing else running is the run look-up, transaction. */
  lemma PostIsARun(b: Book, p: Posting)
    ensures Apply(Apply(State(b, multiset{}), Lookup(p)), Commit(p)) == State(Post(b, p).0, multiset{})
  {}
}
