/**
 ACME anti-replay nonces (RFC 8555, section 6.5): one table, three statements.

 Each statement is atomic in the database, so an interleaving of requests is a sequence of
 statements; the clock shared by those statements never goes back.
 */
module Nonces {
  import opened Runs

  /** Seconds for which a nonce may be spent. */
  const TTL := 3600

  /** Expiry time by nonce value. */
  type Rows = map<string, int>

  datatype Statement =
    | Issue(value: string, now: int)
    | Spend(value: string, now: int)
    | Prune(now: int)

  type History = Run<Statement>

  // ---- What each statement does ----

  /** Inserting a value that is already there does nothing. */
  function AfterIssue(rows: Rows, value: string, now: int): Rows {
    if value in rows then rows else rows[value := now + TTL]
  }

  predicate Spendable(rows: Rows, value: string, now: int) {
    value in rows && rows[value] > now
  }

  function AfterSpend(rows: Rows, value: string, now: int): Rows {
    if Spendable(rows, value, now) then rows - {value} else rows
  }

  function AfterPrune(rows: Rows, before: int): Rows {
    map v | v in rows && !(rows[v] < before) :: rows[v]
  }

  function Apply(rows: Rows, statement: Statement): Rows {
    match statement
    case Issue(value, now) => AfterIssue(rows, value, now)
    case Spend(value, now) => AfterSpend(rows, value, now)
    case Prune(now) => AfterPrune(rows, now)
  }

  function State(h: History): Rows {
    match h
    case Start => map[]
    case Then(past, statement) => Apply(State(past), statement)
  }

  class NonceTable {
    var rows: Rows

    constructor ()
      ensures rows == map[]
    {
      rows := map[];
    }

    method IssueNonce(value: string, now: int, up: bool) returns (ok: bool)
      modifies this
      ensures ok == up && rows == if up then AfterIssue(old(rows), value, now) else old(rows)
      ensures rows == if up && value !in old(rows) then old(rows)[value := now + 3600] else old(rows)
    {
      if up && value !in rows {
        rows := rows[value := now + TTL];
      }
      return up;
    }

    /** The delete is the check: it removes the one row it finds, and finding it is success. */
    method SpendNonce(value: string, now: int, up: bool) returns (ok: bool)
      modifies this
      ensures ok <==> up && value != "" && Spendable(old(rows), value, now)
      ensures ok <==> up && value != "" && value in old(rows) && now < old(rows)[value]
      ensures rows == if ok then old(rows) - {value} else old(rows)
    {
      if value == "" || !up {
        return false;
      }
      var found := set v | v in rows && v == value && rows[v] > now;
      assert found == if Spendable(rows, value, now) then {value} else {};
      rows := rows - found;
      return |found| > 0;
    }

    method PruneNonces(before: int) returns (removed: nat)
      modifies this
      ensures rows == AfterPrune(old(rows), before)
      ensures forall v :: v in rows <==> v in old(rows) && old(rows)[v] >= before
      ensures forall v :: v in rows ==> rows[v] == old(rows)[v]
      ensures removed == |set v | v in old(rows) && old(rows)[v] < before|
    {
      var expired := set v | v in rows && rows[v] < before;
      var kept := map v | v in rows && v !in expired :: rows[v];
      rows := kept;
      return |expired|;
    }
  }

  // ---- Single use, whatever the interleaving ----

  /** How often the value was really inserted: an issue that met a stored value inserts nothing. */
  function Insertions(h: History, value: string): nat {
    match h
    case Start => 0
    case Then(past, statement) =>
      Insertions(past, value) + if statement.Issue? && statement.value == value && value !in State(past) then 1 else 0
  }

  function Spends(h: History, value: string): nat {
    match h
    case Start => 0
    case Then(past, statement) =>
      Spends(past, value) +
      if statement.Spend? && statement.value == value && Spendable(State(past), value, statement.now) then 1 else 0
  }

  /** Every successful spend uses up an insertion, and a stored value is one not yet used up. */
  lemma {:induction false} SpendsNeverExceedInsertions(h: History, value: string)
    ensures Spends(h, value) + (if value in State(h) then 1 else 0) <= Insertions(h, value)
  {
    if h.Then? {
      SpendsNeverExceedInsertions(h.past, value);
    }
  }

  predicate IssuedAt(h: History, value: string, at: int) {
    h.Then? && (h.step == Issue(value, at) || IssuedAt(h.past, value, at))
  }

  lemma {:induction false} StoredWasIssued(h: History, value: string)
    requires value in State(h)
    ensures IssuedAt(h, value, State(h)[value] - TTL)
  {
    if value in State(h.past) {
      StoredWasIssued(h.past, value);
    }
  }

  /** A spend succeeds only for a value issued less than an hour before. */
  lemma SpentWithinLifetime(h: History, value: string, now: int) returns (at: int)
    requires Spendable(State(h), value, now)
    ensures IssuedAt(h, value, at) && now < at + 3600
  {
    StoredWasIssued(h, value);
    at := State(h)[value] - TTL;
  }

  /** The value was inserted at that time, and nobody has tried to spend it since. */
  predicate Untried(h: History, value: string, at: int) {
    && h.Then?
    && ((h.step == Issue(value, at) && value !in State(h.past))
        || (!(h.step.Spend? && h.step.value == value) && Untried(h.past, value, at)))
  }

  /** What is stored is no older than its last insertion, and what was tried or pruned in vain has lapsed. */
  lemma {:induction false} HeldExactly(h: History, value: string, now: int, at: int)
    requires ClockedUntil(h, now) && now < at + 3600
    ensures value in State(h) && State(h)[value] == at + 3600 <==> Untried(h, value, at)
  {
    if h.Then? {
      HeldExactly(h.past, value, h.step.now, at);
    }
  }

  /** A spend succeeds exactly for a value inserted less than an hour before and not tried since. */
  lemma SpendableExactly(h: History, value: string, now: int)
    requires ClockedUntil(h, now)
    ensures Spendable(State(h), value, now) <==> exists at :: Untried(h, value, at) && now < at + 3600
  {
    if Spendable(State(h), value, now) {
      HeldExactly(h, value, now, State(h)[value] - 3600);
    }
    if at :| Untried(h, value, at) && now < at + 3600 {
      HeldExactly(h, value, now, at);
    }
  }

  // ---- Pruning is invisible when values are fresh ----

  predicate Issued(h: History, value: string) {
    h.Then? && ((h.step.Issue? && h.step.value == value) || Issued(h.past, value))
  }

  /** No value is issued twice. */
  predicate Fresh(h: History) {
    h.Then? ==> Fresh(h.past) && (h.step.Issue? ==> !Issued(h.past, h.step.value))
  }

  /** The clock never goes back, and has not passed `now`. */
  predicate ClockedUntil(h: History, now: int) {
    h.Then? ==> h.step.now <= now && ClockedUntil(h.past, h.step.now)
  }

  function WithoutPrunes(h: History): History {
    match h
    case Start => Start
    case Then(past, statement) =>
      if statement.Prune? then WithoutPrunes(past) else Then(WithoutPrunes(past), statement)
  }

  /** The unpruned table holds the same rows, plus some that have expired. */
  predicate MoreExpired(rows: Rows, more: Rows, now: int) {
    && (forall v :: v in rows ==> v in more && more[v] == rows[v])
    && (forall v :: v in more && v !in rows ==> more[v] <= now)
  }

  /** The statement issues anew a value whose expired row only the unpruned table still holds. */
  predicate LateReissue(past: History, statement: Statement) {
    statement.Issue? && statement.value in State(WithoutPrunes(past)) && statement.value !in State(past)
  }

  predicate NoLateReissue(h: History) {
    h.Then? ==> NoLateReissue(h.past) && !LateReissue(h.past, h.step)
  }

  lemma StepKeepsMoreExpired(rows: Rows, more: Rows, statement: Statement)
    requires MoreExpired(rows, more, statement.now)
    requires statement.Issue? && statement.value in more ==> statement.value in rows
    ensures
      MoreExpired(Apply(rows, statement), if statement.Prune? then more else Apply(more, statement), statement.now)
  {
  }

  lemma {:induction false} PrunedRowsExpired(h: History, now: int)
    requires NoLateReissue(h) && ClockedUntil(h, now)
    ensures MoreExpired(State(h), State(WithoutPrunes(h)), now)
  {
    if h.Then? {
      PrunedRowsExpired(h.past, h.step.now);
      StepKeepsMoreExpired(State(h.past), State(WithoutPrunes(h.past)), h.step);
    }
  }

  /** A spend of the value would be answered alike by the pruned and the unpruned table. */
  predicate SameAnswer(h: History, value: string, now: int) {
    Spendable(State(h), value, now) <==> Spendable(State(WithoutPrunes(h)), value, now)
  }

  /** So it would at every moment of the run, for every value. */
  ghost predicate AlwaysSameAnswer(h: History) {
    && (forall value, now :: ClockedUntil(h, now) ==> SameAnswer(h, value, now))
    && (h.Then? ==> AlwaysSameAnswer(h.past))
  }

  lemma LateReissueShows(h: History)
    requires h.Then? && NoLateReissue(h.past) && ClockedUntil(h, h.step.now) && LateReissue(h.past, h.step)
    ensures !SameAnswer(h, h.step.value, h.step.now)
  {
    PrunedRowsExpired(h.past, h.step.now);
  }

  /** Pruning never shows, in any interleaving, exactly when no value is issued anew once its row was pruned unspent. */
  lemma {:induction false} PruningIsInvisibleExactly(h: History, clock: int)
    requires ClockedUntil(h, clock)
    ensures AlwaysSameAnswer(h) <==> NoLateReissue(h)
  {
    if NoLateReissue(h) {
      forall value, now | ClockedUntil(h, now)
        ensures SameAnswer(h, value, now)
      {
        PrunedRowsExpired(h, now);
      }
    }
    if h.Then? {
      PruningIsInvisibleExactly(h.past, h.step.now);
      if NoLateReissue(h.past) && LateReissue(h.past, h.step) {
        LateReissueShows(h);
      }
    }
  }

  lemma {:induction false} StoredOnlyIfIssued(h: History, value: string)
    requires value in State(h)
    ensures Issued(h, value)
  {
    if value in State(h.past) {
      StoredOnlyIfIssued(h.past, value);
    }
  }

  lemma {:induction false} IssuedWithoutPrunes(h: History, value: string)
    ensures Issued(WithoutPrunes(h), value) <==> Issued(h, value)
  {
    if h.Then? {
      IssuedWithoutPrunes(h.past, value);
    }
  }

  lemma {:induction false} FreshNeverLate(h: History)
    requires Fresh(h)
    ensures NoLateReissue(h)
  {
    if h.Then? {
      FreshNeverLate(h.past);
      if LateReissue(h.past, h.step) {
        StoredOnlyIfIssued(WithoutPrunes(h.past), h.step.value);
        IssuedWithoutPrunes(h.past, h.step.value);
      }
    }
  }

  /** With fresh values, no later spend can tell whether the table was ever pruned. */
  lemma PruningIsInvisible(h: History, value: string, now: int)
    requires Fresh(h) && ClockedUntil(h, now)
    ensures Spendable(State(h), value, now) <==> Spendable(State(WithoutPrunes(h)), value, now)
  {
    FreshNeverLate(h);
    PrunedRowsExpired(h, now);
  }

  /** A fresh value is spent at most once, ever. */
  lemma {:induction false} FreshInsertedOnce(h: History, value: string)
    requires Fresh(h)
    ensures Insertions(h, value) <= if Issued(h, value) then 1 else 0
  {
    if h.Then? {
      FreshInsertedOnce(h.past, value);
    }
  }

  lemma FreshSpentOnce(h: History, value: string)
    requires Fresh(h)
    ensures Spends(h, value) <= 1
  {
    FreshInsertedOnce(h, value);
    SpendsNeverExceedInsertions(h, value);
  }

  /** Reissuing an expired value shows pruning: only the pruned table takes the new row. */
  lemma ReissueShowsPruning(value: string)
    ensures var h := Then(Then(Then(Start, Issue(value, 0)), Prune(TTL + 1)), Issue(value, TTL + 1));
      && ClockedUntil(h, TTL + 1) && !Fresh(h)
      && Spendable(State(h), value, TTL + 1) && !Spendable(State(WithoutPrunes(h)), value, TTL + 1)
  {
    var first := Then(Start, Issue(value, 0));
    assert WithoutPrunes(Start) == Start && ClockedUntil(Start, 0);
    assert State(first) == map[value := TTL] && WithoutPrunes(first) == first && ClockedUntil(first, TTL + 1);
    var pruned := Then(first, Prune(TTL + 1));
    assert value !in State(pruned) && Issued(pruned, value) && ClockedUntil(pruned, TTL + 1);
    assert WithoutPrunes(pruned) == first;
  }
}
