/**
 The notification retry queue: a failed delivery is parked with one attempt on it and sent
 again with growing waits until it is delivered or given up.
 */
module Deliveries {
  import opened Runs

  const MAX_ATTEMPTS: nat := 6

  /** The wait before each attempt after the first, in seconds. */
  const BACKOFF := [30, 120, 300, 900, 1800]

  /** How many rows one pass takes. */
  const LIMIT: nat := 100

  datatype Status = Pending | Delivered | Failed

  datatype Row = Row(status: Status, attempts: nat, nextAttemptAt: int)

  /**
   What happens to one row in a pass: whether its channel still exists and is enabled,
   whether the send succeeds, when it is over, and whether the row could be saved.
   */
  datatype Attempt = Attempt(usable: bool, delivered: bool, at: int, saved: bool)

  datatype Outcome = WasDelivered | WasRetried | WasAbandoned

  // ---- One row ----

  /** The wait after so many attempts: the table's, held at its ends. */
  function BackoffFor(attempt: int): (wait: int)
    ensures attempt <= 1 ==> wait == 30
    ensures 1 <= attempt <= 5 ==> wait == [30, 120, 300, 900, 1800][attempt - 1]
    ensures attempt >= 5 ==> wait == 1800
  {
    var index := if attempt - 1 < 0 then 0 else attempt - 1;
    BACKOFF[if index >= |BACKOFF| then |BACKOFF| - 1 else index]
  }

  /** The row of a delivery that failed at once. */
  function Parked(now: int): Row {
    Row(Pending, 1, now + BACKOFF[0])
  }

  function OutcomeOf(row: Row, a: Attempt): Outcome {
    if !a.usable then WasAbandoned
    else if a.delivered then WasDelivered
    else if row.attempts + 1 >= MAX_ATTEMPTS then WasAbandoned
    else WasRetried
  }

  function Handled(row: Row, a: Attempt): Row {
    if !a.usable then row.(status := Failed)
    else
      var tried := row.(attempts := row.attempts + 1);
      match OutcomeOf(row, a)
      case WasDelivered => tried.(status := Delivered)
      case WasAbandoned => tried.(status := Failed)
      case WasRetried => tried.(nextAttemptAt := a.at + BackoffFor(tried.attempts))
  }

  function Recorded(row: Row, a: Attempt): Row {
    if a.saved then Handled(row, a) else row
  }

  // ---- One pass ----

  predicate IsDue(row: Row, now: int) {
    row.status == Pending && row.nextAttemptAt <= now
  }

  /** The due rows among the first `n`, oldest first, at most LIMIT of them. */
  function DueList(rows: seq<Row>, now: int, n: nat): (due: seq<nat>)
    requires n <= |rows|
    ensures |due| <= LIMIT
    ensures forall k :: 0 <= k < |due| ==> due[k] < n
  {
    if n == 0 then []
    else
      var older := DueList(rows, now, n - 1);
      if IsDue(rows[n - 1], now) && |older| < LIMIT then older + [n - 1] else older
  }

  predicate Within(due: seq<nat>, rows: seq<Row>) {
    forall k :: 0 <= k < |due| ==> due[k] < |rows|
  }

  /** The table once the listed rows have been handled one after another. */
  function PassOver(rows: seq<Row>, due: seq<nat>, attempt: nat -> Attempt): (after: seq<Row>)
    requires Within(due, rows)
    ensures |after| == |rows|
  {
    if due == [] then rows
    else
      var k := |due| - 1;
      var before := PassOver(rows, due[..k], attempt);
      before[due[k] := Recorded(before[due[k]], attempt(due[k]))]
  }

  function Counted(rows: seq<Row>, due: seq<nat>, attempt: nat -> Attempt, outcome: Outcome): nat
    requires Within(due, rows)
  {
    if due == [] then 0
    else
      var k := |due| - 1;
      Counted(rows, due[..k], attempt, outcome) + if OutcomeOf(rows[due[k]], attempt(due[k])) == outcome then 1 else 0
  }

  class Queue {
    /** Oldest first. */
    var rows: seq<Row>

    constructor ()
      ensures rows == []
    {
      rows := [];
    }

    /**
     Parks a delivery whose first attempt has just failed; one that cannot be rendered or
     stored is dropped, which is only logged.
     */
    method QueueRetry(now: int, rendered: bool, up: bool)
      modifies this
      ensures rows == if rendered && up then old(rows) + [Parked(now)] else old(rows)
      ensures Parked(now) == Row(Pending, 1, now + 30)
    {
      if !rendered {
        return;
      }
      if up {
        rows := rows + [Parked(now)];
      }
    }

    method Due(now: int) returns (due: seq<nat>)
      ensures due == DueList(rows, now, |rows|)
      ensures forall i :: i in due <==> InPass(rows, now, i)
      ensures forall j, k :: 0 <= j < k < |due| ==> due[j] < due[k]
    {
      DueListExactly(rows, now);
      due := [];
      for i := 0 to |rows|
        invariant due == DueList(rows, now, i)
      {
        if rows[i].status == Pending && rows[i].nextAttemptAt <= now && |due| < LIMIT {
          due := due + [i];
        }
      }
    }

    method RetryDeliveries(now: int, attempt: nat -> Attempt) returns (delivered: nat, retried: nat, abandoned: nat)
      modifies this
      ensures var due := DueList(old(rows), now, |old(rows)|);
        && rows == PassOver(old(rows), due, attempt)
        && delivered == Counted(old(rows), due, attempt, WasDelivered)
        && retried == Counted(old(rows), due, attempt, WasRetried)
        && abandoned == Counted(old(rows), due, attempt, WasAbandoned)
        && delivered + retried + abandoned == |due|
      ensures delivered == |TakenWith(old(rows), now, attempt, SendSucceeded)|
      ensures retried == |TakenWith(old(rows), now, attempt, SendToRepeat)|
      ensures abandoned == |TakenWith(old(rows), now, attempt, GivenUp)|
      ensures |rows| == |old(rows)|
      ensures forall i :: 0 <= i < |rows| ==> AfterTurn(old(rows)[i], rows[i], attempt(i), InPass(old(rows), now, i))
    {
      CountersCount(rows, now, attempt);
      PassTurns(rows, now, attempt);
      var due := Due(now);
      delivered, retried, abandoned := RetryRows(due, now, attempt);
    }

    /** One attempt for each listed row, in turn. */
    method RetryRows(due: seq<nat>, ghost now: int, attempt: nat -> Attempt)
      returns (delivered: nat, retried: nat, abandoned: nat)
      requires due == DueList(rows, now, |rows|)
      modifies this
      ensures rows == PassOver(old(rows), due, attempt)
      ensures delivered == Counted(old(rows), due, attempt, WasDelivered)
      ensures retried == Counted(old(rows), due, attempt, WasRetried)
      ensures abandoned == Counted(old(rows), due, attempt, WasAbandoned)
      ensures delivered + retried + abandoned == |due|
    {
      var taken := rows;
      delivered, retried, abandoned := 0, 0, 0;
      var k := 0;
      while k < |due|
        invariant 0 <= k <= |due|
        invariant rows == PassOver(taken, due[..k], attempt)
        invariant delivered == Counted(taken, due[..k], attempt, WasDelivered)
        invariant retried == Counted(taken, due[..k], attempt, WasRetried)
        invariant abandoned == Counted(taken, due[..k], attempt, WasAbandoned)
        invariant delivered + retried + abandoned == k
      {
        DueUntouched(taken, now, |taken|, attempt, k);
        ExtendPass(taken, due, attempt, k);
        var row, outcome := Handle(rows[due[k]], attempt(due[k]));
        match outcome {
          case WasDelivered => delivered := delivered + 1;
          case WasRetried => retried := retried + 1;
          case WasAbandoned => abandoned := abandoned + 1;
        }
        if attempt(due[k]).saved {
          rows := rows[due[k] := row];
        }
        k := k + 1;
      }
      assert due[..k] == due;
    }

    /** Sends one row again, unless its channel is gone. */
    static method Handle(taken: Row, a: Attempt) returns (row: Row, outcome: Outcome)
      ensures row == Handled(taken, a) && outcome == OutcomeOf(taken, a)
      ensures HandledAs(taken, row, a)
      ensures outcome == WasDelivered <==> SendSucceeded(taken, a)
      ensures outcome == WasRetried <==> SendToRepeat(taken, a)
      ensures outcome == WasAbandoned <==> GivenUp(taken, a)
    {
      row := taken;
      if !a.usable {
        row := row.(status := Failed);
        return row, WasAbandoned;
      }
      row := row.(attempts := row.attempts + 1);
      if a.delivered {
        row, outcome := row.(status := Delivered), WasDelivered;
      } else if row.attempts >= MAX_ATTEMPTS {
        row, outcome := row.(status := Failed), WasAbandoned;
      } else {
        row, outcome := row.(nextAttemptAt := a.at + BackoffFor(row.attempts)), WasRetried;
      }
    }
  }

  // ---- The four branches, from what happened ----

  predicate SendSucceeded(row: Row, a: Attempt) {
    a.usable && a.delivered
  }

  /** A send failed, and it was not the sixth. */
  predicate SendToRepeat(row: Row, a: Attempt) {
    a.usable && !a.delivered && row.attempts < 5
  }

  /** The channel is gone, or the sixth send failed. */
  predicate GivenUp(row: Row, a: Attempt) {
    !a.usable || (!a.delivered && row.attempts >= 5)
  }

  /** The new values of a row, branch by branch. */
  predicate HandledAs(was: Row, now: Row, a: Attempt) {
    && (!a.usable ==> now == Row(Failed, was.attempts, was.nextAttemptAt))
    && (a.usable ==> now.attempts == was.attempts + 1)
    && (a.usable && a.delivered ==> now.status == Delivered && now.nextAttemptAt == was.nextAttemptAt)
    && (a.usable && !a.delivered && was.attempts >= 5 ==>
        now.status == Failed && now.nextAttemptAt == was.nextAttemptAt)
    && (a.usable && !a.delivered && was.attempts < 5 ==>
        now.status == was.status && now.nextAttemptAt == a.at + BackoffFor(was.attempts + 1))
  }

  /** A row that is taken and saved is handled, and any other is as it was. */
  predicate AfterTurn(was: Row, now: Row, a: Attempt, taken: bool) {
    if taken && a.saved then HandledAs(was, now, a) else now == was
  }

  function DueBefore(rows: seq<Row>, now: int, i: nat): set<nat>
    requires i <= |rows|
  {
    set j: nat | j < i && rows[j].status == Pending && rows[j].nextAttemptAt <= now
  }

  /** A row is taken when it is pending, its time has come, and fewer than a hundred older ones are due. */
  predicate InPass(rows: seq<Row>, now: int, i: nat) {
    i < |rows| && rows[i].status == Pending && rows[i].nextAttemptAt <= now && |DueBefore(rows, now, i)| < 100
  }

  function TakenWith(rows: seq<Row>, now: int, attempt: nat -> Attempt, branch: (Row, Attempt) -> bool): set<nat> {
    set i: nat | i < |rows| && InPass(rows, now, i) && branch(rows[i], attempt(i))
  }

  lemma ExtendPass(rows: seq<Row>, due: seq<nat>, attempt: nat -> Attempt, k: nat)
    requires Within(due, rows) && k < |due|
    ensures PassOver(rows, due[..k + 1], attempt) ==
      var before := PassOver(rows, due[..k], attempt); before[due[k] := Recorded(before[due[k]], attempt(due[k]))]
    ensures forall outcome :: (
      Counted(rows, due[..k + 1], attempt, outcome) ==
      Counted(rows, due[..k], attempt, outcome) + if OutcomeOf(rows[due[k]], attempt(due[k])) == outcome then 1 else 0)
  {
    assert due[..k + 1][..k] == due[..k];
  }

  /** The rows are listed once each, so a row is still as it was taken when its turn comes. */
  lemma {:induction false} Ascending(rows: seq<Row>, now: int, n: nat, j: nat, k: nat)
    requires n <= |rows| && j < k < |DueList(rows, now, n)|
    ensures DueList(rows, now, n)[j] < DueList(rows, now, n)[k]
  {
    if k < |DueList(rows, now, n - 1)| {
      Ascending(rows, now, n - 1, j, k);
    }
  }

  lemma {:induction false} PassElsewhere(rows: seq<Row>, due: seq<nat>, attempt: nat -> Attempt, i: nat)
    requires Within(due, rows) && i < |rows|
    requires forall k :: 0 <= k < |due| ==> due[k] != i
    ensures PassOver(rows, due, attempt)[i] == rows[i]
  {
    if due != [] {
      PassElsewhere(rows, due[..|due| - 1], attempt, i);
    }
  }

  lemma DueUntouched(rows: seq<Row>, now: int, n: nat, attempt: nat -> Attempt, k: nat)
    requires n <= |rows| && k < |DueList(rows, now, n)|
    ensures var due := DueList(rows, now, n);
      Within(due, rows) && Within(due[..k], rows) && PassOver(rows, due[..k], attempt)[due[k]] == rows[due[k]]
  {
    var due := DueList(rows, now, n);
    forall j | 0 <= j < k
      ensures due[..k][j] != due[k]
    {
      Ascending(rows, now, n, j, k);
    }
    PassElsewhere(rows, due[..k], attempt, due[k]);
  }

  // ---- A pass, row by row ----

  /** Whether row `i` is among those a pass takes from the first `n`. */
  predicate Taken(rows: seq<Row>, now: int, n: nat, i: nat)
    requires n <= |rows|
  {
    n > 0 && (Taken(rows, now, n - 1, i) || (i == n - 1 && IsDue(rows[i], now) && |DueList(rows, now, i)| < LIMIT))
  }

  function Pass(rows: seq<Row>, now: int, attempt: nat -> Attempt): (after: seq<Row>)
    ensures |after| == |rows|
  {
    PassOver(rows, DueList(rows, now, |rows|), attempt)
  }

  lemma {:induction false} TakenBefore(rows: seq<Row>, now: int, n: nat, i: nat)
    requires n <= |rows| && Taken(rows, now, n, i)
    ensures i < n && IsDue(rows[i], now)
  {
    if Taken(rows, now, n - 1, i) {
      TakenBefore(rows, now, n - 1, i);
    }
  }

  lemma {:induction false} PassPointwise(rows: seq<Row>, now: int, attempt: nat -> Attempt, n: nat, i: nat)
    requires n <= |rows| && i < |rows|
    ensures PassOver(rows, DueList(rows, now, n), attempt)[i] ==
      if Taken(rows, now, n, i) then Recorded(rows[i], attempt(i)) else rows[i]
  {
    if n > 0 {
      PassPointwise(rows, now, attempt, n - 1, i);
      var older := DueList(rows, now, n - 1);
      if Taken(rows, now, n - 1, i) {
        TakenBefore(rows, now, n - 1, i);
      }
      assert (older + [n - 1])[..|older|] == older;
    }
  }

  /** A due row is passed over only when a full pass of older due rows went first. */
  lemma {:induction false} OldestFirst(rows: seq<Row>, now: int, n: nat, i: nat)
    requires i < n <= |rows| && IsDue(rows[i], now) && !Taken(rows, now, n, i)
    ensures |DueList(rows, now, i)| == LIMIT
  {
    if n - 1 > i {
      OldestFirst(rows, now, n - 1, i);
    }
  }

  // ---- A pass, from what happened ----

  lemma DueOneMore(rows: seq<Row>, now: int, n: nat)
    requires 0 < n <= |rows|
    ensures DueBefore(rows, now, n) == DueBefore(rows, now, n - 1) + if IsDue(rows[n - 1], now) then {n - 1} else {}
    ensures |DueBefore(rows, now, n)| == |DueBefore(rows, now, n - 1)| + if IsDue(rows[n - 1], now) then 1 else 0
  {
    assert n - 1 !in DueBefore(rows, now, n - 1);
    assert DueBefore(rows, now, n) ==
      DueBefore(rows, now, n - 1) + if IsDue(rows[n - 1], now) then {n - 1} else {};
  }

  lemma {:induction false} DueListLength(rows: seq<Row>, now: int, n: nat)
    requires n <= |rows|
    ensures |DueList(rows, now, n)| == if |DueBefore(rows, now, n)| < 100 then |DueBefore(rows, now, n)| else 100
  {
    if n == 0 {
      assert DueBefore(rows, now, 0) == {};
    } else {
      DueListLength(rows, now, n - 1);
      DueOneMore(rows, now, n);
    }
  }

  lemma {:induction false} TakenExactly(rows: seq<Row>, now: int, n: nat, i: nat)
    requires n <= |rows|
    ensures Taken(rows, now, n, i) <==> i < n && InPass(rows, now, i)
  {
    if n > 0 {
      TakenExactly(rows, now, n - 1, i);
      DueListLength(rows, now, n - 1);
    }
  }

  lemma {:induction false} ListedExactly(rows: seq<Row>, now: int, n: nat, i: nat)
    requires n <= |rows|
    ensures i in DueList(rows, now, n) <==> Taken(rows, now, n, i)
  {
    if n > 0 {
      ListedExactly(rows, now, n - 1, i);
    }
  }

  /** A pass lists exactly the due rows behind fewer than a hundred older due ones, oldest first. */
  lemma DueListExactly(rows: seq<Row>, now: int)
    ensures var due := DueList(rows, now, |rows|);
      && (forall i :: i in due <==> InPass(rows, now, i))
      && (forall j, k :: 0 <= j < k < |due| ==> due[j] < due[k])
  {
    forall i: nat
      ensures i in DueList(rows, now, |rows|) <==> InPass(rows, now, i)
    {
      ListedExactly(rows, now, |rows|, i);
      TakenExactly(rows, now, |rows|, i);
    }
    forall j, k | 0 <= j < k < |DueList(rows, now, |rows|)|
      ensures DueList(rows, now, |rows|)[j] < DueList(rows, now, |rows|)[k]
    {
      Ascending(rows, now, |rows|, j, k);
    }
  }

  /** A pass changes exactly the rows it takes and saves, each as its branch says. */
  lemma PassTurns(rows: seq<Row>, now: int, attempt: nat -> Attempt)
    ensures var after := Pass(rows, now, attempt);
      forall i :: 0 <= i < |rows| ==> AfterTurn(rows[i], after[i], attempt(i), InPass(rows, now, i))
  {
    forall i | 0 <= i < |rows|
      ensures AfterTurn(rows[i], Pass(rows, now, attempt)[i], attempt(i), InPass(rows, now, i))
    {
      PassPointwise(rows, now, attempt, |rows|, i);
      TakenExactly(rows, now, |rows|, i);
    }
  }

  function ListedWith(rows: seq<Row>, now: int, attempt: nat -> Attempt, n: nat, branch: (Row, Attempt) -> bool)
    : set<nat>
    requires n <= |rows|
  {
    set i: nat | i < n && Taken(rows, now, n, i) && branch(rows[i], attempt(i))
  }

  lemma ListedOneMore(rows: seq<Row>, now: int, attempt: nat -> Attempt, n: nat, branch: (Row, Attempt) -> bool)
    requires 0 < n <= |rows|
    ensures var adds := Taken(rows, now, n, n - 1) && branch(rows[n - 1], attempt(n - 1));
      |ListedWith(rows, now, attempt, n, branch)|
      == |ListedWith(rows, now, attempt, n - 1, branch)| + if adds then 1 else 0
  {
    var fewer, more := ListedWith(rows, now, attempt, n - 1, branch), ListedWith(rows, now, attempt, n, branch);
    TakenExactly(rows, now, n - 1, n - 1);
    assert n - 1 !in fewer;
    assert more == fewer + if Taken(rows, now, n, n - 1) && branch(rows[n - 1], attempt(n - 1)) then {n - 1} else {};
  }

  lemma CountedOneMore(rows: seq<Row>, now: int, attempt: nat -> Attempt, n: nat, outcome: Outcome)
    requires 0 < n <= |rows|
    ensures Counted(rows, DueList(rows, now, n), attempt, outcome)
      == Counted(rows, DueList(rows, now, n - 1), attempt, outcome)
         + if Taken(rows, now, n, n - 1) && OutcomeOf(rows[n - 1], attempt(n - 1)) == outcome then 1 else 0
  {
    TakenExactly(rows, now, n - 1, n - 1);
    CountedSnoc(rows, DueList(rows, now, n - 1), n - 1, attempt, outcome);
  }

  lemma CountedSnoc(rows: seq<Row>, older: seq<nat>, last: nat, attempt: nat -> Attempt, outcome: Outcome)
    requires Within(older, rows) && last < |rows|
    ensures Within(older + [last], rows)
    ensures Counted(rows, older + [last], attempt, outcome)
      == Counted(rows, older, attempt, outcome) + if OutcomeOf(rows[last], attempt(last)) == outcome then 1 else 0
  {
    assert (older + [last])[..|older|] == older;
  }

  /** Counting along the list is counting the rows. */
  lemma {:induction false} CountedIsSize(rows: seq<Row>, now: int, attempt: nat -> Attempt, n: nat, outcome: Outcome,
      branch: (Row, Attempt) -> bool)
    requires n <= |rows| && forall row, a :: OutcomeOf(row, a) == outcome <==> branch(row, a)
    ensures Counted(rows, DueList(rows, now, n), attempt, outcome) == |ListedWith(rows, now, attempt, n, branch)|
  {
    if n == 0 {
      assert ListedWith(rows, now, attempt, 0, branch) == {};
    } else {
      CountedIsSize(rows, now, attempt, n - 1, outcome, branch);
      ListedOneMore(rows, now, attempt, n, branch);
      CountedOneMore(rows, now, attempt, n, outcome);
    }
  }

  lemma TakenIsListed(rows: seq<Row>, now: int, attempt: nat -> Attempt, branch: (Row, Attempt) -> bool)
    ensures TakenWith(rows, now, attempt, branch) == ListedWith(rows, now, attempt, |rows|, branch)
  {
    forall i: nat | i < |rows|
      ensures Taken(rows, now, |rows|, i) <==> InPass(rows, now, i)
    {
      TakenExactly(rows, now, |rows|, i);
    }
  }

  /** Each counter counts the taken rows of its branch. */
  lemma CountersCount(rows: seq<Row>, now: int, attempt: nat -> Attempt)
    ensures var due := DueList(rows, now, |rows|);
      && Counted(rows, due, attempt, WasDelivered) == |TakenWith(rows, now, attempt, SendSucceeded)|
      && Counted(rows, due, attempt, WasRetried) == |TakenWith(rows, now, attempt, SendToRepeat)|
      && Counted(rows, due, attempt, WasAbandoned) == |TakenWith(rows, now, attempt, GivenUp)|
  {
    CountedIsSize(rows, now, attempt, |rows|, WasDelivered, SendSucceeded);
    CountedIsSize(rows, now, attempt, |rows|, WasRetried, SendToRepeat);
    CountedIsSize(rows, now, attempt, |rows|, WasAbandoned, GivenUp);
    TakenIsListed(rows, now, attempt, SendSucceeded);
    TakenIsListed(rows, now, attempt, SendToRepeat);
    TakenIsListed(rows, now, attempt, GivenUp);
  }

  // ---- Runs ----

  datatype Event = Queued(now: int) | Passed(now: int, attempt: nat -> Attempt)

  type History = Run<Event>

  ghost function State(h: History): seq<Row> {
    match h
    case Start => []
    case Then(past, Queued(now)) => State(past) + [Parked(now)]
    case Then(past, Passed(now, attempt)) => Pass(State(past), now, attempt)
  }

  predicate RowOk(row: Row) {
    row.attempts <= MAX_ATTEMPTS && (row.status == Pending ==> 1 <= row.attempts < MAX_ATTEMPTS)
  }

  lemma RecordedKeepsRowOk(row: Row, a: Attempt)
    requires RowOk(row) && row.status == Pending
    ensures RowOk(Recorded(row, a))
  {
  }

  /** A pending row always has one to five attempts on it. */
  lemma {:induction false} RowsStayOk(h: History, i: nat)
    requires i < |State(h)|
    ensures RowOk(State(h)[i])
  {
    var rows := State(h.past);
    if i < |rows| {
      RowsStayOk(h.past, i);
    }
    if h.step.Passed? {
      PassPointwise(rows, h.step.now, h.step.attempt, |rows|, i);
      if Taken(rows, h.step.now, |rows|, i) {
        TakenBefore(rows, h.step.now, |rows|, i);
        RecordedKeepsRowOk(rows[i], h.step.attempt(i));
      }
    }
  }

  ghost predicate SentIn(rows: seq<Row>, event: Event, i: nat) {
    event.Passed? && Taken(rows, event.now, |rows|, i) && event.attempt(i).usable
  }

  /** How often delivery `i` was really sent: once before it was queued, then in passes. */
  ghost function Sends(h: History, i: nat): nat {
    match h
    case Start => 0
    case Then(past, event) =>
      Sends(past, i) + if (event.Queued? && i == |State(past)|) || SentIn(State(past), event, i) then 1 else 0
  }

  /** The sends whose row could not be saved afterwards. */
  ghost function LostSends(h: History, i: nat): nat {
    match h
    case Start => 0
    case Then(past, event) =>
      LostSends(past, i) + if SentIn(State(past), event, i) && !event.attempt(i).saved then 1 else 0
  }

  lemma {:induction false} NotSentBeforeQueued(h: History, i: nat)
    requires i >= |State(h)|
    ensures Sends(h, i) == 0 && LostSends(h, i) == 0
  {
    if h.Then? {
      NotSentBeforeQueued(h.past, i);
      if h.step.Passed? && Taken(State(h.past), h.step.now, |State(h.past)|, i) {
        TakenBefore(State(h.past), h.step.now, |State(h.past)|, i);
      }
    }
  }

  /** The attempts on a row are its sends, less those that were lost. */
  lemma {:induction false} AttemptsCountSends(h: History, i: nat)
    requires i < |State(h)|
    ensures Sends(h, i) == State(h)[i].attempts + LostSends(h, i)
  {
    var rows := State(h.past);
    if i >= |rows| {
      NotSentBeforeQueued(h.past, i);
    } else {
      AttemptsCountSends(h.past, i);
      if h.step.Passed? {
        PassPointwise(rows, h.step.now, h.step.attempt, |rows|, i);
      }
    }
  }

  /** No delivery is sent more than six times, unless the store lost track of a send. */
  lemma SentAtMostSixTimes(h: History, i: nat)
    requires i < |State(h)|
    ensures Sends(h, i) <= MAX_ATTEMPTS + LostSends(h, i)
  {
    AttemptsCountSends(h, i);
    RowsStayOk(h, i);
  }

  /** A retried row waits what the table says, never past its end, and never less than the time before. */
  lemma WaitsNeverShrink(h: History, i: nat, a: Attempt)
    requires i < |State(h)| && State(h)[i].status == Pending && OutcomeOf(State(h)[i], a) == WasRetried
    ensures var row := State(h)[i];
      && 1 <= row.attempts < |BACKOFF|
      && Handled(row, a) == Row(Pending, row.attempts + 1, a.at + BACKOFF[row.attempts])
      && BACKOFF[row.attempts - 1] <= BACKOFF[row.attempts]
  {
    RowsStayOk(h, i);
  }

  // ---- How a delivery ends ----

  /** In some pass delivery `i` was sent, the send succeeded, and that was saved. */
  ghost predicate SucceededIn(h: History, i: nat) {
    && h.Then?
    && (SucceededIn(h.past, i) ||
        (h.step.Passed? && InPass(State(h.past), h.step.now, i) && h.step.attempt(i).saved &&
         h.step.attempt(i).usable && h.step.attempt(i).delivered))
  }

  /** In some pass its channel was found unusable, or its sixth attempt failed, and that was saved. */
  ghost predicate GivenUpIn(h: History, i: nat) {
    && h.Then?
    && (GivenUpIn(h.past, i) ||
        (h.step.Passed? && InPass(State(h.past), h.step.now, i) && h.step.attempt(i).saved &&
         (!h.step.attempt(i).usable || (!h.step.attempt(i).delivered && State(h.past)[i].attempts + 1 == 6))))
  }

  lemma {:induction false} NothingBeforeQueued(h: History, i: nat)
    requires i >= |State(h)|
    ensures !SucceededIn(h, i) && !GivenUpIn(h, i)
  {
    if h.Then? {
      NothingBeforeQueued(h.past, i);
    }
  }

  /** A queued delivery ends as delivered exactly when it was, as failed exactly when it was given up; else it waits. */
  lemma {:induction false} EndsExactly(h: History, i: nat)
    requires i < |State(h)|
    ensures State(h)[i].status == Delivered <==> SucceededIn(h, i)
    ensures State(h)[i].status == Failed <==> GivenUpIn(h, i)
    ensures State(h)[i].status == Pending <==> !SucceededIn(h, i) && !GivenUpIn(h, i)
  {
    var rows := State(h.past);
    if i >= |rows| {
      NothingBeforeQueued(h.past, i);
    } else {
      EndsExactly(h.past, i);
      RowsStayOk(h.past, i);
      if h.step.Passed? {
        PassTurns(rows, h.step.now, h.step.attempt);
        assert AfterTurn(rows[i], State(h)[i], h.step.attempt(i), InPass(rows, h.step.now, i));
      }
    }
  }

  // ---- The queue drains ----

  function Weight(row: Row): int {
    if row.status == Pending then MAX_ATTEMPTS - row.attempts else 0
  }

  /** The attempts left to the pending rows among the first `n`. */
  function Potential(rows: seq<Row>, n: nat): int
    requires n <= |rows|
  {
    if n == 0 then 0 else Potential(rows, n - 1) + Weight(rows[n - 1])
  }

  function SavedRows(rows: seq<Row>, now: int, attempt: nat -> Attempt, n: nat): nat
    requires n <= |rows|
  {
    if n == 0 then 0
    else SavedRows(rows, now, attempt, n - 1) + if Taken(rows, now, |rows|, n - 1) && attempt(n - 1).saved then 1 else 0
  }

  predicate AllOk(rows: seq<Row>) {
    forall i :: 0 <= i < |rows| ==> RowOk(rows[i])
  }

  /** Each row a pass takes and saves costs the queue at least one attempt. */
  lemma {:induction false} PassLowersPotential(rows: seq<Row>, now: int, attempt: nat -> Attempt, n: nat)
    requires n <= |rows| && AllOk(rows)
    ensures Potential(Pass(rows, now, attempt), n) + SavedRows(rows, now, attempt, n) <= Potential(rows, n)
  {
    if n > 0 {
      PassLowersPotential(rows, now, attempt, n - 1);
      PassPointwise(rows, now, attempt, |rows|, n - 1);
      if Taken(rows, now, |rows|, n - 1) {
        TakenBefore(rows, now, |rows|, n - 1);
      }
    }
  }

  lemma PassKeepsAllOk(rows: seq<Row>, now: int, attempt: nat -> Attempt)
    requires AllOk(rows)
    ensures AllOk(Pass(rows, now, attempt))
  {
    forall i | 0 <= i < |rows|
      ensures RowOk(Pass(rows, now, attempt)[i])
    {
      PassPointwise(rows, now, attempt, |rows|, i);
      if Taken(rows, now, |rows|, i) {
        TakenBefore(rows, now, |rows|, i);
      }
    }
  }

  lemma {:induction false} PotentialBounds(rows: seq<Row>, n: nat)
    requires n <= |rows| && AllOk(rows)
    ensures 0 <= Potential(rows, n) <= (MAX_ATTEMPTS - 1) * n
  {
    if n > 0 {
      PotentialBounds(rows, n - 1);
    }
  }

  lemma {:induction false} SomethingSaved(rows: seq<Row>, now: int, attempt: nat -> Attempt, n: nat, i: nat)
    requires i < n <= |rows| && Taken(rows, now, |rows|, i) && attempt(i).saved
    ensures SavedRows(rows, now, attempt, n) >= 1
  {
    if i < n - 1 {
      SomethingSaved(rows, now, attempt, n - 1, i);
    }
  }

  /** The passes, each of which takes and saves at least one row. */
  ghost predicate Busy(rows: seq<Row>, passes: seq<Event>)
    decreases |passes|
  {
    passes == [] ||
      (var first := passes[0];
       && first.Passed?
       && (exists i :: TakenAndSaved(rows, first, i))
       && Busy(Pass(rows, first.now, first.attempt), passes[1..]))
  }

  ghost predicate TakenAndSaved(rows: seq<Row>, event: Event, i: nat) {
    event.Passed? && i < |rows| && Taken(rows, event.now, |rows|, i) && event.attempt(i).saved
  }

  /** The table after passes with nothing queued in between. */
  ghost function AfterPasses(rows: seq<Row>, passes: seq<Event>): seq<Row>
    decreases |passes|
  {
    if passes == [] || !passes[0].Passed? then rows
    else AfterPasses(Pass(rows, passes[0].now, passes[0].attempt), passes[1..])
  }

  predicate NoPending(rows: seq<Row>) {
    forall i :: 0 <= i < |rows| ==> rows[i].status != Pending
  }

  lemma {:induction false} AttemptsLeft(rows: seq<Row>, n: nat, i: nat)
    requires i < n <= |rows| && AllOk(rows) && rows[i].status == Pending
    ensures Potential(rows, n) >= 1
  {
    PotentialBounds(rows, n - 1);
    if i < n - 1 {
      AttemptsLeft(rows, n - 1, i);
    }
  }

  /** Nothing is pending exactly when no attempt is left. */
  lemma {:induction false} EmptyExactly(rows: seq<Row>, n: nat)
    requires n <= |rows| && AllOk(rows)
    ensures Potential(rows, n) == 0 <==> forall i :: 0 <= i < n ==> rows[i].status != Pending
  {
    PotentialBounds(rows, n);
    if Potential(rows, n) == 0 {
      forall i | 0 <= i < n
        ensures rows[i].status != Pending
      {
        if rows[i].status == Pending {
          AttemptsLeft(rows, n, i);
        }
      }
    } else {
      EmptyExactly(rows, n - 1);
    }
  }

  /** With nothing new queued there are at most five busy passes a row, and that many empty the queue. */
  lemma {:induction false} QueueDrains(rows: seq<Row>, passes: seq<Event>)
    requires AllOk(rows) && Busy(rows, passes)
    ensures |passes| <= Potential(rows, |rows|) <= (MAX_ATTEMPTS - 1) * |rows|
    ensures AllOk(AfterPasses(rows, passes))
    ensures Potential(AfterPasses(rows, passes), |AfterPasses(rows, passes)|) + |passes| <= Potential(rows, |rows|)
    ensures |passes| == Potential(rows, |rows|) ==> NoPending(AfterPasses(rows, passes))
    decreases |passes|
  {
    PotentialBounds(rows, |rows|);
    if passes != [] {
      var first := passes[0];
      var i :| TakenAndSaved(rows, first, i);
      SomethingSaved(rows, first.now, first.attempt, |rows|, i);
      PassLowersPotential(rows, first.now, first.attempt, |rows|);
      PassKeepsAllOk(rows, first.now, first.attempt);
      QueueDrains(Pass(rows, first.now, first.attempt), passes[1..]);
    }
    PotentialBounds(AfterPasses(rows, passes), |AfterPasses(rows, passes)|);
    EmptyExactly(AfterPasses(rows, passes), |AfterPasses(rows, passes)|);
  }

  // ---- The queue empties ----

  /** A pass all of whose saves succeed, made when some pending row is due, if any is pending. */
  ghost predicate Works(rows: seq<Row>, event: Event) {
    && event.Passed? && (forall i :: event.attempt(i).saved)
    && (NoPending(rows) || exists i :: DueAt(rows, event.now, i))
  }

  predicate DueAt(rows: seq<Row>, now: int, i: nat) {
    i < |rows| && IsDue(rows[i], now)
  }

  ghost predicate AllWork(rows: seq<Row>, passes: seq<Event>)
    decreases |passes|
  {
    passes == [] ||
      (Works(rows, passes[0]) && AllWork(Pass(rows, passes[0].now, passes[0].attempt), passes[1..]))
  }

  /** The oldest due row is always taken. */
  lemma {:induction false} SomeTaken(rows: seq<Row>, now: int, n: nat, i: nat) returns (first: nat)
    requires i < n <= |rows| && IsDue(rows[i], now)
    ensures Taken(rows, now, n, first) && first <= i
  {
    if earlier: nat :| earlier < i && IsDue(rows[earlier], now) {
      first := SomeTaken(rows, now, n, earlier);
    } else {
      NothingDue(rows, now, i);
      TakenStays(rows, now, i + 1, n, i);
      first := i;
    }
  }

  lemma {:induction false} NothingDue(rows: seq<Row>, now: int, n: nat)
    requires n <= |rows| && forall i :: 0 <= i < n ==> !IsDue(rows[i], now)
    ensures DueList(rows, now, n) == []
  {
    if n > 0 {
      NothingDue(rows, now, n - 1);
    }
  }

  lemma {:induction false} TakenStays(rows: seq<Row>, now: int, m: nat, n: nat, i: nat)
    requires m <= n <= |rows| && Taken(rows, now, m, i)
    ensures Taken(rows, now, n, i)
  {
    if m < n {
      TakenStays(rows, now, m, n - 1, i);
    }
  }

  /** One such pass takes an attempt off a queue that has any left. */
  lemma WorkingPass(rows: seq<Row>, event: Event)
    requires AllOk(rows) && Works(rows, event)
    ensures var after := Pass(rows, event.now, event.attempt);
      && AllOk(after)
      && Potential(after, |after|) <= if Potential(rows, |rows|) == 0 then 0 else Potential(rows, |rows|) - 1
  {
    PassKeepsAllOk(rows, event.now, event.attempt);
    PassLowersPotential(rows, event.now, event.attempt, |rows|);
    EmptyExactly(rows, |rows|);
    if Potential(rows, |rows|) != 0 {
      var i :| DueAt(rows, event.now, i);
      var first := SomeTaken(rows, event.now, |rows|, i);
      SomethingSaved(rows, event.now, event.attempt, |rows|, first);
    }
  }

  /** As many such passes as attempts are left end with nothing pending. */
  lemma {:induction false} WorkingPassesEmpty(rows: seq<Row>, passes: seq<Event>)
    requires AllOk(rows) && AllWork(rows, passes) && |passes| >= Potential(rows, |rows|)
    ensures NoPending(AfterPasses(rows, passes))
    decreases |passes|
  {
    PotentialBounds(rows, |rows|);
    if passes == [] {
      EmptyExactly(rows, |rows|);
    } else {
      WorkingPass(rows, passes[0]);
      WorkingPassesEmpty(Pass(rows, passes[0].now, passes[0].attempt), passes[1..]);
    }
  }

  /** After any run, whatever the channels then do, five such passes a row leave nothing pending. */
  lemma QueueEmpties(h: History, passes: seq<Event>)
    requires AllWork(State(h), passes) && |passes| >= (MAX_ATTEMPTS - 1) * |State(h)|
    ensures NoPending(AfterPasses(State(h), passes))
  {
    forall i | 0 <= i < |State(h)|
      ensures RowOk(State(h)[i])
    {
      RowsStayOk(h, i);
    }
    PotentialBounds(State(h), |State(h)|);
    WorkingPassesEmpty(State(h), passes);
  }
}
