/**
 What a request to validate a challenge does to the ACME tables, whatever the network answers and
 whichever store calls fail.
 */
module AcmeValidation {
  import opened AcmeNames
  import opened AcmeProtocol

  const AUTHORIZATION_TTL := 30 * 24 * 3600

  ghost predicate NoFailures(up: nat -> bool) {
    forall k :: up(k)
  }

  // ---- What a validation does when no store call fails ----

  predicate Eligible(d: Db, account: string, id: Id) {
    && id in d.challenges && d.challenges[id].authz in d.authzs
    && d.authzs[d.challenges[id].authz].account == account
    && Unsettled(d.challenges[id]) && d.challenges[id].attempts < MAX_ATTEMPTS
  }

  /** The answer to a request that may not, or need not, attempt the challenge. */
  function Unvalidated(d: Db, account: string, id: Id): Outcome<Challenge> {
    if id !in d.challenges then Fail(Malformed)
    else
      var c := d.challenges[id];
      if c.authz !in d.authzs then Fail(ServerInternal)
      else if d.authzs[c.authz].account != account then Fail(Unauthorized)
      else if c.status == Status.Valid || c.status == Status.Invalid then Ok(c)
      else Fail(RateLimited)
  }

  /** The other challenges of the same authorization have all failed. */
  ghost predicate LastHope(d: Db, id: Id)
    requires id in d.challenges
  {
    forall c :: c in d.challenges && c != id && d.challenges[c].authz == d.challenges[id].authz ==>
      d.challenges[c].status == Status.Invalid
  }

  /** The other authorizations of the same order are all valid. */
  ghost predicate LastMissing(d: Db, a: Id)
    requires a in d.authzs
  {
    forall b :: b in d.authzs && b != a && d.authzs[b].order == d.authzs[a].order ==>
      d.authzs[b].status == Status.Valid
  }

  /** The challenge's row once its attempt is counted. */
  function Attempted(c: Challenge, status: Status): Challenge {
    c.(attempts := c.attempts + 1, status := status)
  }

  ghost function AfterPass(d: Db, id: Id, row: Challenge, now: int): Db
    requires Linked(d) && id in d.challenges
  {
    var a := d.challenges[id].authz;
    var o := d.authzs[a].order;
    d.(passed := d.passed + {id},
       challenges := d.challenges[id := row],
       authzs := d.authzs[a := d.authzs[a].(status := Status.Valid, expiresAt := now + AUTHORIZATION_TTL)],
       orders := if d.orders[o].status == Pending && LastMissing(d, a)
         then d.orders[o := d.orders[o].(status := Ready)] else d.orders)
  }

  ghost function AfterFailure(d: Db, id: Id, row: Challenge): Db
    requires Linked(d) && id in d.challenges
  {
    var a := d.challenges[id].authz;
    var o := d.authzs[a].order;
    var e := d.(challenges := d.challenges[id := row]);
    if LastHope(d, id) then
      e.(authzs := d.authzs[a := d.authzs[a].(status := Status.Invalid)],
         orders := d.orders[o := d.orders[o].(status := Status.Invalid)])
    else e
  }

  // ---- What a validation leaves when store calls fail ----

  /** The challenge passed: its row, its authorization and its order are written in turn. */
  ghost function PassRecorded(d: Db, id: Id, row: Challenge, now: int, up: nat -> bool): Db
    requires id in d.challenges && d.challenges[id].authz in d.authzs
  {
    var a := d.challenges[id].authz;
    var o := d.authzs[a].order;
    var e := d.(passed := d.passed + {id});
    if !up(4) then e
    else if !up(5) then e.(challenges := d.challenges[id := row])
    else
      e.(challenges := d.challenges[id := row],
         authzs := d.authzs[a := d.authzs[a].(status := Status.Valid, expiresAt := now + AUTHORIZATION_TTL)],
         orders := if o in d.orders && d.orders[o].status == Pending && up(6) && up(7) && up(8) && LastMissing(d, a)
           then d.orders[o := d.orders[o].(status := Ready)] else d.orders)
  }

  /** The challenge failed: its row is written, and with the last one its authorization and its order. */
  ghost function FailureRecorded(d: Db, id: Id, row: Challenge, up: nat -> bool): Db
    requires id in d.challenges && d.challenges[id].authz in d.authzs
  {
    var a := d.challenges[id].authz;
    var o := d.authzs[a].order;
    if !up(4) then d
    else if !up(5) || !up(6) || !LastHope(d, id) then d.(challenges := d.challenges[id := row])
    else
      d.(challenges := d.challenges[id := row],
         authzs := d.authzs[a := d.authzs[a].(status := Status.Invalid)],
         orders := if o in d.orders && up(7) && up(8)
           then d.orders[o := d.orders[o].(status := Status.Invalid)] else d.orders)
  }

  /** A request to validate a challenge, whatever the network answers and whichever store calls fail. */
  ghost function Validated(d: Db, account: string, id: Id, passes: bool, now: int, up: nat -> bool): Db {
    if !up(0) || !up(1) || !up(2) || !Eligible(d, account, id) then d
    else
      var c := d.challenges[id];
      var marked := if up(3) then d.(challenges := d.challenges[id := Attempted(c, Processing)]) else d;
      if passes then PassRecorded(marked, id, Attempted(c, Status.Valid), now, up)
      else FailureRecorded(marked, id, Attempted(c, Status.Invalid), up)
  }

  /** A row that may settle the stored challenge `id`. */
  predicate Settles(d: Db, id: Id, row: Challenge) {
    && id in d.challenges && Unsettled(d.challenges[id])
    && row.authz == d.challenges[id].authz && row.kind == d.challenges[id].kind
    && d.challenges[id].attempts <= row.attempts <= MAX_ATTEMPTS
  }

  /** Having stored the row as processing first makes no difference to the end. */
  lemma ProcessingIsOverwritten(d: Db, id: Id, row: Challenge, last: Challenge, now: int)
    requires Linked(d) && id in d.challenges && row.authz == d.challenges[id].authz
    ensures var e := d.(challenges := d.challenges[id := row]);
      && AfterPass(e, id, last, now) == AfterPass(d, id, last, now)
      && AfterFailure(e, id, last) == AfterFailure(d, id, last)
  {
    var e := d.(challenges := d.challenges[id := row]);
    assert e.challenges[id := last] == d.challenges[id := last];
    LastHopeElsewhere(d, e, id);
    LastMissingElsewhere(d, e, row.authz);
  }

  /** When no store call fails, a validation ends as the network's answer says. */
  lemma ValidatedWhole(d: Db, account: string, id: Id, passes: bool, now: int, up: nat -> bool)
    requires Linked(d) && Eligible(d, account, id) && NoFailures(up)
    ensures var row := Attempted(d.challenges[id], if passes then Status.Valid else Status.Invalid);
      Validated(d, account, id, passes, now, up) ==
      if passes then AfterPass(d, id, row, now) else AfterFailure(d, id, row)
  {
    var c := d.challenges[id];
    var row := Attempted(c, if passes then Status.Valid else Status.Invalid);
    ProcessingIsOverwritten(d, id, Attempted(c, Processing), row, now);
    assert AuthzLinked(d, c.authz);
  }

  lemma LastHopeElsewhere(d: Db, e: Db, id: Id)
    requires id in d.challenges && id in e.challenges && e.challenges[id].authz == d.challenges[id].authz
    requires forall c :: c != id ==> (c in d.challenges <==> c in e.challenges)
    requires forall c :: c != id && c in d.challenges ==> e.challenges[c] == d.challenges[c]
    ensures LastHope(d, id) == LastHope(e, id)
  {
  }

  lemma LastMissingElsewhere(d: Db, e: Db, a: Id)
    requires a in d.authzs && a in e.authzs && e.authzs[a].order == d.authzs[a].order
    requires forall b :: b != a ==> (b in d.authzs <==> b in e.authzs)
    requires forall b :: b != a && b in d.authzs ==> e.authzs[b] == d.authzs[b]
    ensures LastMissing(d, a) == LastMissing(e, a)
  {
  }

  lemma AlwaysLinked(rules: Rules, h: History)
    requires Legal(rules, h)
    ensures Linked(State(h)) && StatusesInUse(State(h))
  {
    LegalRunInv(rules, h);
  }

  lemma LastHopeGone(d: Db, id: Id, row: Challenge)
    requires id in d.challenges && row.authz == d.challenges[id].authz && row.status == Status.Invalid
    ensures Exhausted(d.(challenges := d.challenges[id := row]), row.authz) <==> LastHope(d, id)
  {
    var e := d.(challenges := d.challenges[id := row]);
    if Exhausted(e, row.authz) {
      forall c | c in d.challenges && c != id && d.challenges[c].authz == row.authz
        ensures d.challenges[c].status == Status.Invalid
      {
        assert e.challenges[c] == d.challenges[c];
      }
    }
  }

  lemma LastMissingFound(d: Db, a: Id, row: Authz)
    requires a in d.authzs && row.order == d.authzs[a].order && row.status == Status.Valid
    ensures AllAuthzsValid(d.(authzs := d.authzs[a := row]), row.order) <==> LastMissing(d, a)
  {
    var e := d.(authzs := d.authzs[a := row]);
    if AllAuthzsValid(e, row.order) {
      forall b | b in d.authzs && b != a && d.authzs[b].order == row.order
        ensures d.authzs[b].status == Status.Valid
      {
        assert e.authzs[b] == d.authzs[b];
      }
    }
  }

  // ---- Table by table ----

  /** The account's own challenge, not yet settled and tried fewer than ten times. */
  predicate MayAttempt(d: Db, account: string, id: Id) {
    && id in d.challenges && d.challenges[id].authz in d.authzs
    && d.authzs[d.challenges[id].authz].account == account
    && (d.challenges[id].status == Pending || d.challenges[id].status == Processing)
    && d.challenges[id].attempts < 10
  }

  /** Every other challenge of the authorization has failed already. */
  ghost predicate OthersFailed(d: Db, id: Id, a: Id) {
    forall c :: c in d.challenges && d.challenges[c].authz == a && d.challenges[c].status != Status.Invalid ==> c == id
  }

  /** Every other authorization of the order is valid already. */
  ghost predicate OthersGranted(d: Db, a: Id, o: Id) {
    forall b :: b in d.authzs && d.authzs[b].order == o && d.authzs[b].status != Status.Valid ==> b == a
  }

  /** The attempt was counted, and is settled when its row could be saved. */
  predicate ChallengeSettled(d: Db, e: Db, id: Id, passes: bool, up: nat -> bool)
    requires id in d.challenges
  {
    var c := d.challenges[id];
    var status := if !up(4) then Processing else if passes then Status.Valid else Status.Invalid;
    e.challenges == if up(3) || up(4) then d.challenges[id := Challenge(c.authz, c.kind, status, c.attempts + 1)]
                    else d.challenges
  }

  /** A pass makes the authorization valid for thirty days; the last failure makes it invalid. */
  ghost predicate AuthorizationSettled(d: Db, e: Db, id: Id, a: Id, passes: bool, now: int, up: nat -> bool)
    requires a in d.authzs
  {
    if up(4) && up(5) && passes then
      e.authzs == d.authzs[a := d.authzs[a].(status := Status.Valid, expiresAt := now + 2592000)]
    else if up(4) && up(5) && up(6) && OthersFailed(d, id, a) then
      e.authzs == d.authzs[a := d.authzs[a].(status := Status.Invalid)]
    else e.authzs == d.authzs
  }

  /** A pass makes a pending order ready when the rest is valid; the last failure makes it invalid. */
  ghost predicate OrderSettled(d: Db, e: Db, id: Id, a: Id, o: Id, passes: bool, up: nat -> bool)
    requires o in d.orders
  {
    if !(up(4) && up(5) && up(6) && up(7) && up(8)) then e.orders == d.orders
    else if passes && d.orders[o].status == Pending && OthersGranted(d, a, o) then
      e.orders == d.orders[o := d.orders[o].(status := Ready)]
    else if !passes && OthersFailed(d, id, a) then e.orders == d.orders[o := d.orders[o].(status := Status.Invalid)]
    else e.orders == d.orders
  }

  /** What an attempt leaves in each table. */
  ghost predicate AttemptLeaves(d: Db, e: Db, id: Id, passes: bool, now: int, up: nat -> bool)
    requires Linked(d) && id in d.challenges
  {
    var a := d.challenges[id].authz;
    assert AuthzLinked(d, a);
    && ChallengeSettled(d, e, id, passes, up)
    && AuthorizationSettled(d, e, id, a, passes, now, up)
    && OrderSettled(d, e, id, a, d.authzs[a].order, passes, up)
    && e.passed == (if passes then d.passed + {id} else d.passed)
    && e.certificates == d.certificates && e.next == d.next
  }

  lemma LastOnesExactly(d: Db, id: Id)
    requires Linked(d) && id in d.challenges
    ensures LastHope(d, id) <==> OthersFailed(d, id, d.challenges[id].authz)
    ensures var a := d.challenges[id].authz; LastMissing(d, a) <==> OthersGranted(d, a, d.authzs[a].order)
  {
  }

  /** Marking the row as processing changes neither question. */
  lemma MarkedLastOnes(d: Db, id: Id, row: Challenge)
    requires Linked(d) && id in d.challenges && row.authz == d.challenges[id].authz
    ensures var e, a := d.(challenges := d.challenges[id := row]), row.authz;
      && (LastHope(e, id) <==> OthersFailed(d, id, a))
      && (LastMissing(e, a) <==> OthersGranted(d, a, d.authzs[a].order))
  {
    var e := d.(challenges := d.challenges[id := row]);
    LastOnesExactly(d, id);
    LastHopeElsewhere(d, e, id);
    LastMissingElsewhere(d, e, row.authz);
  }

  lemma AttemptLeavesExactly(d: Db, account: string, id: Id, passes: bool, now: int, up: nat -> bool)
    requires Linked(d) && Eligible(d, account, id) && up(0) && up(1) && up(2)
    ensures AttemptLeaves(d, Validated(d, account, id, passes, now, up), id, passes, now, up)
  {
    var c := d.challenges[id];
    assert AuthzLinked(d, c.authz);
    MarkedLastOnes(d, id, Attempted(c, Processing));
    LastOnesExactly(d, id);
    var marked := if up(3) then d.(challenges := d.challenges[id := Attempted(c, Processing)]) else d;
    var row := Attempted(c, if passes then Status.Valid else Status.Invalid);
    assert marked.challenges[id := row] == d.challenges[id := row];
  }

  /** A request that attempts nothing is answered by the first of these that applies. */
  predicate AnsweredUnattempted(d: Db, account: string, id: Id, up: nat -> bool, r: Outcome<Challenge>) {
    if !up(0) || id !in d.challenges then r == Fail(Malformed)
    else
      var c := d.challenges[id];
      if !up(1) || c.authz !in d.authzs then r == Fail(ServerInternal)
      else if d.authzs[c.authz].account != account then r == Fail(Unauthorized)
      else if c.status == Status.Valid || c.status == Status.Invalid then r == Ok(c)
      else if c.attempts >= 10 then r == Fail(RateLimited)
      else r == Fail(ServerInternal)
  }

  /** The tables and the answer. */
  ghost predicate ValidationReached(d: Db, e: Db, account: string, id: Id, passes: bool, now: int, up: nat -> bool,
      r: Outcome<Challenge>)
  {
    if MayAttempt(d, account, id) && up(0) && up(1) && up(2) then
      && Linked(d) && AttemptLeaves(d, e, id, passes, now, up)
      && var c := d.challenges[id];
      && r == if passes && !(up(4) && up(5)) then Fail(ServerInternal)
              else Ok(Challenge(c.authz, c.kind, if passes then Status.Valid else Status.Invalid, c.attempts + 1))
    else e == d && AnsweredUnattempted(d, account, id, up, r)
  }

  lemma ValidatedExactly(d: Db, account: string, id: Id, passes: bool, now: int, up: nat -> bool)
    requires Linked(d)
    ensures Eligible(d, account, id) <==> MayAttempt(d, account, id)
    ensures if MayAttempt(d, account, id) && up(0) && up(1) && up(2)
      then AttemptLeaves(d, Validated(d, account, id, passes, now, up), id, passes, now, up)
      else Validated(d, account, id, passes, now, up) == d
  {
    if MayAttempt(d, account, id) && up(0) && up(1) && up(2) {
      AttemptLeavesExactly(d, account, id, passes, now, up);
    }
  }
}
