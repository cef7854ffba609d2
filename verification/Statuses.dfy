/** The expiry scan: it looks only at certificates near their end, yet leaves every status right. */
module Statuses {
  import opened PkiTables

  /** The status says nothing about the dates that is not so at `now`. */
  predicate Truthful(c: Certificate, warnDays: int, now: int) {
    && (c.status == Expiring ==> now + warnDays * DAY > c.notAfter)
    && (c.status == Expired ==> now > c.notAfter)
  }

  predicate AllTruthful(d: Db, warnDays: int, now: int) {
    forall c :: c in d.certificates ==> Truthful(d.certificates[c], warnDays, now)
  }

  lemma TruthfulKept(warnDays: nat, d: Db, step: Step, now: int)
    requires AllTruthful(d, warnDays, now) && now <= step.now && Enabled(d, step)
    ensures AllTruthful(Apply(warnDays, d, step), warnDays, step.now)
  {
    var e := Apply(warnDays, d, step);
    forall c | c in e.certificates
      ensures Truthful(e.certificates[c], warnDays, step.now)
    {
      assert c in d.certificates ==> Truthful(d.certificates[c], warnDays, now);
    }
  }

  lemma {:induction false} AlwaysTruthful(warnDays: nat, h: History, now: int)
    requires Legal(warnDays, h) && ClockedUntil(h, now)
    ensures AllTruthful(State(warnDays, h), warnDays, now)
  {
    if h.Then? {
      AlwaysTruthful(warnDays, h.past, h.step.now);
      TruthfulKept(warnDays, State(warnDays, h.past), h.step, h.step.now);
    }
  }

  function Recomputed(d: Db, warnDays: int, now: int): Db {
    d.(certificates := map c | c in d.certificates ::
      d.certificates[c].(status := DeriveStatus(d.certificates[c], warnDays, now)))
  }

  /** A certificate the scan passes over although its status would change. */
  predicate Missed(c: Certificate, warnDays: int, now: int) {
    !Scanned(c, warnDays, now) && (c.status == Expiring || c.status == Expired)
  }

  /** The scan does what recomputing every row would exactly when nothing outside its range is marked as running out. */
  lemma ScanRecomputesExactly(d: Db, warnDays: nat, now: int)
    ensures AfterScan(warnDays, d, now) == Recomputed(d, warnDays, now) <==>
      forall c :: c in d.certificates ==> !Missed(d.certificates[c], warnDays, now)
  {
    var scanned, all := AfterScan(warnDays, d, now), Recomputed(d, warnDays, now);
    forall c | c in d.certificates
      ensures scanned.certificates[c] == all.certificates[c] <==> !Missed(d.certificates[c], warnDays, now)
    {
      ScanOneExactly(d.certificates[c], warnDays, now);
    }
    if forall c :: c in d.certificates ==> !Missed(d.certificates[c], warnDays, now) {
      assert scanned.certificates == all.certificates;
    }
  }

  lemma ScanOneExactly(c: Certificate, warnDays: nat, now: int)
    ensures !Scanned(c, warnDays, now) ==> (c.status == DeriveStatus(c, warnDays, now) <==> !Missed(c, warnDays, now))
  {
  }

  /** In every run with fixed warning days the scan leaves each certificate as full recomputation would. */
  lemma ScanRefinesRecomputation(warnDays: nat, h: History, now: int)
    requires Legal(warnDays, h) && ClockedUntil(h, now)
    ensures AfterScan(warnDays, State(warnDays, h), now) == Recomputed(State(warnDays, h), warnDays, now)
  {
    var d := State(warnDays, h);
    AlwaysTruthful(warnDays, h, now);
    forall c | c in d.certificates
      ensures !Missed(d.certificates[c], warnDays, now)
    {
      assert Truthful(d.certificates[c], warnDays, now);
    }
    ScanRecomputesExactly(d, warnDays, now);
  }

  // ---- What the clock says ----

  /** A certificate past its end is expired, one whose end is within the warning days expiring, any other active. */
  predicate AsTheClockSays(c: Certificate, status: Status, warnDays: int, now: int) {
    && (status == Expired <==> now > c.notAfter)
    && (status == Expiring <==> now <= c.notAfter < now + warnDays * 86400)
    && (status == Active <==> now + warnDays * 86400 <= c.notAfter)
  }

  /** Held and revoked rows are as they were, and any other differs at most in its status, which is right. */
  predicate RightRow(was: Certificate, row: Certificate, warnDays: int, now: int) {
    if was.status == Held || was.status == Revoked then row == was
    else row == was.(status := row.status) && AsTheClockSays(was, row.status, warnDays, now)
  }

  predicate AllRight(before: map<Id, Certificate>, after: map<Id, Certificate>, warnDays: int, now: int) {
    before.Keys == after.Keys && forall c :: c in before ==> RightRow(before[c], after[c], warnDays, now)
  }

  /** The rows in `done` are right, and the others as they were. */
  predicate RightIn(before: map<Id, Certificate>, after: map<Id, Certificate>, done: set<Id>, warnDays: int, now: int) {
    && before.Keys == after.Keys
    && forall c :: c in before ==>
         if c in done then RightRow(before[c], after[c], warnDays, now) else after[c] == before[c]
  }

  lemma DerivedAsTheClockSays(c: Certificate, warnDays: nat, now: int)
    ensures c.status == Held || c.status == Revoked ==> DeriveStatus(c, warnDays, now) == c.status
    ensures c.status != Held && c.status != Revoked ==>
      AsTheClockSays(c, DeriveStatus(c, warnDays, now), warnDays, now)
  {
  }

  /**
   In every run with fixed warning days, the scan leaves held and revoked certificates alone and
   gives every other one the status its dates have at that moment, and changes nothing else.
   */
  lemma ScanFollowsTheClock(warnDays: nat, h: History, now: int)
    requires Legal(warnDays, h) && ClockedUntil(h, now)
    ensures var d, e := State(warnDays, h), AfterScan(warnDays, State(warnDays, h), now);
      && AllRight(d.certificates, e.certificates, warnDays, now)
      && e.authorities == d.authorities && e.revocations == d.revocations && e.next == d.next
  {
    var d := State(warnDays, h);
    ScanRefinesRecomputation(warnDays, h, now);
    forall c | c in d.certificates
      ensures RightRow(d.certificates[c], AfterScan(warnDays, d, now).certificates[c], warnDays, now)
    {
      DerivedAsTheClockSays(d.certificates[c], warnDays, now);
    }
  }

  /** A lifted hold comes back with the status its dates have at that moment. */
  lemma LiftedFollowsTheClock(warnDays: nat, d: Db, c: Id, now: int)
    requires c in d.certificates
    ensures var e := WithLifted(warnDays, d, c, now);
      && e == d.(certificates := d.certificates[c := d.certificates[c].(status := e.certificates[c].status)])
      && AsTheClockSays(d.certificates[c], e.certificates[c].status, warnDays, now)
  {
    DerivedAsTheClockSays(d.certificates[c].(status := Active), warnDays, now);
  }

  /** Lowering the warning days leaves rows behind that the scan no longer reaches. */
  lemma LoweredWarningIsMissed(c: Certificate, before: nat, after: nat, now: int)
    requires c.status == Expiring && Truthful(c, before, now) && now + after * DAY < c.notAfter
    ensures after < before && Missed(c, after, now) && DeriveStatus(c, after, now) == Active
  {
  }
}
