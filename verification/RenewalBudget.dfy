/**
 How often a lineage can renew when its certificates are also edited, renewed for other lives,
 or left renewing after their replacement was stored.
 */
module RenewalBudget {
  import opened Runs
  import opened PkiTables
  import opened Renewals

  /** A span of time, and a gap every replacement in it keeps. */
  datatype Span = Span(from: int, end: int, gap: int) {
    predicate Ok() {
      gap > 0 && from <= end
    }
  }

  // ---- How often one row can fall due ----

  /** When a row falls due, if it renews automatically. */
  function DueFrom(c: Certificate): int {
    c.notAfter - c.renewBefore * DAY
  }

  /** How many gaps fit into so much time. */
  function Fits(time: int, gap: int): nat
    requires gap > 0
    decreases time
  {
    if time < gap then 0 else Fits(time - gap, gap) + 1
  }

  lemma {:induction false} FitsInTime(time: int, gap: int)
    requires time >= 0 && gap > 0
    ensures Gaps(Fits(time, gap), gap) <= time
    decreases time
  {
    if time >= gap {
      FitsInTime(time - gap, gap);
    }
  }

  lemma FitsAtMostQuotient(time: int, gap: int)
    requires time >= 0 && gap > 0
    ensures Fits(time, gap) <= time / gap
  {
    var k := Fits(time, gap);
    FitsInTime(time, gap);
    GapsProduct(k, gap);
    SpanBound(k + 1, gap, time);
  }

  function Full(s: Span): (n: nat)
    requires s.Ok()
    ensures n >= 1
  {
    Fits(s.end - s.from, s.gap) + 1
  }

  /** How many renewals a gap apart fit between the moment a row falls due and the end of the span. */
  function Room(at: int, s: Span): nat
    requires s.Ok()
  {
    if at >= s.end then 0 else Fits(s.end - if at < s.from then s.from else at, s.gap) + 1
  }

  lemma {:induction false} MoreGaps(x: int, y: int, gap: int)
    requires x <= y && gap > 0
    ensures Fits(x, gap) <= Fits(y, gap)
    decreases y
  {
    if y >= gap {
      MoreGaps(x - gap, y - gap, gap);
    }
  }

  lemma RoomShrinks(at: int, later: int, s: Span)
    requires s.Ok() && at <= later
    ensures Room(later, s) <= Room(at, s) <= Full(s)
  {
    var x, y := if at < s.from then s.from else at, if later < s.from then s.from else later;
    if at < s.end {
      MoreGaps(s.end - x, s.end - s.from, s.gap);
      if later < s.end {
        MoreGaps(s.end - y, s.end - x, s.gap);
      }
    }
  }

  /** Renewing a due row uses up one of its renewals. */
  lemma RoomUsed(at: int, now: int, later: int, s: Span)
    requires s.Ok() && at < now && s.from <= now <= s.end && later >= now + s.gap
    ensures Room(later, s) + 1 <= Room(at, s) <= Full(s)
  {
    var x := if at < s.from then s.from else at;
    RoomShrinks(at, at, s);
    if later < s.end {
      assert Fits(s.end - later + s.gap, s.gap) == Fits(s.end - later, s.gap) + 1;
      MoreGaps(s.end - later + s.gap, s.end - x, s.gap);
    }
  }

  // ---- What is left to a lineage ----

  /** What is left to one row; the founding row may have any dates. */
  function Share(d: Db, members: set<Id>, root: Id, s: Span, c: Id): nat
    requires s.Ok()
  {
    if c !in Auto(d, members) then 0
    else if c == root then Full(s)
    else Room(DueFrom(d.certificates[c]), s)
  }

  /** What is left to the rows below `n`. */
  function Total(d: Db, members: set<Id>, root: Id, s: Span, n: nat): nat
    requires s.Ok()
  {
    if n == 0 then 0 else Total(d, members, root, s, n - 1) + Share(d, members, root, s, n - 1)
  }

  /** No row has more left than before. */
  predicate NoneGains(d: Db, before: set<Id>, e: Db, after: set<Id>, root: Id, s: Span, n: nat)
    requires s.Ok()
  {
    forall c: Id :: c < n ==> Share(e, after, root, s, c) <= Share(d, before, root, s, c)
  }

  lemma {:induction false} TotalFalls(d: Db, before: set<Id>, e: Db, after: set<Id>, root: Id, s: Span, n: nat)
    requires s.Ok() && NoneGains(d, before, e, after, root, s, n)
    ensures Total(e, after, root, s, n) <= Total(d, before, root, s, n)
  {
    if n > 0 {
      assert forall c: Id :: c < n - 1 ==> Share(e, after, root, s, c) <= Share(d, before, root, s, c);
      TotalFalls(d, before, e, after, root, s, n - 1);
      assert Share(e, after, root, s, n - 1) <= Share(d, before, root, s, n - 1);
    }
  }

  /** No row but one has more left, and that one at most so much more. */
  predicate OneGains(d: Db, before: set<Id>, e: Db, after: set<Id>, root: Id, s: Span, id: Id, more: int, n: nat)
    requires s.Ok()
  {
    && (forall c: Id :: c < n && c != id ==> Share(e, after, root, s, c) <= Share(d, before, root, s, c))
    && Share(e, after, root, s, id) <= Share(d, before, root, s, id) + more
  }

  lemma {:induction false} TotalMoves(d: Db, before: set<Id>, e: Db, after: set<Id>, root: Id, s: Span, id: Id,
      more: int, n: nat)
    requires s.Ok() && id < n && OneGains(d, before, e, after, root, s, id, more, n)
    ensures Total(e, after, root, s, n) <= Total(d, before, root, s, n) + more
  {
    if n - 1 == id {
      assert NoneGains(d, before, e, after, root, s, n - 1);
      TotalFalls(d, before, e, after, root, s, n - 1);
    } else {
      TotalMoves(d, before, e, after, root, s, id, more, n - 1);
    }
  }

  // ---- The terms of the stored rows ----

  predicate TermsOk(d: Db) {
    forall c :: c in d.certificates ==> d.certificates[c].validityDays >= 1 && d.certificates[c].renewBefore >= 1
  }

  lemma TermsKept(warnDays: int, d: Db, step: Step)
    requires TermsOk(d) && Enabled(d, step)
    ensures TermsOk(Apply(warnDays, d, step))
  {
  }

  /** A replacement was made by now, so it ends no later than its life from now. */
  predicate EndsInTime(c: Certificate, clock: int) {
    c.notAfter <= clock - CLOCK_SKEW + c.validityDays * DAY
  }

  predicate MembersEndInTime(d: Db, members: set<Id>, root: Id, clock: int) {
    forall c :: c in members && c in d.certificates && c != root ==> EndsInTime(d.certificates[c], clock)
  }

  lemma EndsKept(warnDays: int, d: Db, step: Step, members: set<Id>, root: Id, clock: int)
    requires MembersOlder(d, members) && MembersEndInTime(d, members, root, clock) && clock <= step.now
    requires Enabled(d, step)
    ensures MembersEndInTime(Apply(warnDays, d, step), WithReplacement(d, step, members), root, step.now)
  {
    var e, more := Apply(warnDays, d, step), WithReplacement(d, step, members);
    forall c | c in more && c in e.certificates && c != root
      ensures EndsInTime(e.certificates[c], step.now)
    {
      assert c in members && c in d.certificates ==> EndsInTime(d.certificates[c], clock);
    }
  }

  // ---- One step ----

  /** The replacement of an auto-renewing member is stored at least a gap before it falls due. */
  predicate SpacedStep(d: Db, members: set<Id>, step: Step, gap: int) {
    step.Renew? && step.id in Auto(d, members) ==>
      var r := Renewed(d.certificates[step.id], step.id, step.serial, step.days, step.now);
      Gap(r.validityDays, r.renewBefore) >= gap
  }

  lemma ReplacementDueFrom(c: Certificate, id: Id, serial: string, days: int, now: int)
    ensures var r := Renewed(c, id, serial, days, now); DueFrom(r) == now + Gap(r.validityDays, r.renewBefore)
  {
  }

  /** The row a step renews has a life and a window, and unless it founded the lineage ends in time. */
  predicate Timed(d: Db, members: set<Id>, root: Id, step: Step, clock: int) {
    step.Renew? && step.id in Auto(d, members) ==>
      var c := d.certificates[step.id];
      c.validityDays >= 1 && c.renewBefore >= 1 && (step.id != root ==> EndsInTime(c, clock))
  }

  /** Renewed for its own life, a row is replaced by one that falls due no sooner. */
  lemma NoSooner(c: Certificate, id: Id, serial: string, days: int, now: int, clock: int)
    requires c.autoRenew && c.validityDays >= 1 && c.renewBefore >= 1 && EndsInTime(c, clock) && clock <= now
    requires LifeOf(c, days) == c.validityDays
    requires var r := Renewed(c, id, serial, days, now); Gap(r.validityDays, r.renewBefore) > 0
    ensures DueFrom(Renewed(c, id, serial, days, now)) >= DueFrom(c)
  {
  }

  /** What a replacement has left, and the renewal that made it, come out of what the replaced row had. */
  lemma ReplacedWithin(d: Db, members: set<Id>, root: Id, s: Span, step: Step, clock: int)
    requires s.Ok() && Timed(d, members, root, step, clock) && clock <= step.now <= s.end
    requires step.Renew? && step.id in Auto(d, members) && SpacedStep(d, members, step, s.gap)
    requires LifeOf(d.certificates[step.id], step.days) == d.certificates[step.id].validityDays
    ensures var r := Renewed(d.certificates[step.id], step.id, step.serial, step.days, step.now);
      Room(DueFrom(r), s) + Counted(d, members, step, s.from) <= Share(d, members, root, s, step.id)
  {
    var c := d.certificates[step.id];
    var r := Renewed(c, step.id, step.serial, step.days, step.now);
    ReplacementDueFrom(c, step.id, step.serial, step.days, step.now);
    RoomShrinks(DueFrom(r), DueFrom(r), s);
    if Counted(d, members, step, s.from) == 1 {
      RoomUsed(DueFrom(c), step.now, DueFrom(r), s);
    } else if step.id != root {
      NoSooner(c, step.id, step.serial, step.days, step.now, clock);
      RoomShrinks(DueFrom(c), DueFrom(r), s);
    }
  }

  /** Whatever life is asked for, a replacement and the renewal that made it take at most a whole share. */
  lemma ReplacementWithinFull(d: Db, members: set<Id>, s: Span, step: Step)
    requires s.Ok() && step.now <= s.end
    requires step.Renew? && step.id in Auto(d, members) && SpacedStep(d, members, step, s.gap)
    ensures var r := Renewed(d.certificates[step.id], step.id, step.serial, step.days, step.now);
      Room(DueFrom(r), s) + Counted(d, members, step, s.from) <= Full(s)
  {
    var c := d.certificates[step.id];
    var r := Renewed(c, step.id, step.serial, step.days, step.now);
    ReplacementDueFrom(c, step.id, step.serial, step.days, step.now);
    RoomShrinks(DueFrom(r), DueFrom(r), s);
    if Counted(d, members, step, s.from) == 1 {
      RoomUsed(DueFrom(c), step.now, DueFrom(r), s);
    }
  }

  /** The tables after a renewal. */
  function AfterStep(d: Db, step: Step): Db
    requires step.Renew?
  {
    AfterRenew(d, step.id, step.serial, step.days, step.cleared, step.now)
  }

  lemma OthersKeepShare(d: Db, members: set<Id>, root: Id, s: Span, step: Step, c: Id)
    requires s.Ok() && MembersOlder(d, members) && step.Renew? && step.id in d.certificates && step.id < d.next
    requires c < d.next && c != step.id
    ensures Share(AfterStep(d, step), WithReplacement(d, step, members), root, s, c) == Share(d, members, root, s, c)
  {
    AutoAfterRenew(d, members, step.id, step.serial, step.days, step.cleared, step.now, c);
  }

  lemma RenewedShares(d: Db, members: set<Id>, root: Id, s: Span, step: Step)
    requires s.Ok() && MembersOlder(d, members) && step.Renew? && step.id in Auto(d, members) && root < d.next
    ensures var e, more := AfterStep(d, step), WithReplacement(d, step, members);
      && Share(e, more, root, s, step.id) == (if step.cleared then 0 else Share(d, members, root, s, step.id))
      && Share(e, more, root, s, d.next) ==
           Room(DueFrom(Renewed(d.certificates[step.id], step.id, step.serial, step.days, step.now)), s)
  {
    AutoAfterRenew(d, members, step.id, step.serial, step.days, step.cleared, step.now, step.id);
    AutoAfterRenew(d, members, step.id, step.serial, step.days, step.cleared, step.now, d.next);
  }

  lemma HeadRenewedWithin(d: Db, members: set<Id>, root: Id, s: Span, step: Step, clock: int)
    requires s.Ok() && MembersOlder(d, members) && root < d.next && clock <= step.now <= s.end
    requires Timed(d, members, root, step, clock)
    requires step.Renew? && step.id in Auto(d, members) && SpacedStep(d, members, step, s.gap)
    ensures Total(AfterStep(d, step), WithReplacement(d, step, members), root, s, d.next + 1)
        + Counted(d, members, step, s.from)
      <= Total(d, members, root, s, d.next) + if CalmStep(d, members, step) then 0 else Full(s)
  {
    var e, more := AfterStep(d, step), WithReplacement(d, step, members);
    var mine: int := Share(d, members, root, s, step.id);
    RenewedShares(d, members, root, s, step);
    forall c: Id | c < d.next && c != step.id
      ensures Share(e, more, root, s, c) <= Share(d, members, root, s, c)
    {
      OthersKeepShare(d, members, root, s, step, c);
    }
    TotalMoves(d, members, e, more, root, s, step.id, if step.cleared then -mine else 0, d.next);
    if CalmStep(d, members, step) {
      ReplacedWithin(d, members, root, s, step, clock);
    } else {
      ReplacementWithinFull(d, members, s, step);
    }
  }

  lemma BystanderWithin(d: Db, members: set<Id>, root: Id, s: Span, step: Step)
    requires s.Ok() && MembersOlder(d, members) && CertificatesOlder(d)
    requires step.Renew? && step.id in d.certificates && step.id !in Auto(d, members)
    ensures Total(AfterStep(d, step), WithReplacement(d, step, members), root, s, d.next + 1)
      <= Total(d, members, root, s, d.next)
    ensures Counted(d, members, step, s.from) == 0
  {
    var e, more := AfterStep(d, step), WithReplacement(d, step, members);
    forall c: Id | c < d.next
      ensures Share(e, more, root, s, c) <= Share(d, members, root, s, c)
    {
      AutoAfterRenew(d, members, step.id, step.serial, step.days, step.cleared, step.now, c);
    }
    AutoAfterRenew(d, members, step.id, step.serial, step.days, step.cleared, step.now, d.next);
    TotalFalls(d, members, e, more, root, s, d.next);
  }

  lemma CalmShare(warnDays: int, d: Db, members: set<Id>, root: Id, s: Span, step: Step, c: Id)
    requires s.Ok() && MembersOlder(d, members) && Enabled(d, step) && CalmStep(d, members, step) && !step.Renew?
    ensures Share(Apply(warnDays, d, step), members, root, s, c) <= Share(d, members, root, s, c)
  {
    if c in Auto(Apply(warnDays, d, step), members) {
      OtherStepsAddNoHead(warnDays, d, step, members, c);
    }
  }

  lemma EditedShare(warnDays: int, d: Db, members: set<Id>, root: Id, s: Span, step: Step, c: Id)
    requires s.Ok() && step.Edit? && Enabled(d, step)
    ensures Share(Apply(warnDays, d, step), members, root, s, c) <=
      if c == step.id then Full(s) else Share(d, members, root, s, c)
  {
    var e := Apply(warnDays, d, step);
    if c == step.id && c in Auto(e, members) {
      RoomShrinks(DueFrom(e.certificates[c]), DueFrom(e.certificates[c]), s);
    }
  }

  lemma OtherStepWithin(warnDays: int, d: Db, members: set<Id>, root: Id, s: Span, step: Step)
    requires s.Ok() && MembersOlder(d, members) && CertificatesOlder(d) && Enabled(d, step) && !step.Renew?
    ensures Total(Apply(warnDays, d, step), members, root, s, d.next)
      <= Total(d, members, root, s, d.next) + if CalmStep(d, members, step) then 0 else Full(s)
  {
    var e := Apply(warnDays, d, step);
    if CalmStep(d, members, step) {
      forall c: Id | c < d.next
        ensures Share(e, members, root, s, c) <= Share(d, members, root, s, c)
      {
        CalmShare(warnDays, d, members, root, s, step, c);
      }
      TotalFalls(d, members, e, members, root, s, d.next);
    } else {
      forall c: Id
        ensures Share(e, members, root, s, c) <= if c == step.id then Full(s) else Share(d, members, root, s, c)
      {
        EditedShare(warnDays, d, members, root, s, step, c);
      }
      TotalMoves(d, members, e, members, root, s, step.id, Full(s), d.next);
    }
  }

  lemma NothingBeyond(d: Db, members: set<Id>, root: Id, s: Span, n: nat, m: nat)
    requires s.Ok() && n <= m <= n + 1 && forall c :: c in members ==> c < n
    ensures Total(d, members, root, s, m) == Total(d, members, root, s, n)
  {
  }

  /** What a step leaves to the lineage, with the renewal it was, is within what was left and what it adds. */
  predicate Within(d: Db, members: set<Id>, e: Db, root: Id, s: Span, step: Step)
    requires s.Ok()
  {
    Total(e, WithReplacement(d, step, members), root, s, e.next) + Counted(d, members, step, s.from)
    <= Total(d, members, root, s, d.next) + if CalmStep(d, members, step) then 0 else Full(s)
  }

  lemma RenewWithin(d: Db, members: set<Id>, root: Id, s: Span, step: Step, clock: int)
    requires s.Ok() && MembersOlder(d, members) && CertificatesOlder(d) && root < d.next
    requires Timed(d, members, root, step, clock) && clock <= step.now <= s.end
    requires step.Renew? && step.id in d.certificates && SpacedStep(d, members, step, s.gap)
    ensures Within(d, members, AfterStep(d, step), root, s, step)
  {
    if step.id in Auto(d, members) {
      HeadRenewedWithin(d, members, root, s, step, clock);
    } else {
      BystanderWithin(d, members, root, s, step);
    }
  }

  lemma OtherWithin(warnDays: int, d: Db, members: set<Id>, root: Id, s: Span, step: Step)
    requires s.Ok() && MembersOlder(d, members) && CertificatesOlder(d) && Enabled(d, step) && !step.Renew?
    ensures Within(d, members, Apply(warnDays, d, step), root, s, step)
  {
    OtherStepWithin(warnDays, d, members, root, s, step);
    NextMoves(warnDays, d, step);
    NothingBeyond(Apply(warnDays, d, step), members, root, s, d.next, Apply(warnDays, d, step).next);
  }

  lemma StepWithin(warnDays: int, d: Db, members: set<Id>, root: Id, s: Span, step: Step, clock: int)
    requires s.Ok() && MembersOlder(d, members) && CertificatesOlder(d) && root < d.next
    requires Timed(d, members, root, step, clock) && clock <= step.now <= s.end
    requires Enabled(d, step) && SpacedStep(d, members, step, s.gap)
    ensures Within(d, members, Apply(warnDays, d, step), root, s, step)
  {
    if step.Renew? {
      RenewWithin(d, members, root, s, step, clock);
      assert Apply(warnDays, d, step) == AfterStep(d, step);
    } else {
      OtherWithin(warnDays, d, members, root, s, step);
    }
  }

  lemma NextMoves(warnDays: int, d: Db, step: Step)
    ensures d.next <= Apply(warnDays, d, step).next <= d.next + 1
  {
  }

  // ---- Runs ----

  /** Every replacement of an auto-renewing member of the lineage is stored at least a gap before it falls due. */
  ghost predicate Spaced(warnDays: int, h: History, root: Id, gap: int) {
    h.Then? ==>
      && Spaced(warnDays, h.past, root, gap)
      && SpacedStep(State(warnDays, h.past), Lineage(warnDays, h.past, root), h.step, gap)
  }

  /** The steps that left the lineage on other terms, or with one more certificate that renews. */
  ghost function Disturbances(warnDays: int, h: History, root: Id): nat {
    match h
    case Start => 0
    case Then(past, step) =>
      Disturbances(warnDays, past, root)
      + if CalmStep(State(warnDays, past), Lineage(warnDays, past, root), step) then 0 else 1
  }

  /** One if the lineage began with automatic renewal. */
  ghost function Heads(warnDays: int, h: History, root: Id): nat {
    var founder := Founder(warnDays, h, root);
    if founder.Some? && founder.value.autoRenew then 1 else 0
  }

  ghost predicate InTime(warnDays: int, h: History, root: Id, clock: int) {
    MembersEndInTime(State(warnDays, h), Lineage(warnDays, h, root), root, clock)
  }

  /** The renewals made, and those the lineage has left. */
  ghost function Spent(warnDays: int, h: History, root: Id, s: Span): nat
    requires s.Ok()
  {
    var d := State(warnDays, h);
    RenewalsSince(warnDays, h, root, s.from) + Total(d, Lineage(warnDays, h, root), root, s, d.next)
  }

  /** So many whole shares. */
  function Shares(n: nat, s: Span): nat
    requires s.Ok()
  {
    if n == 0 then 0 else Shares(n - 1, s) + Full(s)
  }

  lemma {:induction false} SharesProduct(n: nat, s: Span)
    requires s.Ok()
    ensures Shares(n, s) == n * Full(s)
  {
    if n > 0 {
      SharesProduct(n - 1, s);
      assert n * Full(s) == (n - 1) * Full(s) + Full(s);
    }
  }

  lemma {:induction false} NoMembersNoTotal(d: Db, root: Id, s: Span, n: nat)
    requires s.Ok()
    ensures Total(d, {}, root, s, n) == 0
  {
    if n > 0 {
      NoMembersNoTotal(d, root, s, n - 1);
    }
  }

  lemma {:induction false} AlwaysTermsOk(warnDays: int, h: History)
    requires Legal(warnDays, h)
    ensures TermsOk(State(warnDays, h))
  {
    if h.Then? {
      AlwaysTermsOk(warnDays, h.past);
      TermsKept(warnDays, State(warnDays, h.past), h.step);
    }
  }

  lemma {:induction false} NothingBelow(d: Db, root: Id, s: Span, n: nat)
    requires s.Ok() && n <= root
    ensures Total(d, {root}, root, s, n) == 0
  {
    if n > 0 {
      NothingBelow(d, root, s, n - 1);
    }
  }

  lemma TotalOfRoot(d: Db, root: Id, s: Span)
    requires s.Ok()
    ensures Total(d, {root}, root, s, root + 1) ==
      if root in d.certificates && d.certificates[root].autoRenew then Full(s) else 0
  {
    NothingBelow(d, root, s, root);
  }

  /** The step that begins the lineage leaves it one share, or none. */
  lemma BeginningSpends(warnDays: int, past: History, step: Step, root: Id, s: Span, spent: nat)
    requires s.Ok() && Begins(warnDays, past, step, root) && spent == Spent(warnDays, Then(past, step), root, s)
    ensures spent <= Shares(Heads(warnDays, Then(past, step), root), s)
  {
    NothingBeforeItsTime(warnDays, past, root, s.from);
    BeginningNext(warnDays, past, step, root);
    TotalOfRoot(State(warnDays, Then(past, step)), root, s);
  }

  lemma BeginningNext(warnDays: int, past: History, step: Step, root: Id)
    requires Begins(warnDays, past, step, root)
    ensures State(warnDays, Then(past, step)).next == root + 1
  {
    AlwaysCertificatesOlder(warnDays, Then(past, step));
    NextMoves(warnDays, State(warnDays, past), step);
  }

  /** A lineage not begun has nothing left and nothing spent. */
  lemma NotBegunSpends(warnDays: int, h: History, root: Id, s: Span)
    requires s.Ok() && root >= State(warnDays, h).next
    ensures Spent(warnDays, h, root, s) == 0
  {
    NothingBeforeItsTime(warnDays, h, root, s.from);
    NoMembersNoTotal(State(warnDays, h), root, s, State(warnDays, h).next);
  }

  /** Its identifier went to a row of another table. */
  lemma NeverBeginsSpends(warnDays: int, past: History, step: Step, root: Id, s: Span)
    requires s.Ok() && !Begins(warnDays, past, step, root) && root >= State(warnDays, past).next
    ensures Spent(warnDays, Then(past, step), root, s) == 0
  {
    var e := State(warnDays, Then(past, step));
    NothingBeforeItsTime(warnDays, past, root, s.from);
    NoMembersNoTotal(e, root, s, e.next);
  }

  lemma StepKeepsTime(warnDays: int, past: History, step: Step, root: Id, clock: int)
    requires Legal(warnDays, Then(past, step)) && InTime(warnDays, past, root, clock)
    requires clock <= step.now && root < State(warnDays, past).next
    ensures InTime(warnDays, Then(past, step), root, step.now)
  {
    AlwaysMembersOlder(warnDays, past, root);
    EndsKept(warnDays, State(warnDays, past), step, Lineage(warnDays, past, root), root, clock);
  }

  lemma {:induction false} AlwaysInTime(warnDays: int, h: History, root: Id, now: int)
    requires Legal(warnDays, h) && ClockedUntil(h, now)
    ensures InTime(warnDays, h, root, now)
  {
    if root >= State(warnDays, h).next {
      NothingBeforeItsTime(warnDays, h, root, 0);
    } else if root >= State(warnDays, h.past).next {
      NothingBeforeItsTime(warnDays, h.past, root, 0);
    } else {
      AlwaysInTime(warnDays, h.past, root, h.step.now);
      StepKeepsTime(warnDays, h.past, h.step, root, h.step.now);
    }
  }

  lemma AlwaysTimed(warnDays: int, h: History, root: Id, step: Step, clock: int)
    requires Legal(warnDays, h) && ClockedUntil(h, clock)
    ensures Timed(State(warnDays, h), Lineage(warnDays, h, root), root, step, clock)
  {
    AlwaysInTime(warnDays, h, root, clock);
    AlwaysTermsOk(warnDays, h);
  }

  lemma StepSpends(warnDays: int, past: History, step: Step, root: Id, s: Span)
    requires s.Ok() && Legal(warnDays, Then(past, step)) && ClockedUntil(past, step.now) && step.now <= s.end
    requires root < State(warnDays, past).next
    requires SpacedStep(State(warnDays, past), Lineage(warnDays, past, root), step, s.gap)
    ensures
      Within(State(warnDays, past), Lineage(warnDays, past, root), State(warnDays, Then(past, step)), root, s, step)
  {
    AlwaysCertificatesOlder(warnDays, past);
    AlwaysMembersOlder(warnDays, past, root);
    AlwaysTimed(warnDays, past, root, step, step.now);
    StepWithin(warnDays, State(warnDays, past), Lineage(warnDays, past, root), root, s, step, step.now);
  }

  lemma WithinSpends(warnDays: int, past: History, step: Step, root: Id, s: Span)
    requires s.Ok() && root < State(warnDays, past).next
    requires
      Within(State(warnDays, past), Lineage(warnDays, past, root), State(warnDays, Then(past, step)), root, s, step)
    ensures Spent(warnDays, Then(past, step), root, s) <= Spent(warnDays, past, root, s)
      + if CalmStep(State(warnDays, past), Lineage(warnDays, past, root), step) then 0 else Full(s)
  {
  }

  lemma HeadsStay(warnDays: int, past: History, step: Step, root: Id)
    requires root < State(warnDays, past).next
    ensures Heads(warnDays, Then(past, step), root) == Heads(warnDays, past, root)
    ensures Disturbances(warnDays, Then(past, step), root) == Disturbances(warnDays, past, root)
      + if CalmStep(State(warnDays, past), Lineage(warnDays, past, root), step) then 0 else 1
  {
  }

  lemma OneMoreShare(before: nat, after: nat, n: nat, m: nat, s: Span, calm: bool)
    requires s.Ok() && before <= Shares(n, s) && after <= before + if calm then 0 else Full(s)
    requires m == n + if calm then 0 else 1
    ensures after <= Shares(m, s)
  {
  }

  lemma {:induction false} AlwaysWithin(warnDays: int, h: History, root: Id, s: Span, now: int, spent: nat, n: nat)
    requires s.Ok() && Legal(warnDays, h) && ClockedUntil(h, now) && now <= s.end && Spaced(warnDays, h, root, s.gap)
    requires spent == Spent(warnDays, h, root, s) && n == Heads(warnDays, h, root) + Disturbances(warnDays, h, root)
    ensures spent <= Shares(n, s)
  {
    if root >= State(warnDays, h).next {
      NotBegunSpends(warnDays, h, root, s);
    } else if Begins(warnDays, h.past, h.step, root) {
      BeginningSpends(warnDays, h.past, h.step, root, s, spent);
      MoreShares(Heads(warnDays, h, root), n - Heads(warnDays, h, root), s);
    } else if root >= State(warnDays, h.past).next {
      NeverBeginsSpends(warnDays, h.past, h.step, root, s);
    } else {
      var before := Spent(warnDays, h.past, root, s);
      var m := Heads(warnDays, h.past, root) + Disturbances(warnDays, h.past, root);
      AlwaysWithin(warnDays, h.past, root, s, h.step.now, before, m);
      StepMoves(warnDays, h.past, h.step, root, s, before, spent, m, n);
    }
  }

  lemma StepMoves(warnDays: int, past: History, step: Step, root: Id, s: Span, before: nat, after: nat, n: nat, m: nat)
    requires s.Ok() && Legal(warnDays, Then(past, step)) && ClockedUntil(past, step.now) && step.now <= s.end
    requires root < State(warnDays, past).next
    requires SpacedStep(State(warnDays, past), Lineage(warnDays, past, root), step, s.gap)
    requires before == Spent(warnDays, past, root, s) && after == Spent(warnDays, Then(past, step), root, s)
    requires n == Heads(warnDays, past, root) + Disturbances(warnDays, past, root)
    requires m == Heads(warnDays, Then(past, step), root) + Disturbances(warnDays, Then(past, step), root)
    requires before <= Shares(n, s)
    ensures after <= Shares(m, s)
  {
    StepSpends(warnDays, past, step, root, s);
    WithinSpends(warnDays, past, step, root, s);
    HeadsStay(warnDays, past, step, root);
    OneMoreShare(before, after, n, m, s, CalmStep(State(warnDays, past), Lineage(warnDays, past, root), step));
  }

  lemma {:induction false} MoreShares(n: nat, more: nat, s: Span)
    requires s.Ok()
    ensures Shares(n, s) <= Shares(n + more, s)
    decreases more
  {
    if more > 0 {
      MoreShares(n, more - 1, s);
    }
  }

  lemma ShareBound(spent: nat, n: nat, from: int, now: int, gap: int)
    requires from <= now && gap > 0 && spent <= Shares(n, Span(from, now, gap))
    ensures spent <= n * ((now - from) / gap + 1)
  {
    SharesProduct(n, Span(from, now, gap));
    FitsAtMostQuotient(now - from, gap);
    ProductGrows(n, Full(Span(from, now, gap)), (now - from) / gap + 1);
  }

  lemma ProductGrows(n: nat, x: int, y: int)
    requires x <= y
    ensures n * x <= n * y
  {
  }

  lemma RenewalsAreSpent(warnDays: int, h: History, root: Id, s: Span)
    requires s.Ok()
    ensures RenewalsSince(warnDays, h, root, s.from) <= Spent(warnDays, h, root, s)
  {
  }

  /**
   Over any span of any run, the renewals of a lineage's due certificates are at most so many for
   each time it was given a certificate that renews, or other terms: the span divided by the
   smallest gap its replacements were stored with, and one more.
   */
  lemma RenewalsAreBudgeted(warnDays: int, h: History, root: Id, from: int, gap: int, now: int, renewals: nat, n: nat)
    requires Legal(warnDays, h) && ClockedUntil(h, now) && from <= now && gap > 0 && Spaced(warnDays, h, root, gap)
    requires renewals == RenewalsSince(warnDays, h, root, from)
    requires n == Heads(warnDays, h, root) + Disturbances(warnDays, h, root)
    ensures renewals <= n * ((now - from) / gap + 1)
  {
    var s := Span(from, now, gap);
    AlwaysWithin(warnDays, h, root, s, now, Spent(warnDays, h, root, s), n);
    RenewalsAreSpent(warnDays, h, root, s);
    ShareBound(renewals, n, from, now, gap);
  }
}
