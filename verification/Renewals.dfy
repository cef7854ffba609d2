/**
 Automatic renewal: when a certificate falls due, what its replacement inherits, and why a
 lineage cannot renew without end.
 */
module Renewals {
  import opened Text
  import opened Runs
  import opened PkiTables

  predicate Due(c: Certificate, now: int) {
    c.autoRenew && c.status != Revoked && now + c.renewBefore * DAY > c.notAfter
  }

  /** How long after a renewal the replacement is not due, in seconds. */
  function Gap(days: int, window: int): int {
    (days - window) * DAY - CLOCK_SKEW
  }

  /** So many gaps, one after another. */
  function Gaps(k: nat, gap: int): int {
    if k == 0 then 0 else Gaps(k - 1, gap) + gap
  }

  lemma {:induction false} GapsProduct(k: nat, gap: int)
    ensures Gaps(k, gap) == k * gap
  {
    if k > 0 {
      GapsProduct(k - 1, gap);
      assert k * gap == (k - 1) * gap + gap;
    }
  }

  lemma {:induction false} GapsPositive(k: nat, gap: int)
    requires gap >= 0
    ensures Gaps(k, gap) >= 0
  {
    if k > 0 {
      GapsPositive(k - 1, gap);
    }
  }

  // ---- One renewal ----

  /** An auto-renewing certificate's window is shorter than its life exactly when it lives two days or more. */
  lemma WindowFitsExactly(requested: int, days: int)
    requires days >= 1
    ensures 1 <= Window(requested, true, days)
    ensures Window(requested, true, days) < days <==> days >= 2
  {
  }

  /**
   The window asked for, thirty days by default; or, when it would not fit in the life of a
   certificate that renews by itself, half that life, rounded down but never to nothing.
   */
  predicate IsWindow(window: int, requested: int, autoRenew: bool, days: int) {
    var asked := if requested <= 0 then 30 else requested;
    if autoRenew && 1 <= days <= asked then window >= 1 && days < 2 * window + 2 && (2 * window <= days || window == 1)
    else window == asked
  }

  lemma WindowExactly(requested: int, autoRenew: bool, days: int)
    ensures forall window :: IsWindow(window, requested, autoRenew, days) <==>
      window == Window(requested, autoRenew, days)
  {
  }

  /** A replacement keeps the life unless another is asked for, and the window once it fits. */
  lemma ReplacementInherits(c: Certificate, from: Id, serial: string, days: int, now: int)
    requires c.autoRenew && LifeOf(c, days) >= 2
    ensures var r := Renewed(c, from, serial, days, now);
      && r.validityDays == (if days <= 0 then c.validityDays else days) && 1 <= r.renewBefore < r.validityDays
      && (1 <= c.renewBefore < r.validityDays ==> r.renewBefore == c.renewBefore)
  {
  }

  /** A replacement falls due once more than its gap has passed, and not before. */
  lemma ReplacementDueExactly(c: Certificate, from: Id, serial: string, days: int, now: int, later: int)
    requires c.autoRenew
    ensures var r := Renewed(c, from, serial, days, now);
      Due(r, later) <==> later - now > Gap(r.validityDays, r.renewBefore)
  {
  }

  /** The gap is positive, and a replacement not due at once, exactly for lives of two days or more. */
  lemma NotDueAtOnceExactly(c: Certificate, from: Id, serial: string, days: int, now: int)
    requires c.autoRenew && LifeOf(c, days) >= 1
    ensures var r := Renewed(c, from, serial, days, now);
      && (!Due(r, now) <==> LifeOf(c, days) >= 2)
      && (LifeOf(c, days) >= 2 ==> Gap(r.validityDays, r.renewBefore) >= DAY - CLOCK_SKEW > 0)
  {
  }

  function DueRows(d: Db, now: int): set<Id> {
    set c | c in d.certificates && Due(d.certificates[c], now)
  }

  predicate CertificatesOlder(d: Db) {
    forall c :: c in d.certificates ==> c < d.next
  }

  /** Renewing a due row for its own life, and clearing it, takes just it off the due rows when it lives long enough. */
  lemma DueAfterRenew(d: Db, id: Id, serial: string, now: int)
    requires CertificatesOlder(d) && id in DueRows(d, now) && d.certificates[id].validityDays >= 2
    ensures DueRows(AfterRenew(d, id, serial, 0, true, now), now) == DueRows(d, now) - {id}
  {
    NotDueAtOnceExactly(d.certificates[id], id, serial, 0, now);
  }

  /** A due row stays due after its renewal exactly when it could not be cleared. */
  lemma StaysDueExactly(d: Db, id: Id, serial: string, days: int, cleared: bool, now: int)
    requires CertificatesOlder(d) && id in DueRows(d, now)
    ensures id in DueRows(AfterRenew(d, id, serial, days, cleared, now), now) <==> !cleared
  {
    assert id != d.next;
  }

  /** The history that goes on from `past` with the given steps. */
  ghost function WithSteps(past: History, made: seq<Step>): History {
    if made == [] then past else Then(WithSteps(past, made[..|made| - 1]), made[|made| - 1])
  }

  /** Renewals at `now`, each of another of the rows and for its own life. */
  ghost predicate EachOnce(made: seq<Step>, rows: set<Id>, now: int) {
    made == [] ||
      (var last := made[|made| - 1];
       && last.Renew? && last.id in rows && last.days == 0 && last.now == now
       && EachOnce(made[..|made| - 1], rows - {last.id}, now))
  }

  lemma OneMoreStep(past: History, made: seq<Step>, step: Step)
    ensures WithSteps(past, made + [step]) == Then(WithSteps(past, made), step)
  {
    assert (made + [step])[..|made|] == made;
  }

  lemma {:induction false} EachOnceAmongMore(made: seq<Step>, rows: set<Id>, more: set<Id>, now: int)
    requires EachOnce(made, rows, now) && rows <= more
    ensures EachOnce(made, more, now)
  {
    if made != [] {
      var id := made[|made| - 1].id;
      EachOnceAmongMore(made[..|made| - 1], rows - {id}, more - {id}, now);
    }
  }

  lemma OneMoreRow(made: seq<Step>, rows: set<Id>, c: Id, serial: string, cleared: bool, now: int)
    requires EachOnce(made, rows, now) && c !in rows
    ensures EachOnce(made, rows + {c}, now)
    ensures EachOnce(made + [Step.Renew(c, serial, 0, cleared, now)], rows + {c}, now)
  {
    EachOnceAmongMore(made, rows, rows + {c}, now);
    assert (made + [Step.Renew(c, serial, 0, cleared, now)])[..|made|] == made;
    assert rows + {c} - {c} == rows;
  }

  lemma OneMoreTried(made: seq<Step>, rows: set<Id>, todo: set<Id>, c: Id, serial: string, cleared: bool, now: int)
    requires EachOnce(made, rows - todo, now) && c in todo && todo <= rows
    ensures EachOnce(made, rows - (todo - {c}), now)
    ensures EachOnce(made + [Step.Renew(c, serial, 0, cleared, now)], rows - (todo - {c}), now)
  {
    OneMoreRow(made, rows - todo, c, serial, cleared, now);
    assert rows - todo + {c} == rows - (todo - {c});
  }

  // ---- Lineages ----

  /** The certificate and all that was renewed from it, at one remove or more, stored or deleted since. */
  ghost function Lineage(warnDays: int, h: History, root: Id): set<Id> {
    match h
    case Start => {}
    case Then(past, step) =>
      var members := Lineage(warnDays, past, root);
      if Begins(warnDays, past, step, root) then {root} else WithReplacement(State(warnDays, past), step, members)
  }

  /** The step stores the certificate. */
  ghost predicate Begins(warnDays: int, past: History, step: Step, root: Id) {
    root == State(warnDays, past).next && root in State(warnDays, Then(past, step)).certificates
  }

  function WithReplacement(d: Db, step: Step, members: set<Id>): set<Id> {
    if step.Renew? && step.id in members && step.id in d.certificates then members + {d.next} else members
  }

  /** The row a lineage began with. */
  ghost function Founder(warnDays: int, h: History, root: Id): Option<Certificate> {
    match h
    case Start => None
    case Then(past, step) =>
      if Begins(warnDays, past, step, root) then Some(State(warnDays, h).certificates[root])
      else Founder(warnDays, past, root)
  }

  predicate MembersOlder(d: Db, members: set<Id>) {
    forall c :: c in members ==> c < d.next
  }

  lemma OlderKept(warnDays: int, d: Db, step: Step)
    ensures CertificatesOlder(d) ==> CertificatesOlder(Apply(warnDays, d, step))
    ensures Apply(warnDays, d, step).next >= d.next
    ensures step.Renew? && step.id in d.certificates ==> Apply(warnDays, d, step).next == d.next + 1
  {
  }

  lemma {:induction false} AlwaysCertificatesOlder(warnDays: int, h: History)
    ensures CertificatesOlder(State(warnDays, h))
  {
    if h.Then? {
      AlwaysCertificatesOlder(warnDays, h.past);
      OlderKept(warnDays, State(warnDays, h.past), h.step);
    }
  }

  lemma {:induction false} AlwaysMembersOlder(warnDays: int, h: History, root: Id)
    ensures MembersOlder(State(warnDays, h), Lineage(warnDays, h, root))
  {
    if h.Then? {
      AlwaysMembersOlder(warnDays, h.past, root);
      AlwaysCertificatesOlder(warnDays, h);
      OlderKept(warnDays, State(warnDays, h.past), h.step);
    }
  }

  lemma {:induction false} NothingBeforeItsTime(warnDays: int, h: History, root: Id, from: int)
    requires root >= State(warnDays, h).next
    ensures Lineage(warnDays, h, root) == {} && Founder(warnDays, h, root) == None
    ensures RenewalsSince(warnDays, h, root, from) == 0
  {
    if h.Then? {
      AlwaysCertificatesOlder(warnDays, h);
      OlderKept(warnDays, State(warnDays, h.past), h.step);
      NothingBeforeItsTime(warnDays, h.past, root, from);
    }
  }

  lemma OnlyNewRowsAppear(warnDays: int, d: Db, step: Step, c: Id)
    requires CertificatesOlder(d) && Enabled(d, step) && c in Apply(warnDays, d, step).certificates
    ensures if c in d.certificates
      then Apply(warnDays, d, step).certificates[c].renewedFrom == d.certificates[c].renewedFrom
      else c == d.next && if step.Renew? then Apply(warnDays, d, step).certificates[c].renewedFrom == Some(step.id)
        else step.Insert? && Apply(warnDays, d, step).certificates[c].renewedFrom == None
  {
  }

  /** Besides its root, a lineage holds exactly the stored certificates renewed from one of its members. */
  lemma {:induction false} LineageFollowsRenewals(warnDays: int, h: History, root: Id, c: Id)
    requires Legal(warnDays, h) && c in State(warnDays, h).certificates && c != root
    ensures var from := State(warnDays, h).certificates[c].renewedFrom;
      c in Lineage(warnDays, h, root) <==> from.Some? && from.value in Lineage(warnDays, h, root)
  {
    var d, step := State(warnDays, h.past), h.step;
    AlwaysCertificatesOlder(warnDays, h.past);
    AlwaysMembersOlder(warnDays, h.past, root);
    OnlyNewRowsAppear(warnDays, d, step, c);
    RenewedFromOlder(warnDays, h, c);
    if Begins(warnDays, h.past, step, root) {
    } else if c < d.next {
      LineageFollowsRenewals(warnDays, h.past, root, c);
      RenewedFromOlder(warnDays, h.past, c);
    }
  }

  lemma {:induction false} RenewedFromOlder(warnDays: int, h: History, c: Id)
    requires Legal(warnDays, h) && c in State(warnDays, h).certificates
    ensures var from := State(warnDays, h).certificates[c].renewedFrom; from.Some? ==> from.value < c
  {
    var d := State(warnDays, h.past);
    AlwaysCertificatesOlder(warnDays, h.past);
    OnlyNewRowsAppear(warnDays, d, h.step, c);
    if c < d.next {
      RenewedFromOlder(warnDays, h.past, c);
    }
  }

  // ---- The lineage's automatic renewal ----

  /** The stored members that renew automatically. */
  function Auto(d: Db, members: set<Id>): set<Id> {
    set c | c in members && c in d.certificates && d.certificates[c].autoRenew
  }

  lemma AutoAfterRenew(d: Db, members: set<Id>, id: Id, serial: string, days: int, cleared: bool, now: int, c: Id)
    requires MembersOlder(d, members) && id in d.certificates && id != d.next
    ensures var more := if id in members then members + {d.next} else members;
      c in Auto(AfterRenew(d, id, serial, days, cleared, now), more) <==>
        if c == d.next then id in members && d.certificates[id].autoRenew
        else c in Auto(d, members) && !(c == id && cleared)
  {
  }

  /** Membership after moving automatic renewal from `id` to the fresh row `next`. */
  predicate MovedMember(before: set<Id>, after: set<Id>, id: Id, next: Id, cleared: bool, moves: bool, c: Id) {
    c in after <==> if c == next then moves else c in before && !(c == id && cleared)
  }

  lemma MovedSets(before: set<Id>, after: set<Id>, id: Id, next: Id, cleared: bool, moves: bool)
    requires forall c :: MovedMember(before, after, id, next, cleared, moves, c)
    requires next !in before && (id in before <==> moves)
    ensures after == if moves then (if cleared then before - {id} else before) + {next} else before
  {
    forall c
      ensures c in after <==> c in if moves then (if cleared then before - {id} else before) + {next} else before
    {
      assert MovedMember(before, after, id, next, cleared, moves, c);
    }
  }

  /** A renewal moves the lineage's automatic renewal to the replacement, unless the old row could not be cleared. */
  lemma RenewMovesAutoRenewal(d: Db, members: set<Id>, id: Id, serial: string, days: int, cleared: bool, now: int)
    requires MembersOlder(d, members) && id in d.certificates && id < d.next
    ensures var more := if id in members then members + {d.next} else members;
      var before, after := Auto(d, members), Auto(AfterRenew(d, id, serial, days, cleared, now), more);
      if id !in before then after == before
      else after == (if cleared then before - {id} else before) + {d.next}
  {
    var more := if id in members then members + {d.next} else members;
    var before, after := Auto(d, members), Auto(AfterRenew(d, id, serial, days, cleared, now), more);
    forall c
      ensures MovedMember(before, after, id, d.next, cleared, id in before, c)
    {
      AutoAfterRenew(d, members, id, serial, days, cleared, now, c);
    }
    MovedSets(before, after, id, d.next, cleared, id in before);
  }

  /**
   So a renewal in a lineage leaves its number of auto-renewing certificates as it was, exactly
   when the old row was cleared or did not renew.
   */
  lemma AutoCountUnchangedExactly(warnDays: int, h: History, step: Step, root: Id)
    requires Legal(warnDays, h) && step.Renew? && Enabled(State(warnDays, h), step)
    requires step.id in Lineage(warnDays, h, root)
    ensures var later := Then(h, step);
      |Auto(State(warnDays, later), Lineage(warnDays, later, root))|
      == |Auto(State(warnDays, h), Lineage(warnDays, h, root))|
      <==> step.cleared || !State(warnDays, h).certificates[step.id].autoRenew
  {
    var d, members := State(warnDays, h), Lineage(warnDays, h, root);
    AlwaysMembersOlder(warnDays, h, root);
    AlwaysCertificatesOlder(warnDays, h);
    if root >= d.next {
      NothingBeforeItsTime(warnDays, h, root, 0);
    }
    RenewMovesAutoRenewal(d, members, step.id, step.serial, step.days, step.cleared, step.now);
    assert d.next !in Auto(d, members);
  }

  // ---- Runs ----

  /**
   Nothing that would start a second automatic renewal, or change its terms: an edit of a member
   neither turns automatic renewal on nor moves the window of one that renews, and renewing such
   a member asks for no other life and clears it. Other lineages may do as they please, and any
   certificate or authority may be deleted.
   */
  predicate CalmStep(d: Db, members: set<Id>, step: Step) {
    match step
    case Edit(id, autoRenew, renewBefore, _) =>
      id in members && id in d.certificates && autoRenew ==>
        d.certificates[id].autoRenew && renewBefore == d.certificates[id].renewBefore
    case Renew(id, _, days, cleared, _) =>
      id in Auto(d, members) ==> cleared && LifeOf(d.certificates[id], days) == d.certificates[id].validityDays
    case _ => true
  }

  ghost predicate Calm(warnDays: int, h: History, root: Id) {
    h.Then? ==>
      && Calm(warnDays, h.past, root)
      && CalmStep(State(warnDays, h.past), Lineage(warnDays, h.past, root), h.step)
  }

  function Counted(d: Db, members: set<Id>, step: Step, from: int): nat {
    if && step.now >= from && step.Renew? && step.id in members
       && step.id in d.certificates && Due(d.certificates[step.id], step.now) then 1 else 0
  }

  /** How often a due certificate of the lineage was renewed from a given moment on. */
  ghost function RenewalsSince(warnDays: int, h: History, root: Id, from: int): nat {
    match h
    case Start => 0
    case Then(past, step) =>
      RenewalsSince(warnDays, past, root, from)
      + Counted(State(warnDays, past), Lineage(warnDays, past, root), step, from)
  }

  predicate OnTerms(c: Certificate, days: int, window: int) {
    c.validityDays == days && c.renewBefore == window && 1 <= window < days
  }

  /** The lineage has at most one auto-renewing certificate, with the life and window it began with. */
  predicate OneHead(d: Db, members: set<Id>, days: int, window: int) {
    && (forall x, y :: x in Auto(d, members) && y in Auto(d, members) ==> x == y)
    && (forall x :: x in Auto(d, members) ==> OnTerms(d.certificates[x], days, window))
  }

  predicate NotDueUntil(c: Certificate, at: int) {
    c.notAfter - c.renewBefore * DAY >= at
  }

  /** After `k` renewals since `from`, the next certificate to renew is not due before `k` gaps have passed. */
  predicate Paced(d: Db, members: set<Id>, from: int, k: nat, gap: int, clock: int) {
    k >= 1 ==>
      && from + Gaps(k - 1, gap) <= clock
      && forall x :: x in Auto(d, members) ==> NotDueUntil(d.certificates[x], from + Gaps(k, gap))
  }

  /** The lineage keeps one head, and its pace since `from`. */
  predicate LineageOk(d: Db, members: set<Id>, days: int, window: int, from: int, k: nat, gap: int, clock: int) {
    && gap == Gap(days, window) && MembersOlder(d, members) && CertificatesOlder(d)
    && OneHead(d, members, days, window) && Paced(d, members, from, k, gap, clock)
  }

  /** The row still renews automatically, and did so before on the same terms. */
  predicate StillAuto(d: Db, e: Db, members: set<Id>, x: Id) {
    && x in Auto(d, members) && x in e.certificates
    && d.certificates[x].validityDays == e.certificates[x].validityDays
    && d.certificates[x].renewBefore == e.certificates[x].renewBefore
    && d.certificates[x].notAfter == e.certificates[x].notAfter
  }

  lemma OtherStepsAddNoHead(warnDays: int, d: Db, step: Step, members: set<Id>, x: Id)
    requires MembersOlder(d, members) && Enabled(d, step) && CalmStep(d, members, step) && !step.Renew?
    requires x in Auto(Apply(warnDays, d, step), members)
    ensures StillAuto(d, Apply(warnDays, d, step), members, x)
  {
  }

  /** A table whose heads were heads before on the same terms keeps the lineage. */
  lemma FewerHeads(d: Db, e: Db, before: set<Id>, members: set<Id>, days: int, window: int, from: int, k: nat, gap: int,
      clock: int, now: int)
    requires LineageOk(d, before, days, window, from, k, gap, clock) && clock <= now
    requires MembersOlder(e, members) && CertificatesOlder(e)
    requires forall x :: x in Auto(e, members) ==> StillAuto(d, e, before, x)
    ensures LineageOk(e, members, days, window, from, k, gap, now)
  {
    forall x | x in Auto(e, members)
      ensures OnTerms(e.certificates[x], days, window)
      ensures k >= 1 ==> NotDueUntil(e.certificates[x], from + Gaps(k, gap))
    {
      assert StillAuto(d, e, before, x);
      assert OnTerms(d.certificates[x], days, window);
      assert k >= 1 ==> NotDueUntil(d.certificates[x], from + Gaps(k, gap));
    }
  }

  lemma OtherStep(warnDays: int, d: Db, step: Step, members: set<Id>, days: int, window: int, from: int, k: nat,
      gap: int, clock: int)
    requires LineageOk(d, members, days, window, from, k, gap, clock) && clock <= step.now
    requires Enabled(d, step) && CalmStep(d, members, step) && !step.Renew?
    ensures LineageOk(Apply(warnDays, d, step), members, days, window, from, k, gap, step.now)
  {
    var e := Apply(warnDays, d, step);
    OlderKept(warnDays, d, step);
    forall x | x in Auto(e, members)
      ensures StillAuto(d, e, members, x)
    {
      OtherStepsAddNoHead(warnDays, d, step, members, x);
    }
    FewerHeads(d, e, members, members, days, window, from, k, gap, clock, step.now);
  }

  /** The new head of a lineage is one gap away from the moment it was made. */
  lemma HeadAfterRenew(d: Db, members: set<Id>, days: int, window: int, id: Id, serial: string, asked: int, now: int)
    requires MembersOlder(d, members) && OneHead(d, members, days, window) && id in Auto(d, members)
    requires LifeOf(d.certificates[id], asked) == d.certificates[id].validityDays
    ensures var e := AfterRenew(d, id, serial, asked, true, now);
      && Auto(e, members + {d.next}) == {d.next}
      && OnTerms(e.certificates[d.next], days, window)
      && e.certificates[d.next].notAfter - e.certificates[d.next].renewBefore * DAY == now + Gap(days, window)
  {
    RenewMovesAutoRenewal(d, members, id, serial, asked, true, now);
    assert Auto(d, members) == {id};
    assert OnTerms(d.certificates[id], days, window);
  }

  /** The arithmetic of one more renewal. */
  lemma Pacing(c: Certificate, now: int, from: int, k: nat, gap: int, clock: int)
    requires gap >= 0 && clock <= now
    requires k >= 1 ==> from + Gaps(k - 1, gap) <= clock && NotDueUntil(c, from + Gaps(k, gap))
    ensures now + c.renewBefore * DAY > c.notAfter && now >= from ==> from + Gaps(k, gap) <= now
    ensures k >= 1 ==> from <= now && from + Gaps(k, gap) <= now + gap
  {
    if k >= 1 {
      GapsPositive(k - 1, gap);
    }
  }

  lemma PacedHead(e: Db, members: set<Id>, x: Id, from: int, k: nat, gap: int, now: int)
    requires Auto(e, members) == {x}
    requires k >= 1 ==> from + Gaps(k - 1, gap) <= now && NotDueUntil(e.certificates[x], from + Gaps(k, gap))
    ensures Paced(e, members, from, k, gap, now)
  {
  }

  lemma HeadRenewed(d: Db, step: Step, members: set<Id>, days: int, window: int, from: int, k: nat, m: nat, gap: int,
      clock: int)
    requires LineageOk(d, members, days, window, from, k, gap, clock) && clock <= step.now
    requires step.Renew? && step.id in Auto(d, members) && d.certificates[step.id].status != Revoked
    requires step.cleared && LifeOf(d.certificates[step.id], step.days) == d.certificates[step.id].validityDays
    requires m == k + Counted(d, members, step, from)
    ensures LineageOk(AfterRenew(d, step.id, step.serial, step.days, true, step.now), members + {d.next},
      days, window, from, m, gap, step.now)
  {
    var e := AfterRenew(d, step.id, step.serial, step.days, true, step.now);
    assert OnTerms(d.certificates[step.id], days, window);
    HeadAfterRenew(d, members, days, window, step.id, step.serial, step.days, step.now);
    Pacing(d.certificates[step.id], step.now, from, k, gap, clock);
    PacedHead(e, members + {d.next}, d.next, from, m, gap, step.now);
  }

  lemma BystanderRenewed(d: Db, step: Step, members: set<Id>, days: int, window: int, from: int, k: nat, gap: int,
      clock: int)
    requires LineageOk(d, members, days, window, from, k, gap, clock) && clock <= step.now
    requires step.Renew? && step.id in d.certificates && step.id !in Auto(d, members)
    ensures LineageOk(AfterRenew(d, step.id, step.serial, step.days, step.cleared, step.now),
      WithReplacement(d, step, members), days, window, from, k, gap, step.now)
  {
    var e := AfterRenew(d, step.id, step.serial, step.days, step.cleared, step.now);
    var more := WithReplacement(d, step, members);
    RenewMovesAutoRenewal(d, members, step.id, step.serial, step.days, step.cleared, step.now);
    forall x | x in Auto(e, more)
      ensures StillAuto(d, e, members, x)
    {
      assert x in Auto(d, members) && x != step.id && x != d.next;
    }
    FewerHeads(d, e, members, more, days, window, from, k, gap, clock, step.now);
  }

  lemma RenewStep(d: Db, step: Step, members: set<Id>, days: int, window: int, from: int, k: nat, m: nat, gap: int,
      clock: int)
    requires LineageOk(d, members, days, window, from, k, gap, clock) && clock <= step.now
    requires step.Renew? && step.id in d.certificates && d.certificates[step.id].status != Revoked
    requires CalmStep(d, members, step) && m == k + Counted(d, members, step, from)
    ensures LineageOk(AfterRenew(d, step.id, step.serial, step.days, step.cleared, step.now),
      WithReplacement(d, step, members), days, window, from, m, gap, step.now)
  {
    if step.id in Auto(d, members) {
      HeadRenewed(d, step, members, days, window, from, k, m, gap, clock);
    } else {
      assert m == k;
      BystanderRenewed(d, step, members, days, window, from, m, gap, clock);
    }
  }

  lemma LineageStep(warnDays: int, d: Db, step: Step, members: set<Id>, days: int, window: int, from: int, k: nat,
      m: nat, gap: int, clock: int)
    requires LineageOk(d, members, days, window, from, k, gap, clock) && clock <= step.now
    requires Enabled(d, step) && CalmStep(d, members, step) && m == k + Counted(d, members, step, from)
    ensures LineageOk(Apply(warnDays, d, step), WithReplacement(d, step, members), days, window, from, m, gap, step.now)
  {
    if step.Renew? {
      RenewStep(d, step, members, days, window, from, k, m, gap, clock);
    } else {
      assert m == k && WithReplacement(d, step, members) == members;
      OtherStep(warnDays, d, step, members, days, window, from, m, gap, clock);
    }
  }

  /** The window a row is first stored with fits its life if it renews automatically. */
  lemma FoundedOnTerms(warnDays: int, d: Db, step: Step)
    requires CertificatesOlder(d) && Enabled(d, step) && d.next in Apply(warnDays, d, step).certificates
    ensures var c := Apply(warnDays, d, step).certificates[d.next];
      c.autoRenew && c.validityDays >= 2 ==> OnTerms(c, c.validityDays, c.renewBefore)
  {
    var c := Apply(warnDays, d, step).certificates[d.next];
    OnlyNewRowsAppear(warnDays, d, step, d.next);
    if step.Insert? {
      assert c == step.certificate;
    }
  }

  lemma LineageBegins(warnDays: int, past: History, step: Step, root: Id, from: int, c: Certificate, gap: int)
    requires Legal(warnDays, Then(past, step)) && Begins(warnDays, past, step, root)
    requires c == State(warnDays, Then(past, step)).certificates[root] && c.validityDays >= 2
    requires gap == Gap(c.validityDays, c.renewBefore)
    ensures LineageOk(State(warnDays, Then(past, step)), {root}, c.validityDays, c.renewBefore, from, 0, gap, step.now)
  {
    AlwaysCertificatesOlder(warnDays, past);
    AlwaysCertificatesOlder(warnDays, Then(past, step));
    FoundedOnTerms(warnDays, State(warnDays, past), step);
  }

  lemma PacedLater(d: Db, members: set<Id>, days: int, window: int, from: int, k: nat, gap: int, clock: int, now: int)
    requires LineageOk(d, members, days, window, from, k, gap, clock) && clock <= now
    ensures LineageOk(d, members, days, window, from, k, gap, now)
  {
  }

  lemma {:induction false} LineagePaced(warnDays: int, h: History, root: Id, from: int, k: nat, c: Certificate,
      gap: int, now: int)
    requires Legal(warnDays, h) && ClockedUntil(h, now) && Calm(warnDays, h, root)
    requires Founder(warnDays, h, root) == Some(c) && c.validityDays >= 2 && gap == Gap(c.validityDays, c.renewBefore)
    requires k == RenewalsSince(warnDays, h, root, from)
    ensures LineageOk(State(warnDays, h), Lineage(warnDays, h, root), c.validityDays, c.renewBefore, from, k, gap, now)
  {
    var d, step, members := State(warnDays, h.past), h.step, Lineage(warnDays, h.past, root);
    var days, window := c.validityDays, c.renewBefore;
    if Begins(warnDays, h.past, step, root) {
      NothingBeforeItsTime(warnDays, h.past, root, from);
      LineageBegins(warnDays, h.past, step, root, from, c, gap);
      PacedLater(State(warnDays, h), {root}, days, window, from, k, gap, step.now, now);
    } else {
      var before := RenewalsSince(warnDays, h.past, root, from);
      LineagePaced(warnDays, h.past, root, from, before, c, gap, step.now);
      LineageStep(warnDays, d, step, members, days, window, from, before, k, gap, step.now);
      PacedLater(State(warnDays, h), WithReplacement(d, step, members), days, window, from, k, gap, step.now, now);
    }
  }

  /** A lineage that began without automatic renewal never gets it. */
  lemma {:induction false} NeverAuto(warnDays: int, h: History, root: Id, from: int)
    requires Legal(warnDays, h) && Calm(warnDays, h, root)
    requires Founder(warnDays, h, root).Some? && !Founder(warnDays, h, root).value.autoRenew
    ensures Auto(State(warnDays, h), Lineage(warnDays, h, root)) == {} && RenewalsSince(warnDays, h, root, from) == 0
  {
    var d, step, members := State(warnDays, h.past), h.step, Lineage(warnDays, h.past, root);
    if Begins(warnDays, h.past, step, root) {
      NothingBeforeItsTime(warnDays, h.past, root, from);
    } else {
      NeverAuto(warnDays, h.past, root, from);
      AlwaysMembersOlder(warnDays, h.past, root);
      AlwaysCertificatesOlder(warnDays, h.past);
      NoneBecomesAuto(warnDays, d, step, members);
    }
  }

  lemma NoneBecomesAuto(warnDays: int, d: Db, step: Step, members: set<Id>)
    requires MembersOlder(d, members) && CertificatesOlder(d) && Auto(d, members) == {}
    requires Enabled(d, step) && CalmStep(d, members, step)
    ensures Auto(Apply(warnDays, d, step), WithReplacement(d, step, members)) == {}
    ensures Counted(d, members, step, step.now) == 0
  {
    if step.Renew? {
      RenewMovesAutoRenewal(d, members, step.id, step.serial, step.days, step.cleared, step.now);
      assert step.id in members ==> step.id !in Auto(d, members);
    } else {
      forall x | x in Auto(Apply(warnDays, d, step), members)
        ensures x in Auto(d, members)
      {
        OtherStepsAddNoHead(warnDays, d, step, members, x);
      }
    }
  }

  lemma TimesMonotone(x: int, y: int, gap: int)
    requires x <= y && gap >= 0
    ensures x * gap <= y * gap
  {
  }

  lemma SpanBound(k: int, gap: int, span: int)
    requires gap > 0 && span >= 0 && (k - 1) * gap <= span
    ensures k <= span / gap + 1
  {
    var q := span / gap;
    assert span < (q + 1) * gap;
    if k > q + 1 {
      TimesMonotone(q + 1, k - 1, gap);
    }
  }

  lemma PaceBounds(d: Db, members: set<Id>, from: int, k: nat, gap: int, now: int)
    requires Paced(d, members, from, k, gap, now) && gap > 0 && from <= now
    ensures k <= (now - from) / gap + 1
  {
    if k >= 1 {
      GapsProduct(k - 1, gap);
      SpanBound(k, gap, now - from);
    }
  }

  lemma BeginsOnTerms(warnDays: int, past: History, step: Step, root: Id, c: Certificate)
    requires Legal(warnDays, Then(past, step)) && Begins(warnDays, past, step, root)
    requires c == State(warnDays, Then(past, step)).certificates[root] && c.autoRenew && c.validityDays >= 2
    ensures OnTerms(c, c.validityDays, c.renewBefore)
  {
    AlwaysCertificatesOlder(warnDays, past);
    FoundedOnTerms(warnDays, State(warnDays, past), step);
  }

  /** The window of a founding row that lives two days or more and renews automatically fits its life. */
  lemma {:induction false} FounderOnTerms(warnDays: int, h: History, root: Id, c: Certificate)
    requires Legal(warnDays, h) && Founder(warnDays, h, root) == Some(c) && c.autoRenew && c.validityDays >= 2
    ensures OnTerms(c, c.validityDays, c.renewBefore)
  {
    if Begins(warnDays, h.past, h.step, root) {
      BeginsOnTerms(warnDays, h.past, h.step, root, c);
    } else {
      FounderOnTerms(warnDays, h.past, root, c);
    }
  }

  /**
   Over any span, a lineage that began with a life of two days or more has its due certificate
   renewed at most once a gap, and once more; never, if it began without automatic renewal.
   */
  lemma RenewalsAreBounded(warnDays: int, h: History, root: Id, from: int, k: nat, c: Certificate, now: int)
    requires Legal(warnDays, h) && ClockedUntil(h, now) && Calm(warnDays, h, root) && from <= now
    requires Founder(warnDays, h, root) == Some(c) && c.validityDays >= 2
    requires k == RenewalsSince(warnDays, h, root, from)
    ensures var gap := Gap(c.validityDays, c.renewBefore);
      if c.autoRenew then gap > 0 && k <= (now - from) / gap + 1 else k == 0
  {
    if c.autoRenew {
      var gap := Gap(c.validityDays, c.renewBefore);
      FounderOnTerms(warnDays, h, root, c);
      LineagePaced(warnDays, h, root, from, k, c, gap, now);
      PaceBounds(State(warnDays, h), Lineage(warnDays, h, root), from, k, gap, now);
    } else {
      NeverAuto(warnDays, h, root, from);
    }
  }
}
