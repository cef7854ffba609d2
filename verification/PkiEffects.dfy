/**
 What a request leaves in the certificate tables, told row by row: who may sign, what a revocation
 and the lifting of a hold change wherever they stop, and what a list holds.
 */
module PkiEffects {
  import opened Text
  import opened Serial
  import opened PkiTables
  import Forest
  import Revocations
  import Statuses
  import Renewals

  // ---- Signing ----

  /**
   The authority is stored under fewer than sixteen others, what it needs to open its key was
   given, and its own dates hold the moment and the end of what it signs.
   */
  predicate MaySign(d: Db, id: Id, given: bool, now: int, notAfter: int) {
    Opens(d, id, given) && d.authorities[id].notBefore <= now <= d.authorities[id].notAfter
    && notAfter <= d.authorities[id].notAfter
  }

  predicate Opens(d: Db, id: Id, given: bool) {
    id in d.authorities && |Ancestors(d, id)| < 16 && (d.authorities[id].passphrase ==> given)
  }

  /** No certificate of the authority has the serial. */
  predicate FreeSerial(d: Db, authority: Id, serial: string) {
    forall c :: c in d.certificates && d.certificates[c].authority == authority ==> d.certificates[c].serial != serial
  }

  /** Nothing was issued by the authority. */
  predicate Unused(d: Db, id: Id) {
    && (forall a :: a in d.authorities ==> d.authorities[a].parent != Some(id))
    && (forall c :: c in d.certificates ==> d.certificates[c].authority != id)
  }

  /** What can be deleted: an authority that issued nothing or, by force, one whose children issued nothing. */
  predicate MayGo(d: Db, id: Id, force: bool) {
    && id in d.authorities
    && if force then forall a :: a in d.authorities && d.authorities[a].parent == Some(id) ==> Unused(d, a)
       else Unused(d, id)
  }

  lemma UnusedExactly(d: Db, id: Id)
    ensures Unused(d, id) <==> !HasCertificate(d, id) && !HasChild(d, id)
  {
  }

  lemma MayGoExactly(d: Db, id: Id, force: bool, now: int)
    ensures Enabled(d, Step.DeleteAuthority(id, force, now)) <==> MayGo(d, id, force)
  {
    UnusedExactly(d, id);
    forall a | a in d.authorities
      ensures Unused(d, a) <==> !HasCertificate(d, a) && !HasChild(d, a)
    {
      UnusedExactly(d, a);
    }
  }

  /** The deletion took the authority and, by force, its children, its certificates and their revocation rows. */
  ghost predicate Gone(d: Db, e: Db, id: Id, force: bool) {
    && e.next == d.next
    && (forall a :: a in e.authorities <==>
         a in d.authorities && a != id && !(force && d.authorities[a].parent == Some(id)))
    && (forall c :: c in e.certificates <==> c in d.certificates && !(force && d.certificates[c].authority == id))
    && (forall r :: r in e.revocations <==> r in d.revocations && !(force && d.revocations[r].authority == id))
    && (forall a :: a in e.authorities ==> e.authorities[a] == d.authorities[a])
    && (forall c :: c in e.certificates ==> e.certificates[c] == d.certificates[c])
    && (forall r :: r in e.revocations ==> e.revocations[r] == d.revocations[r])
  }

  lemma DeletedIsGone(warnDays: int, d: Db, id: Id, force: bool, now: int)
    ensures Gone(d, Apply(warnDays, d, Step.DeleteAuthority(id, force, now)), id, force)
  {
  }

  // ---- Issuing and renewing ----

  /** A row that starts five minutes early and lives so many days, with a window that fits, and nothing else. */
  predicate IssuedAs(after: map<Id, Certificate>, before: map<Id, Certificate>, id: Id, ca: Id, serial: string,
      days: int, autoRenew: bool, requested: int, now: int) {
    && id in after && after == before[id := after[id]]
    && after[id] == Certificate(ca, serial, Active, now - 300, now - 300 + days * 86400, days, autoRenew,
         after[id].renewBefore, None)
    && Renewals.IsWindow(after[id].renewBefore, requested, autoRenew, days)
  }

  /** A certificate that is not revoked, whose authority may sign for the days asked for, or else its own life. */
  predicate MayRenew(d: Db, id: Id, given: bool, serial: string, days: int, now: int) {
    && id in d.certificates && d.certificates[id].status != Revoked
    && MaySignRenewal(d, id, given, days, now) && FreeSerial(d, d.certificates[id].authority, serial)
  }

  predicate MaySignRenewal(d: Db, id: Id, given: bool, days: int, now: int)
    requires id in d.certificates
  {
    var c := d.certificates[id];
    MaySign(d, c.authority, given, now, now - 300 + (if days <= 0 then c.validityDays else days) * 86400)
  }

  lemma MayRenewExactly(d: Db, id: Id, given: bool, serial: string, days: int, cleared: bool, now: int)
    requires SerialText(serial)
    ensures MayRenew(d, id, given, serial, days, now) <==>
      && Enabled(d, Step.Renew(id, serial, days, cleared, now))
      && (d.authorities[d.certificates[id].authority].passphrase ==> given)
  {
  }

  /** The replacement takes over everything but serial and dates, and automatic renewal once the old row is cleared. */
  predicate RenewedAs(after: map<Id, Certificate>, before: map<Id, Certificate>, replacement: Id, id: Id,
      serial: string, days: int, cleared: bool, now: int) {
    && id in before && id in after && replacement in after && replacement != id
    && var was, row := before[id], after[replacement];
    && var life := if days <= 0 then was.validityDays else days;
    && after == before[id := was.(autoRenew := was.autoRenew && !cleared)][replacement := row]
    && row == Certificate(was.authority, serial, Active, now - 300, now - 300 + life * 86400, life, was.autoRenew,
         row.renewBefore, Some(id))
    && Renewals.IsWindow(row.renewBefore, was.renewBefore, was.autoRenew, life)
  }

  lemma RowRenewedAs(d: Db, id: Id, serial: string, days: int, cleared: bool, now: int)
    requires id in d.certificates && id < d.next
    ensures var after := AfterRenew(d, id, serial, days, cleared, now).certificates;
      RenewedAs(after, d.certificates, d.next, id, serial, days, cleared, now)
  {
    var c := d.certificates[id];
    Renewals.WindowExactly(c.renewBefore, c.autoRenew, LifeOf(c, days));
    assert !(c.autoRenew && cleared) ==>
      d.certificates == d.certificates[id := c.(autoRenew := c.autoRenew && !cleared)];
  }

  // ---- A pass of renewals ----

  /** It is not revoked, and its authority may sign, without a passphrase, for its own life from now. */
  predicate MayRenewItself(d: Db, id: Id, now: int) {
    && id in d.certificates && d.certificates[id].status != Revoked
    && MaySign(d, d.certificates[id].authority, false, now, now - 300 + d.certificates[id].validityDays * 86400)
  }

  /** It renews by itself, is not revoked, and its window before the end has begun. */
  predicate DueNow(certificates: map<Id, Certificate>, id: Id, now: int) {
    && id in certificates && certificates[id].autoRenew && certificates[id].status != Revoked
    && now + certificates[id].renewBefore * 86400 > certificates[id].notAfter
  }

  /** Among the steps is a renewal of the certificate. */
  predicate IsRenewed(made: seq<Step>, id: Id) {
    exists k :: 0 <= k < |made| && made[k].Renew? && made[k].id == id
  }

  /** No two of the serials to come are the same, and none is in use. */
  ghost predicate SerialsAreNew(d: Db, serial: nat -> Positive) {
    SerialsDiffer(serial) && SerialsUnused(d, serial, 0)
  }

  ghost predicate SerialsDiffer(serial: nat -> Positive) {
    forall i: nat, j: nat :: i < j ==> serial(i) != serial(j)
  }

  ghost predicate SerialsUnused(d: Db, serial: nat -> Positive, from: nat) {
    forall i: nat, c :: i >= from && c in d.certificates ==> d.certificates[c].serial != FormatSerial(serial(i))
  }

  /** The rows still to come and the authorities are as they were. */
  predicate Untouched(before: Db, d: Db, todo: set<Id>) {
    && d.authorities == before.authorities
    && forall c :: c in todo && c in before.certificates ==>
         c in d.certificates && d.certificates[c] == before.certificates[c]
  }

  /** Of the rows tried so far exactly those were renewed that have a key and may be. */
  ghost predicate RenewedExactly(before: Db, d: Db, rows: set<Id>, todo: set<Id>, made: seq<Step>, keys: set<Id>,
      serial: nat -> Positive, tried: nat, now: int)
  {
    && Untouched(before, d, todo) && SerialsUnused(d, serial, tried)
    && (forall c :: c in rows && c !in todo ==> (IsRenewed(made, c) <==> c in keys && MayRenewItself(before, c, now)))
    && (forall c :: IsRenewed(made, c) ==> c in rows && c !in todo)
  }

  lemma SameAuthoritiesSameAnswer(before: Db, d: Db, id: Id, now: int)
    requires d.authorities == before.authorities && id in before.certificates && id in d.certificates
    requires d.certificates[id] == before.certificates[id]
    ensures MayRenewItself(d, id, now) <==> MayRenewItself(before, id, now)
  {
    Forest.AncestorsFramed(before, d, d.certificates[id].authority);
  }

  lemma OneMoreIsRenewed(made: seq<Step>, step: Step, id: Id)
    ensures IsRenewed(made + [step], id) <==> IsRenewed(made, id) || (step.Renew? && step.id == id)
  {
    var more := made + [step];
    assert more[|made|] == step && forall k :: 0 <= k < |made| ==> more[k] == made[k];
  }

  /** The attempt on row `c` with the next serial. */
  lemma AttemptKeepsExactly(before: Db, d: Db, e: Db, rows: set<Id>, todo: set<Id>, c: Id, made: seq<Step>,
      keys: set<Id>, serial: nat -> Positive, tried: nat, ok: bool, cleared: bool, now: int)
    requires RenewedExactly(before, d, rows, todo, made, keys, serial, tried, now)
    requires c in todo && todo <= rows && c in before.certificates
    requires SerialsDiffer(serial)
    requires forall r :: r in todo ==> r < d.next
    requires ok <==> c in keys && MayRenew(d, c, false, FormatSerial(serial(tried)), 0, now)
    requires e.authorities == d.authorities
    requires ok ==> RenewedAs(e.certificates, d.certificates, d.next, c, FormatSerial(serial(tried)), 0, cleared, now)
    requires !ok ==> e.certificates == d.certificates
    ensures var step := Step.Renew(c, FormatSerial(serial(tried)), 0, cleared, now);
      RenewedExactly(before, e, rows, todo - {c}, if ok then made + [step] else made, keys, serial, tried + 1, now)
  {
    var text := FormatSerial(serial(tried));
    var step := Step.Renew(c, text, 0, cleared, now);
    SameAuthoritiesSameAnswer(before, d, c, now);
    assert MayRenew(d, c, false, text, 0, now) <==> MayRenewItself(d, c, now);
    SerialsStayUnused(d, e, serial, tried, ok, c, cleared, now);
    forall r
      ensures IsRenewed(made + [step], r) <==> IsRenewed(made, r) || r == c
    {
      OneMoreIsRenewed(made, step, r);
    }
  }

  lemma SerialsStayUnused(d: Db, e: Db, serial: nat -> Positive, tried: nat, ok: bool, c: Id, cleared: bool, now: int)
    requires SerialsUnused(d, serial, tried)
    requires SerialsDiffer(serial)
    requires ok ==> RenewedAs(e.certificates, d.certificates, d.next, c, FormatSerial(serial(tried)), 0, cleared, now)
    requires !ok ==> e.certificates == d.certificates
    ensures SerialsUnused(e, serial, tried + 1)
  {
    forall i: nat, r | i >= tried + 1 && r in e.certificates
      ensures e.certificates[r].serial != FormatSerial(serial(i))
    {
      if ok && r == d.next && FormatSerial(serial(tried)) == FormatSerial(serial(i)) {
        FormatInjective(serial(tried), serial(i));
      }
    }
  }

  // ---- Revocation and lifting ----

  predicate RowOf(d: Db, r: Id, c: Id) {
    r in d.revocations && d.revocations[r].certificate == c
  }

  ghost predicate NoRowOf(d: Db, c: Id) {
    forall r :: !RowOf(d, r, c)
  }

  /** The authorities and the revocation rows of every other certificate are the same. */
  predicate RestKept(d: Db, e: Db, c: Id) {
    && e.authorities == d.authorities
    && (forall r :: r in d.revocations && !RowOf(d, r, c) ==>
         r in e.revocations && e.revocations[r] == d.revocations[r])
    && (forall r :: r in e.revocations && !RowOf(e, r, c) ==> r in d.revocations && !RowOf(d, r, c))
  }

  /** The request can be met: a reason of RFC 5280 for a certificate that is not revoked. */
  predicate MayRevoke(d: Db, c: Id, reason: int) {
    0 <= reason <= 10 && reason != 7 && c in d.certificates && d.certificates[c].status != Revoked
  }

  /** No row is in the way: there is none, or it is that of a hold and its deletion succeeds. */
  ghost predicate WayIsFree(d: Db, c: Id, up: nat -> bool) {
    NoRowOf(d, c) || (c in d.certificates && d.certificates[c].status == Held && up(0))
  }

  /** What a revocation leaves, whichever of its writes succeed. */
  ghost predicate RevokedAs(d: Db, e: Db, c: Id, reason: int, now: int, up: nat -> bool) {
    if !MayRevoke(d, c, reason) || !WayIsFree(d, c, up) then e == d
    else
      && RestKept(d, e, c)
      && if !up(1) then NoRowOf(e, c) && e.certificates == d.certificates && e.next == d.next
         else
           && e.next == d.next + 1
           && (forall r :: RowOf(e, r, c) <==> r == d.next) && d.next in e.revocations
           && e.revocations[d.next]
              == Revocation(c, d.certificates[c].authority, d.certificates[c].serial, reason, now)
           && e.certificates == if !up(2) then d.certificates
              else d.certificates[c := d.certificates[c].(status := if reason == 6 then Held else Revoked)]
  }

  /** What lifting a hold leaves, whichever of its writes succeed. */
  ghost predicate LiftedAs(warnDays: int, d: Db, e: Db, c: Id, now: int, up: nat -> bool) {
    if !MayLift(d, c) || !up(0) then e == d
    else
      && RestKept(d, e, c) && NoRowOf(e, c) && e.next == d.next
      && if !up(1) then e.certificates == d.certificates
         else
           && c in e.certificates
           && e.certificates == d.certificates[c := d.certificates[c].(status := e.certificates[c].status)]
           && Statuses.AsTheClockSays(d.certificates[c], e.certificates[c].status, warnDays, now)
  }

  /** The certificate is held and has its row. */
  ghost predicate MayLift(d: Db, c: Id) {
    c in d.certificates && d.certificates[c].status == Held && !NoRowOf(d, c)
  }

  lemma NoRowExactly(d: Db, c: Id)
    ensures NoRowOf(d, c) <==> !HasRow(d, c)
  {
    if HasRow(d, c) {
      var r :| r in d.revocations && d.revocations[r].certificate == c;
      assert RowOf(d, r, c);
    }
  }

  lemma DroppedRows(d: Db, c: Id)
    ensures RestKept(d, WithoutRow(d, c), c) && NoRowOf(WithoutRow(d, c), c)
    ensures NoRowOf(d, c) ==> WithoutRow(d, c) == d
  {
    NoRowExactly(d, c);
    Revocations.DroppedHasNoRow(d, c);
  }

  lemma InsertedRows(d: Db, c: Id, reason: int, now: int)
    requires c in d.certificates && NoRowOf(d, c) && d.next !in d.revocations
    ensures var e := WithRow(d, c, reason, now);
      && RestKept(d, e, c) && e.certificates == d.certificates && e.next == d.next + 1
      && (forall r :: RowOf(e, r, c) <==> r == d.next)
      && e.revocations[d.next] == Revocation(c, d.certificates[c].authority, d.certificates[c].serial, reason, now)
  {
    var e := WithRow(d, c, reason, now);
    forall r
      ensures RowOf(e, r, c) <==> r == d.next
    {
      assert !RowOf(d, r, c);
    }
  }

  lemma RestKeptTwice(d: Db, e: Db, f: Db, c: Id)
    requires RestKept(d, e, c) && RestKept(e, f, c)
    ensures RestKept(d, f, c)
  {
  }

  lemma SavedRows(d: Db, c: Id, status: Status)
    requires c in d.certificates
    ensures RestKept(d, WithStatus(d, c, status), c)
    ensures forall r :: RowOf(WithStatus(d, c, status), r, c) <==> RowOf(d, r, c)
  {
  }

  /** From a table without a row of the certificate. */
  lemma InsertionExactly(d: Db, e: Db, c: Id, reason: int, now: int, saved: bool)
    requires c in d.certificates && NoRowOf(d, c) && d.next !in d.revocations
    requires var inserted := WithRow(d, c, reason, now);
      e == if saved then WithStatus(inserted, c, StatusFor(reason)) else inserted
    ensures RestKept(d, e, c) && e.next == d.next + 1
    ensures forall r :: RowOf(e, r, c) <==> r == d.next
    ensures e.revocations[d.next] == Revocation(c, d.certificates[c].authority, d.certificates[c].serial, reason, now)
    ensures e.certificates == if !saved then d.certificates
      else d.certificates[c := d.certificates[c].(status := if reason == 6 then Held else Revoked)]
  {
    var inserted := WithRow(d, c, reason, now);
    InsertedRows(d, c, reason, now);
    SavedRows(inserted, c, StatusFor(reason));
    RestKeptTwice(d, inserted, e, c);
    if saved {
      assert forall r :: RowOf(e, r, c) <==> RowOf(inserted, r, c);
    }
  }

  /** Wherever a revocation stops, the tables are told exactly. */
  lemma RevocationExactly(d: Db, c: Id, reason: int, now: int, up: nat -> bool)
    requires d.next !in d.revocations
    ensures RevokedAs(d, Revocations.AfterRevocation(d, c, reason, now, up), c, reason, now, up)
    ensures Revocations.RevocationSucceeds(d, c, reason, up) <==>
      MayRevoke(d, c, reason) && WayIsFree(d, c, up) && up(1) && up(2)
  {
    NoRowExactly(d, c);
    var e := Revocations.AfterRevocation(d, c, reason, now, up);
    if MayRevoke(d, c, reason) && WayIsFree(d, c, up) {
      DroppedRows(d, c);
      var freed := if d.certificates[c].status == Held then WithoutRow(d, c) else d;
      NoRowExactly(freed, c);
      assert RestKept(d, freed, c) && freed.certificates == d.certificates;
      if up(1) {
        InsertionExactly(freed, e, c, reason, now, up(2));
        RestKeptTwice(d, freed, e, c);
      }
    }
  }

  /** Wherever the lifting of a hold stops, the tables are told exactly. */
  lemma LiftingExactly(warnDays: nat, d: Db, c: Id, now: int, up: nat -> bool)
    ensures LiftedAs(warnDays, d, Revocations.AfterLifting(warnDays, d, c, now, up), c, now, up)
    ensures Revocations.LiftingSucceeds(d, c, up) <==> MayLift(d, c) && up(0) && up(1)
  {
    NoRowExactly(d, c);
    if MayLift(d, c) && up(0) {
      var freed := WithoutRow(d, c);
      DroppedRows(d, c);
      Statuses.LiftedFollowsTheClock(warnDays, freed, c, now);
      var lifted := WithLifted(warnDays, freed, c, now);
      SavedRows(freed, c, lifted.certificates[c].status);
      RestKeptTwice(d, freed, lifted, c);
    }
  }

  // ---- Lists ----

  /** One entry for each row of the authority whose serial can be read, with its time and reason. */
  ghost predicate HoldsTheRows(d: Db, id: Id, entries: set<Entry>) {
    forall e :: e in entries <==> exists r :: Revocations.RowLists(d, r, id, e)
  }

  /** The list is stored with the next number, and no other authority is touched. */
  ghost predicate PublishedAs(d: Db, after: map<Id, Authority>, id: Id, entries: set<Entry>) {
    && id in d.authorities
    && after == d.authorities[id :=
         d.authorities[id].(crlNumber := d.authorities[id].crlNumber + 1, crl := Some(entries))]
    && HoldsTheRows(d, id, entries)
  }

  lemma EntriesExactly(d: Db, id: Id)
    ensures HoldsTheRows(d, id, EntriesOf(d, id))
  {
    forall e
      ensures e in EntriesOf(d, id) <==> exists r :: Revocations.RowLists(d, r, id, e)
    {
      if e in EntriesOf(d, id) {
        Revocations.ListedIsRow(d, id, e);
      }
      if r :| Revocations.RowLists(d, r, id, e) {
        Revocations.RowIsListed(d, id, r, e.serial);
      }
    }
  }
}
