/**
 Revocation over every run of the writes, so also when a request stops between two of them: which
 certificates have one row exactly when they are revoked or held, and the CRL and OCSP as two
 views of the rows.
 */
module Revocations {
  import opened Text
  import opened Runs
  import opened Serial
  import opened PkiTables

  // ---- The invariant ----

  predicate Withdrawn(s: Status) {
    s == Held || s == Revoked
  }

  /** A row belongs to a stored certificate of the same authority and serial. */
  predicate RowOk(d: Db, r: Id)
    requires r in d.revocations
  {
    var row := d.revocations[r];
    && r < d.next && ValidReason(row.reason)
    && row.certificate in d.certificates
    && row.authority == d.certificates[row.certificate].authority
    && row.serial == d.certificates[row.certificate].serial
  }

  predicate RowsOk(d: Db) {
    forall r :: r in d.revocations ==> RowOk(d, r)
  }

  predicate OneRowEach(d: Db) {
    forall r, q :: r in d.revocations && q in d.revocations && SameCertificate(d, r, q) ==> r == q
  }

  predicate SameCertificate(d: Db, r: Id, q: Id)
    requires r in d.revocations && q in d.revocations
  {
    d.revocations[r].certificate == d.revocations[q].certificate
  }

  predicate SerialsOk(d: Db) {
    && (forall c :: c in d.certificates ==> c < d.next && SerialText(d.certificates[c].serial))
    && (forall b, c :: b in d.certificates && c in d.certificates && SameSerial(d, b, c) ==> b == c)
  }

  predicate SameSerial(d: Db, b: Id, c: Id)
    requires b in d.certificates && c in d.certificates
  {
    d.certificates[b].authority == d.certificates[c].authority && d.certificates[b].serial == d.certificates[c].serial
  }

  predicate Inv(d: Db) {
    RowsOk(d) && OneRowEach(d) && SerialsOk(d)
  }

  /** A row that stays, stays as it is, and so does its certificate. */
  lemma RowStaysWithOwner(warnDays: int, d: Db, step: Step, r: Id)
    requires RowsOk(d) && Enabled(d, step) && r in d.revocations && r in Apply(warnDays, d, step).revocations
    ensures var e := Apply(warnDays, d, step);
      e.revocations[r] == d.revocations[r] && d.revocations[r].certificate in e.certificates && d.next <= e.next
  {
    assert RowOk(d, r);
  }

  lemma NewRowOk(warnDays: int, d: Db, step: Step, r: Id)
    requires Enabled(d, step) && r !in d.revocations && r in Apply(warnDays, d, step).revocations
    ensures RowOk(Apply(warnDays, d, step), r)
  {
  }

  lemma RowOkKept(warnDays: int, d: Db, step: Step, r: Id)
    requires RowsOk(d) && SerialsOk(d) && Enabled(d, step) && r in Apply(warnDays, d, step).revocations
    ensures RowOk(Apply(warnDays, d, step), r)
  {
    if r in d.revocations {
      assert RowOk(d, r);
      RowStaysWithOwner(warnDays, d, step, r);
      CertificateCameFrom(warnDays, d, step, d.revocations[r].certificate);
    } else {
      NewRowOk(warnDays, d, step, r);
    }
  }

  lemma RowsOkKept(warnDays: int, d: Db, step: Step)
    requires RowsOk(d) && SerialsOk(d) && Enabled(d, step)
    ensures RowsOk(Apply(warnDays, d, step))
  {
    forall r | r in Apply(warnDays, d, step).revocations
      ensures RowOk(Apply(warnDays, d, step), r)
    {
      RowOkKept(warnDays, d, step, r);
    }
  }

  lemma TwoRowsKept(warnDays: int, d: Db, step: Step, r: Id, q: Id)
    requires RowsOk(d) && OneRowEach(d) && Enabled(d, step)
    requires r in Apply(warnDays, d, step).revocations && q in Apply(warnDays, d, step).revocations
    requires SameCertificate(Apply(warnDays, d, step), r, q)
    ensures r == q
  {
    assert r in d.revocations ==> RowOk(d, r);
    assert q in d.revocations ==> RowOk(d, q);
    assert r in d.revocations && q in d.revocations ==> SameCertificate(d, r, q);
  }

  lemma OneRowEachKept(warnDays: int, d: Db, step: Step)
    requires RowsOk(d) && OneRowEach(d) && Enabled(d, step)
    ensures OneRowEach(Apply(warnDays, d, step))
  {
    var e := Apply(warnDays, d, step);
    forall r, q | r in e.revocations && q in e.revocations && SameCertificate(e, r, q)
      ensures r == q
    {
      TwoRowsKept(warnDays, d, step, r, q);
    }
  }

  lemma SerialKept(warnDays: int, d: Db, step: Step, c: Id)
    requires SerialsOk(d) && Enabled(d, step) && c in Apply(warnDays, d, step).certificates
    ensures c < Apply(warnDays, d, step).next && SerialText(Apply(warnDays, d, step).certificates[c].serial)
  {
  }

  /** A certificate row is an old one with its authority and serial, or the new one with a serial that was free. */
  predicate CameFrom(d: Db, e: Db, c: Id) {
    && c in e.certificates
    && var row := e.certificates[c];
    && if c in d.certificates
       then d.certificates[c].authority == row.authority && d.certificates[c].serial == row.serial
       else c == d.next && !SerialTaken(d, row.authority, row.serial)
  }

  lemma CertificateCameFrom(warnDays: int, d: Db, step: Step, c: Id)
    requires SerialsOk(d) && Enabled(d, step) && c in Apply(warnDays, d, step).certificates
    ensures CameFrom(d, Apply(warnDays, d, step), c)
  {
  }

  lemma SerialsApart(d: Db, e: Db, b: Id, c: Id)
    requires SerialsOk(d) && CameFrom(d, e, b) && CameFrom(d, e, c) && SameSerial(e, b, c)
    ensures b == c
  {
    if b in d.certificates && c in d.certificates {
      assert SameSerial(d, b, c);
    }
  }

  lemma SerialsOkKept(warnDays: int, d: Db, step: Step)
    requires SerialsOk(d) && Enabled(d, step)
    ensures SerialsOk(Apply(warnDays, d, step))
  {
    var e := Apply(warnDays, d, step);
    forall c | c in e.certificates
      ensures c < e.next && SerialText(e.certificates[c].serial)
    {
      SerialKept(warnDays, d, step, c);
    }
    forall b, c | b in e.certificates && c in e.certificates && SameSerial(e, b, c)
      ensures b == c
    {
      CertificateCameFrom(warnDays, d, step, b);
      CertificateCameFrom(warnDays, d, step, c);
      SerialsApart(d, e, b, c);
    }
  }

  lemma {:induction false} AlwaysInv(warnDays: int, h: History)
    requires Legal(warnDays, h)
    ensures Inv(State(warnDays, h))
  {
    if h.Then? {
      var d := State(warnDays, h.past);
      AlwaysInv(warnDays, h.past);
      RowsOkKept(warnDays, d, h.step);
      OneRowEachKept(warnDays, d, h.step);
      SerialsOkKept(warnDays, d, h.step);
    }
  }

  // ---- The lifecycle ----

  /** One row when it is held or revoked, saying which, and none otherwise. */
  predicate OneRowIfWithdrawn(d: Db, c: Id)
    requires c in d.certificates
  {
    && |RowsFor(d, c)| == (if Withdrawn(d.certificates[c].status) then 1 else 0)
    && forall r :: r in RowsFor(d, c) ==> (d.certificates[c].status == Held <==> d.revocations[r].reason == HOLD)
  }

  /**
   The last revocation or lifting that wrote anything for the certificate went through: the row
   was written and then the certificate. A hold that replaces a hold needs no second write.
   */
  ghost predicate InOrder(warnDays: int, h: History, c: Id) {
    match h
    case Start => true
    case Then(past, step) =>
      if step.DropRow? && step.id == c then false
      else if step.InsertRow? && step.id == c then HeldAgain(State(warnDays, past), c, step.reason)
      else if (step.SaveWithdrawn? || step.SaveLifted?) && step.id == c then true
      else c in State(warnDays, past).certificates ==> InOrder(warnDays, past, c)
  }

  predicate HeldAgain(d: Db, c: Id, reason: int) {
    c in d.certificates && d.certificates[c].status == Held && reason == HOLD
  }

  /** The row itself, under the same identifier. */
  predicate SameRows(d: Db, e: Db, c: Id) {
    RowsFor(e, c) == RowsFor(d, c) && forall r :: r in RowsFor(d, c) ==> e.revocations[r] == d.revocations[r]
  }

  predicate RowUntouched(d: Db, e: Db, c: Id, r: Id) {
    && (r in RowsFor(e, c) <==> r in RowsFor(d, c))
    && (r in RowsFor(d, c) ==> r in e.revocations && e.revocations[r] == d.revocations[r])
  }

  /** The step is one of those a revocation or a lifting of this certificate makes. */
  predicate Concerns(step: Step, c: Id) {
    (step.DropRow? || step.InsertRow? || step.SaveWithdrawn? || step.SaveLifted?) && step.id == c
  }

  lemma OtherRowUntouched(warnDays: int, d: Db, step: Step, c: Id, r: Id)
    requires RowsOk(d) && Enabled(d, step) && !Concerns(step, c)
    requires c in d.certificates && c in Apply(warnDays, d, step).certificates
    ensures RowUntouched(d, Apply(warnDays, d, step), c, r)
  {
    assert r in d.revocations ==> RowOk(d, r);
  }

  lemma AllRowsUntouched(d: Db, e: Db, c: Id)
    requires forall r :: RowUntouched(d, e, c, r)
    ensures SameRows(d, e, c)
  {
    forall r
      ensures r in RowsFor(e, c) <==> r in RowsFor(d, c)
      ensures r in RowsFor(d, c) ==> e.revocations[r] == d.revocations[r]
    {
      assert RowUntouched(d, e, c, r);
    }
  }

  lemma OtherRowsUntouched(warnDays: int, d: Db, step: Step, c: Id)
    requires RowsOk(d) && Enabled(d, step) && !Concerns(step, c)
    requires c in d.certificates && c in Apply(warnDays, d, step).certificates
    ensures SameRows(d, Apply(warnDays, d, step), c)
  {
    forall r
      ensures RowUntouched(d, Apply(warnDays, d, step), c, r)
    {
      OtherRowUntouched(warnDays, d, step, c, r);
    }
    AllRowsUntouched(d, Apply(warnDays, d, step), c);
  }

  predicate SameStanding(s: Status, t: Status) {
    (s == Held <==> t == Held) && (s == Revoked <==> t == Revoked)
  }

  lemma OtherStandingStays(warnDays: int, d: Db, step: Step, c: Id)
    requires c < d.next && Enabled(d, step) && !Concerns(step, c)
    requires c in d.certificates && c in Apply(warnDays, d, step).certificates
    ensures SameStanding(d.certificates[c].status, Apply(warnDays, d, step).certificates[c].status)
  {
  }

  lemma SameLifecycle(d: Db, e: Db, c: Id)
    requires c in d.certificates && c in e.certificates && SameRows(d, e, c)
    requires SameStanding(d.certificates[c].status, e.certificates[c].status)
    ensures OneRowIfWithdrawn(e, c) <==> OneRowIfWithdrawn(d, c)
  {
  }

  /** What is done to other certificates leaves this one as it was, in order or not. */
  lemma OtherStepsKeepLifecycle(warnDays: int, d: Db, step: Step, c: Id)
    requires Inv(d) && Enabled(d, step) && !Concerns(step, c)
    requires c in d.certificates && c in Apply(warnDays, d, step).certificates
    ensures OneRowIfWithdrawn(Apply(warnDays, d, step), c) <==> OneRowIfWithdrawn(d, c)
  {
    OtherRowsUntouched(warnDays, d, step, c);
    OtherStandingStays(warnDays, d, step, c);
    SameLifecycle(d, Apply(warnDays, d, step), c);
  }

  lemma NewIsInOrder(warnDays: int, d: Db, step: Step, c: Id)
    requires Inv(d) && Enabled(d, step) && c !in d.certificates && c in Apply(warnDays, d, step).certificates
    ensures OneRowIfWithdrawn(Apply(warnDays, d, step), c)
  {
    var e := Apply(warnDays, d, step);
    forall r
      ensures r !in RowsFor(e, c)
    {
      assert r in d.revocations ==> RowOk(d, r);
    }
    assert RowsFor(e, c) == {};
  }

  lemma NoRow(d: Db, c: Id)
    ensures RowsFor(d, c) == {} <==> !HasRow(d, c)
  {
    if HasRow(d, c) {
      var r :| r in d.revocations && d.revocations[r].certificate == c;
      assert r in RowsFor(d, c);
    }
  }

  lemma TheRow(d: Db, c: Id, r: Id)
    requires OneRowEach(d) && r in d.revocations && d.revocations[r].certificate == c
    ensures RowsFor(d, c) == {r}
  {
    forall q | q in RowsFor(d, c)
      ensures q == r
    {
      assert SameCertificate(d, q, r);
    }
  }

  lemma DroppedIsOutOfOrder(d: Db, c: Id)
    requires c in d.certificates && d.certificates[c].status == Held
    ensures !OneRowIfWithdrawn(WithoutRow(d, c), c)
  {
    assert RowsFor(WithoutRow(d, c), c) == {};
  }

  lemma InsertedIsInOrderExactly(d: Db, c: Id, reason: int, now: int)
    requires RowsOk(d) && c in d.certificates && d.certificates[c].status != Revoked && !HasRow(d, c)
    ensures OneRowIfWithdrawn(WithRow(d, c, reason, now), c) <==> HeldAgain(d, c, reason)
  {
    NoRow(d, c);
    assert RowsFor(WithRow(d, c, reason, now), c) == {d.next};
  }

  lemma SavedIsInOrder(d: Db, c: Id, reason: int)
    requires OneRowEach(d) && c in d.certificates && HasRowFor(d, c, reason)
    ensures OneRowIfWithdrawn(WithStatus(d, c, StatusFor(reason)), c)
  {
    var r :| r in d.revocations && d.revocations[r].certificate == c && d.revocations[r].reason == reason;
    TheRow(d, c, r);
    assert RowsFor(WithStatus(d, c, StatusFor(reason)), c) == {r};
  }

  lemma LiftedIsInOrder(warnDays: int, d: Db, c: Id, now: int)
    requires c in d.certificates && !HasRow(d, c)
    ensures OneRowIfWithdrawn(WithLifted(warnDays, d, c, now), c)
  {
    NoRow(d, c);
    assert RowsFor(WithLifted(warnDays, d, c, now), c) == {};
  }

  lemma ConcernedExactly(warnDays: int, d: Db, step: Step, c: Id)
    requires Inv(d) && Enabled(d, step) && Concerns(step, c)
    ensures var e := Apply(warnDays, d, step);
      && c in e.certificates
      && (OneRowIfWithdrawn(e, c) <==>
          (step.InsertRow? && HeldAgain(d, c, step.reason)) || step.SaveWithdrawn? || step.SaveLifted?)
  {
    match step
    case DropRow(_, _) => DroppedIsOutOfOrder(d, c);
    case InsertRow(_, reason, now) => InsertedIsInOrderExactly(d, c, reason, now);
    case SaveWithdrawn(_, reason, _) => SavedIsInOrder(d, c, reason);
    case SaveLifted(_, now) => LiftedIsInOrder(warnDays, d, c, now);
    case _ =>
  }

  /**
   In every run, whatever writes fail, a certificate has one row if it is held or revoked and none
   otherwise, exactly when the last revocation or lifting that wrote anything for it went through.
   */
  lemma {:induction false} OneRowExactlyWhenWithdrawn(warnDays: int, h: History, c: Id)
    requires Legal(warnDays, h) && c in State(warnDays, h).certificates
    ensures OneRowIfWithdrawn(State(warnDays, h), c) <==> InOrder(warnDays, h, c)
  {
    var d := State(warnDays, h.past);
    AlwaysInv(warnDays, h.past);
    if Concerns(h.step, c) {
      ConcernedExactly(warnDays, d, h.step, c);
    } else if c in d.certificates {
      OneRowExactlyWhenWithdrawn(warnDays, h.past, c);
      OtherStepsKeepLifecycle(warnDays, d, h.step, c);
    } else {
      NewIsInOrder(warnDays, d, h.step, c);
    }
  }

  lemma RevokedWhenSaved(warnDays: int, d: Db, step: Step, c: Id)
    requires Inv(d) && Enabled(d, step) && c in Apply(warnDays, d, step).certificates
    requires Apply(warnDays, d, step).certificates[c].status == Revoked
    ensures (step.SaveWithdrawn? && step.id == c) || (c in d.certificates && d.certificates[c].status == Revoked)
    ensures !(step.SaveWithdrawn? && step.id == c) ==> !Concerns(step, c)
  {
    if !Concerns(step, c) && c in d.certificates {
      OtherStandingStays(warnDays, d, step, c);
    }
  }

  /** A certificate marked as revoked always has its row, whatever writes have failed. */
  lemma {:induction false} RevokedIsInOrder(warnDays: int, h: History, c: Id)
    requires Legal(warnDays, h) && c in State(warnDays, h).certificates
    requires State(warnDays, h).certificates[c].status == Revoked
    ensures InOrder(warnDays, h, c) && |RowsFor(State(warnDays, h), c)| == 1
  {
    AlwaysInv(warnDays, h.past);
    RevokedWhenSaved(warnDays, State(warnDays, h.past), h.step, c);
    if !(h.step.SaveWithdrawn? && h.step.id == c) {
      RevokedIsInOrder(warnDays, h.past, c);
    }
    OneRowExactlyWhenWithdrawn(warnDays, h, c);
  }

  lemma {:induction false} EarlierLegal(warnDays: int, a: History, b: History)
    requires Earlier(a, b) && Legal(warnDays, b)
    ensures Legal(warnDays, a)
  {
    if a != b {
      EarlierLegal(warnDays, a, b.past);
    }
  }

  lemma NextNeverFalls(warnDays: int, d: Db, step: Step)
    ensures d.next <= Apply(warnDays, d, step).next
  {
  }

  lemma {:induction false} NextGrows(warnDays: int, a: History, b: History)
    requires Earlier(a, b)
    ensures State(warnDays, a).next <= State(warnDays, b).next
  {
    if a != b {
      NextGrows(warnDays, a, b.past);
      NextNeverFalls(warnDays, State(warnDays, b.past), b.step);
    }
  }

  /** A certificate stored now was stored at every moment since any earlier one at which it was. */
  lemma StoredBetween(warnDays: int, a: History, b: History, c: Id)
    requires Legal(warnDays, b) && b.Then? && Earlier(a, b.past)
    requires c in State(warnDays, a).certificates && c in State(warnDays, b).certificates
    ensures c in State(warnDays, b.past).certificates
  {
    EarlierLegal(warnDays, a, b.past);
    AlwaysInv(warnDays, a);
    NextGrows(warnDays, a, b.past);
    CertificatesOnlyLeave(warnDays, State(warnDays, b.past), b.step, c);
  }

  lemma CertificatesOnlyLeave(warnDays: int, d: Db, step: Step, c: Id)
    requires c < d.next && c in Apply(warnDays, d, step).certificates
    ensures c in d.certificates
  {
  }

  /** A step on a certificate already revoked changes neither its status nor its row. */
  lemma RevokedStays(warnDays: int, d: Db, step: Step, c: Id)
    requires Inv(d) && Enabled(d, step)
    requires c in d.certificates && d.certificates[c].status == Revoked && c in Apply(warnDays, d, step).certificates
    ensures Apply(warnDays, d, step).certificates[c].status == Revoked && SameRows(d, Apply(warnDays, d, step), c)
  {
    OtherRowsUntouched(warnDays, d, step, c);
    OtherStandingStays(warnDays, d, step, c);
  }

  /** Once revoked, a certificate stays revoked with the same row for as long as it is stored. */
  lemma {:induction false} RevokedForGood(warnDays: int, a: History, b: History, c: Id)
    requires Legal(warnDays, b) && Earlier(a, b)
    requires c in State(warnDays, a).certificates && c in State(warnDays, b).certificates
    requires State(warnDays, a).certificates[c].status == Revoked
    ensures State(warnDays, b).certificates[c].status == Revoked && SameRows(State(warnDays, a), State(warnDays, b), c)
  {
    if a != b {
      StoredBetween(warnDays, a, b, c);
      RevokedForGood(warnDays, a, b.past, c);
      AlwaysInv(warnDays, b.past);
      RevokedStays(warnDays, State(warnDays, b.past), b.step, c);
    }
  }

  // ---- The numbers of published lists ----

  /** How many lists of an authority have been published. */
  ghost function Publications(h: History, ca: Id): nat {
    match h
    case Start => 0
    case Then(past, step) => Publications(past, ca) + if step.Publish? && step.id == ca then 1 else 0
  }

  predicate AuthoritiesOlder(d: Db) {
    forall a :: a in d.authorities ==> a < d.next
  }

  lemma AuthoritiesOlderKept(warnDays: int, d: Db, step: Step)
    requires AuthoritiesOlder(d)
    ensures AuthoritiesOlder(Apply(warnDays, d, step)) && Apply(warnDays, d, step).next >= d.next
  {
  }

  lemma {:induction false} AlwaysOlder(warnDays: int, h: History)
    ensures AuthoritiesOlder(State(warnDays, h))
  {
    if h.Then? {
      AlwaysOlder(warnDays, h.past);
      AuthoritiesOlderKept(warnDays, State(warnDays, h.past), h.step);
    }
  }

  lemma {:induction false} UnstoredUnpublished(warnDays: int, h: History, ca: Id)
    requires Legal(warnDays, h) && ca >= State(warnDays, h).next
    ensures Publications(h, ca) == 0
  {
    if h.Then? {
      AlwaysOlder(warnDays, h.past);
      AuthoritiesOlderKept(warnDays, State(warnDays, h.past), h.step);
      UnstoredUnpublished(warnDays, h.past, ca);
    }
  }

  lemma NumberMoves(warnDays: int, d: Db, step: Step, ca: Id)
    requires AuthoritiesOlder(d) && Enabled(d, step) && ca in Apply(warnDays, d, step).authorities
    ensures var row := Apply(warnDays, d, step).authorities[ca];
      if ca !in d.authorities then step.CreateAuthority? && ca == d.next && row.crlNumber == 0 && row.crl == None
      else if step.Publish? && step.id == ca then row.crlNumber == d.authorities[ca].crlNumber + 1 && row.crl.Some?
      else row.crlNumber == d.authorities[ca].crlNumber && row.crl == d.authorities[ca].crl
  {
  }

  /** The number on an authority's row is the number of its lists so far (RFC 5280, section 5.2.3). */
  lemma {:induction false} CrlNumberCountsLists(warnDays: int, h: History, ca: Id)
    requires Legal(warnDays, h) && ca in State(warnDays, h).authorities
    ensures State(warnDays, h).authorities[ca].crlNumber == Publications(h, ca)
    ensures State(warnDays, h).authorities[ca].crl.Some? <==> Publications(h, ca) > 0
  {
    var d := State(warnDays, h.past);
    AlwaysOlder(warnDays, h.past);
    NumberMoves(warnDays, d, h.step, ca);
    if ca in d.authorities {
      CrlNumberCountsLists(warnDays, h.past, ca);
    } else {
      UnstoredUnpublished(warnDays, h.past, ca);
    }
  }

  // ---- The list and the responder ----

  datatype Answer = Unknown | Good | Withheld(at: int, reason: int)

  predicate HasSerial(d: Db, ca: Id, c: Id, serial: string) {
    c in d.certificates && d.certificates[c].authority == ca && d.certificates[c].serial == serial
  }

  /** The certificate is the one asked about, and its revocation row, if any, gives the answer. */
  ghost predicate AnswersFor(d: Db, c: Id, answer: Answer) {
    match answer
    case Unknown => false
    case Good => !HasRow(d, c)
    case Withheld(at, reason) =>
      exists r :: RowAnswers(d, r, c, at, reason)
  }

  predicate RowAnswers(d: Db, r: Id, c: Id, at: int, reason: int) {
    && r in d.revocations && d.revocations[r].certificate == c
    && d.revocations[r].at == at && d.revocations[r].reason == reason
  }

  /** What the responder says about a serial number of an authority whose key it can use. */
  ghost predicate Responds(d: Db, ca: Id, serial: int, answer: Answer) {
    if SerialTaken(d, ca, FormatSerial(serial))
    then exists c :: HasSerial(d, ca, c, FormatSerial(serial)) && AnswersFor(d, c, answer)
    else answer == Unknown
  }

  /** The published list says what the rows say. */
  predicate Current(d: Db, ca: Id) {
    ca in d.authorities && d.authorities[ca].crl == Some(EntriesOf(d, ca))
  }

  /** The serial number of a stored certificate is asked about by exactly its own text. */
  lemma SerialAsked(d: Db, c: Id, serial: int)
    requires SerialsOk(d) && c in d.certificates
    ensures ParseSerial(d.certificates[c].serial) == Some(serial) <==> d.certificates[c].serial == FormatSerial(serial)
  {
    var text := d.certificates[c].serial;
    var n := ParseSerial(text).value;
    if text == FormatSerial(serial) {
      FormatInjective(n, serial);
    }
  }

  lemma ListedIsRow(d: Db, ca: Id, entry: Entry)
    requires entry in EntriesOf(d, ca)
    ensures exists r :: RowLists(d, r, ca, entry)
  {
    var r :| r in d.revocations && d.revocations[r].authority == ca && ParseSerial(d.revocations[r].serial).Some?
      && entry == EntryOf(d.revocations[r]);
    assert RowLists(d, r, ca, entry);
  }

  predicate RowLists(d: Db, r: Id, ca: Id, entry: Entry) {
    && r in d.revocations && d.revocations[r].authority == ca
    && ParseSerial(d.revocations[r].serial) == Some(entry.serial)
    && d.revocations[r].at == entry.at && d.revocations[r].reason == entry.reason
  }

  lemma RowIsListed(d: Db, ca: Id, r: Id, serial: int)
    requires r in d.revocations && d.revocations[r].authority == ca
    requires ParseSerial(d.revocations[r].serial) == Some(serial)
    ensures Entry(serial, d.revocations[r].at, d.revocations[r].reason) in EntriesOf(d, ca)
  {
    assert EntryOf(d.revocations[r]) == Entry(serial, d.revocations[r].at, d.revocations[r].reason);
  }

  lemma RespondsAsListed(d: Db, ca: Id, serial: int, at: int, reason: int)
    requires Inv(d)
    ensures Responds(d, ca, serial, Withheld(at, reason)) <==> Entry(serial, at, reason) in EntriesOf(d, ca)
  {
    var text, answer, entry := FormatSerial(serial), Withheld(at, reason), Entry(serial, at, reason);
    if Responds(d, ca, serial, answer) {
      var c :| HasSerial(d, ca, c, text) && AnswersFor(d, c, answer);
      var r :| RowAnswers(d, r, c, at, reason);
      assert RowOk(d, r);
      SerialAsked(d, c, serial);
      RowIsListed(d, ca, r, serial);
    }
    if entry in EntriesOf(d, ca) {
      ListedIsRow(d, ca, entry);
      var r :| RowLists(d, r, ca, entry);
      assert RowOk(d, r);
      var c := d.revocations[r].certificate;
      assert RowAnswers(d, r, c, at, reason);
      SerialAsked(d, c, serial);
      assert HasSerial(d, ca, c, text) && AnswersFor(d, c, answer);
    }
  }

  /** There is at most one certificate to answer for. */
  lemma OneCertificateAsked(d: Db, ca: Id, serial: string, b: Id, c: Id)
    requires SerialsOk(d) && HasSerial(d, ca, b, serial) && HasSerial(d, ca, c, serial)
    ensures b == c
  {
    assert SameSerial(d, b, c);
  }

  lemma OneAnswer(d: Db, ca: Id, serial: int, a: Answer, b: Answer)
    requires Inv(d) && Responds(d, ca, serial, a) && Responds(d, ca, serial, b)
    ensures a == b
  {
    var text := FormatSerial(serial);
    if SerialTaken(d, ca, text) {
      var x :| HasSerial(d, ca, x, text) && AnswersFor(d, x, a);
      var y :| HasSerial(d, ca, y, text) && AnswersFor(d, y, b);
      OneCertificateAsked(d, ca, text, x, y);
      RowsAgree(d, x, a, b);
    }
  }

  lemma RowsAgree(d: Db, c: Id, a: Answer, b: Answer)
    requires OneRowEach(d) && AnswersFor(d, c, a) && AnswersFor(d, c, b)
    ensures a == b
  {
    if a.Withheld? && b.Withheld? {
      var r :| RowAnswers(d, r, c, a.at, a.reason);
      var q :| RowAnswers(d, q, c, b.at, b.reason);
      assert SameCertificate(d, r, q);
    }
  }

  predicate Lists(d: Db, ca: Id, serial: int) {
    exists e :: e in EntriesOf(d, ca) && e.serial == serial
  }

  lemma GoodUnlessListed(d: Db, ca: Id, serial: int)
    requires Inv(d)
    ensures Responds(d, ca, serial, Good) <==> SerialTaken(d, ca, FormatSerial(serial)) && !Lists(d, ca, serial)
  {
    var text := FormatSerial(serial);
    if SerialTaken(d, ca, text) {
      var c :| c in d.certificates && d.certificates[c].authority == ca && d.certificates[c].serial == text;
      assert HasSerial(d, ca, c, text);
      if HasRow(d, c) {
        var r :| r in d.revocations && d.revocations[r].certificate == c;
        var row := d.revocations[r];
        assert RowAnswers(d, r, c, row.at, row.reason);
        assert AnswersFor(d, c, Withheld(row.at, row.reason));
        RespondsAsListed(d, ca, serial, row.at, row.reason);
        if Responds(d, ca, serial, Good) {
          OneAnswer(d, ca, serial, Good, Withheld(row.at, row.reason));
        }
      } else {
        assert AnswersFor(d, c, Good);
        if Lists(d, ca, serial) {
          var e :| e in EntriesOf(d, ca) && e.serial == serial;
          RespondsAsListed(d, ca, serial, e.at, e.reason);
          OneAnswer(d, ca, serial, Good, Withheld(e.at, e.reason));
        }
      }
    }
  }

  /**
   While a list is current, the responder and the list agree on every serial number there is:
   the same time and reason for what is listed, good for the authority's other certificates,
   unknown for the rest.
   */
  lemma ListAndResponderAgree(d: Db, ca: Id, serial: int)
    requires Inv(d) && Current(d, ca)
    ensures var list := d.authorities[ca].crl.value;
      && (forall at, reason :: Responds(d, ca, serial, Withheld(at, reason)) <==> Entry(serial, at, reason) in list)
      && (Responds(d, ca, serial, Good) <==>
          SerialTaken(d, ca, FormatSerial(serial)) && forall e :: e in list ==> e.serial != serial)
      && (Responds(d, ca, serial, Unknown) <==> !SerialTaken(d, ca, FormatSerial(serial)))
  {
    forall at, reason
      ensures Responds(d, ca, serial, Withheld(at, reason)) <==> Entry(serial, at, reason) in EntriesOf(d, ca)
    {
      RespondsAsListed(d, ca, serial, at, reason);
    }
    GoodUnlessListed(d, ca, serial);
  }

  // ---- From one list until the next change ----

  /** The step writes revocation rows of the authority. */
  predicate Touches(d: Db, step: Step, ca: Id) {
    && (step.DropRow? || step.InsertRow? || step.DeleteCertificate?)
    && step.id in d.certificates && d.certificates[step.id].authority == ca
  }

  lemma RowStays(warnDays: int, d: Db, step: Step, ca: Id, r: Id)
    requires RowsOk(d) && Enabled(d, step) && !Touches(d, step, ca) && ca in Apply(warnDays, d, step).authorities
    ensures var e := Apply(warnDays, d, step);
      (r in d.revocations && d.revocations[r].authority == ca) <==>
      (r in e.revocations && e.revocations[r].authority == ca)
    ensures r in d.revocations && d.revocations[r].authority == ca ==>
      r in Apply(warnDays, d, step).revocations && Apply(warnDays, d, step).revocations[r] == d.revocations[r]
  {
    assert r in d.revocations ==> RowOk(d, r);
  }

  lemma SameRowsSameEntries(d: Db, e: Db, ca: Id)
    requires forall r :: r in d.revocations && d.revocations[r].authority == ca ==>
      r in e.revocations && e.revocations[r] == d.revocations[r]
    requires forall r :: r in e.revocations && e.revocations[r].authority == ca ==>
      r in d.revocations && d.revocations[r].authority == ca
    ensures EntriesOf(e, ca) == EntriesOf(d, ca)
  {
    forall entry
      ensures entry in EntriesOf(e, ca) <==> entry in EntriesOf(d, ca)
    {
      if entry in EntriesOf(d, ca) {
        ListedIsRow(d, ca, entry);
        var r :| RowLists(d, r, ca, entry);
        RowIsListed(e, ca, r, entry.serial);
      }
      if entry in EntriesOf(e, ca) {
        ListedIsRow(e, ca, entry);
        var r :| RowLists(e, r, ca, entry);
        RowIsListed(d, ca, r, entry.serial);
      }
    }
  }

  lemma EntriesUntouched(warnDays: int, d: Db, step: Step, ca: Id)
    requires RowsOk(d) && Enabled(d, step) && !Touches(d, step, ca) && ca in Apply(warnDays, d, step).authorities
    ensures EntriesOf(Apply(warnDays, d, step), ca) == EntriesOf(d, ca)
  {
    var e := Apply(warnDays, d, step);
    forall r
      ensures (r in d.revocations && d.revocations[r].authority == ca) <==>
        (r in e.revocations && e.revocations[r].authority == ca)
      ensures r in d.revocations && d.revocations[r].authority == ca ==>
        r in e.revocations && e.revocations[r] == d.revocations[r]
    {
      RowStays(warnDays, d, step, ca, r);
    }
    SameRowsSameEntries(d, e, ca);
  }

  /** A list of the authority was published, and its rows have not been written since. */
  ghost predicate PublishedSince(warnDays: int, h: History, ca: Id) {
    && h.Then?
    && ((h.step.Publish? && h.step.id == ca) ||
        (!Touches(State(warnDays, h.past), h.step, ca) && PublishedSince(warnDays, h.past, ca)))
  }

  lemma {:induction false} PublishedCounts(warnDays: int, h: History, ca: Id)
    requires PublishedSince(warnDays, h, ca)
    ensures Publications(h, ca) > 0
  {
    if !(h.step.Publish? && h.step.id == ca) {
      PublishedCounts(warnDays, h.past, ca);
    }
  }

  lemma PublishIsCurrent(d: Db, ca: Id)
    requires ca in d.authorities
    ensures Current(AfterPublish(d, ca), ca)
  {
    SameRowsSameEntries(d, AfterPublish(d, ca), ca);
  }

  lemma {:induction false} ListStaysCurrent(warnDays: int, h: History, ca: Id)
    requires Legal(warnDays, h) && PublishedSince(warnDays, h, ca) && ca in State(warnDays, h).authorities
    ensures Current(State(warnDays, h), ca)
  {
    var d := State(warnDays, h.past);
    if h.step.Publish? && h.step.id == ca {
      PublishIsCurrent(d, ca);
    } else {
      PublishedCounts(warnDays, h.past, ca);
      AlwaysOlder(warnDays, h.past);
      NumberMoves(warnDays, d, h.step, ca);
      if ca !in d.authorities {
        UnstoredUnpublished(warnDays, h.past, ca);
      }
      ListStaysCurrent(warnDays, h.past, ca);
      AlwaysInv(warnDays, h.past);
      EntriesUntouched(warnDays, d, h.step, ca);
    }
  }

  /** From each list until the rows are next written, list and responder agree on every serial. */
  lemma AgreeUntilTheNextChange(warnDays: int, h: History, ca: Id, serial: int)
    requires Legal(warnDays, h) && PublishedSince(warnDays, h, ca) && ca in State(warnDays, h).authorities
    ensures var d := State(warnDays, h);
      && d.authorities[ca].crl.Some?
      && var list := d.authorities[ca].crl.value;
      && (forall at, reason :: Responds(d, ca, serial, Withheld(at, reason)) <==> Entry(serial, at, reason) in list)
      && (Responds(d, ca, serial, Good) <==>
          SerialTaken(d, ca, FormatSerial(serial)) && forall e :: e in list ==> e.serial != serial)
      && (Responds(d, ca, serial, Unknown) <==> !SerialTaken(d, ca, FormatSerial(serial)))
  {
    ListStaysCurrent(warnDays, h, ca);
    AlwaysInv(warnDays, h);
    ListAndResponderAgree(State(warnDays, h), ca, serial);
  }

  // ---- Whole requests ----

  /**
   What a revocation leaves: it deletes the row of a hold, inserts the new row, which the unique
   index refuses while there is one, and saves the certificate; `up` says which writes succeed.
   */
  function AfterRevocation(d: Db, c: Id, reason: int, now: int, up: nat -> bool): Db {
    if !ValidReason(reason) || c !in d.certificates || d.certificates[c].status == Revoked then d
    else
      var held := d.certificates[c].status == Held;
      if held && HasRow(d, c) && !up(0) then d
      else
        var freed := if held then WithoutRow(d, c) else d;
        if HasRow(freed, c) || !up(1) then freed
        else if !up(2) then WithRow(freed, c, reason, now)
        else WithStatus(WithRow(freed, c, reason, now), c, StatusFor(reason))
  }

  predicate RevocationSucceeds(d: Db, c: Id, reason: int, up: nat -> bool) {
    && ValidReason(reason) && c in d.certificates && d.certificates[c].status != Revoked
    && (HasRow(d, c) ==> d.certificates[c].status == Held && up(0)) && up(1) && up(2)
  }

  /** It got as far as writing something. */
  predicate RevocationWrites(d: Db, c: Id, reason: int, up: nat -> bool) {
    && ValidReason(reason) && c in d.certificates && d.certificates[c].status != Revoked
    && if HasRow(d, c) then d.certificates[c].status == Held && up(0) else up(1)
  }

  /** What lifting a hold leaves: it deletes the row and saves the certificate. */
  function AfterLifting(warnDays: int, d: Db, c: Id, now: int, up: nat -> bool): Db {
    if c !in d.certificates || d.certificates[c].status != Held || !HasRow(d, c) || !up(0) then d
    else if !up(1) then WithoutRow(d, c)
    else WithLifted(warnDays, WithoutRow(d, c), c, now)
  }

  predicate LiftingSucceeds(d: Db, c: Id, up: nat -> bool) {
    c in d.certificates && d.certificates[c].status == Held && HasRow(d, c) && up(0) && up(1)
  }

  predicate IsRowOf(d: Db, r: Id, c: Id, reason: int, now: int) {
    && c in d.certificates && d.certificates[c].status == StatusFor(reason)
    && r in d.revocations
    && d.revocations[r] == Revocation(c, d.certificates[c].authority, d.certificates[c].serial, reason, now)
  }

  lemma DroppedHasNoRow(d: Db, c: Id)
    ensures !HasRow(WithoutRow(d, c), c)
    ensures !HasRow(d, c) ==> WithoutRow(d, c) == d
  {
    NoRow(d, c);
    NoRow(WithoutRow(d, c), c);
  }

  lemma WithRowHasRow(d: Db, c: Id, reason: int, now: int)
    requires c in d.certificates
    ensures HasRowFor(WithRow(d, c, reason, now), c, reason)
  {
    assert WithRow(d, c, reason, now).revocations[d.next].certificate == c;
  }

  lemma WithoutRowKeepsInv(d: Db, c: Id)
    requires Inv(d)
    ensures Inv(WithoutRow(d, c))
  {
    var e := WithoutRow(d, c);
    forall r | r in e.revocations
      ensures RowOk(e, r)
    {
      assert RowOk(d, r);
    }
    forall r, q | r in e.revocations && q in e.revocations && SameCertificate(e, r, q)
      ensures r == q
    {
      assert SameCertificate(d, r, q);
    }
    forall a, b | a in e.certificates && b in e.certificates && SameSerial(e, a, b)
      ensures a == b
    {
      assert SameSerial(d, a, b);
    }
  }

  lemma InsertedKeepsInv(d: Db, c: Id, reason: int, now: int)
    requires Inv(d) && Enabled(d, InsertRow(c, reason, now))
    ensures Inv(WithRow(d, c, reason, now))
  {
    RowsOkKept(0, d, InsertRow(c, reason, now));
    OneRowEachKept(0, d, InsertRow(c, reason, now));
    SerialsOkKept(0, d, InsertRow(c, reason, now));
  }

  /** From the insertion on: out of order until the certificate is saved, unless it was held and is held again. */
  lemma InsertionKeepsExactly(d: Db, c: Id, reason: int, now: int, saved: bool)
    requires Inv(d) && Enabled(d, InsertRow(c, reason, now))
    ensures var inserted := WithRow(d, c, reason, now);
      OneRowIfWithdrawn(if saved then WithStatus(inserted, c, StatusFor(reason)) else inserted, c) <==>
      saved || HeldAgain(d, c, reason)
  {
    InsertedKeepsInv(d, c, reason, now);
    InsertedIsInOrderExactly(d, c, reason, now);
    WithRowHasRow(d, c, reason, now);
    SavedIsInOrder(WithRow(d, c, reason, now), c, reason);
  }

  /**
   A revocation that writes anything leaves its certificate in order exactly when the row was
   inserted and then the certificate saved, or was held and is held again; one that writes
   nothing leaves it as it was.
   */
  lemma RevocationKeepsExactly(d: Db, c: Id, reason: int, now: int, up: nat -> bool)
    requires Inv(d) && c in d.certificates
    ensures var e := AfterRevocation(d, c, reason, now, up);
      && c in e.certificates
      && (OneRowIfWithdrawn(e, c) <==>
          if !RevocationWrites(d, c, reason, up) then OneRowIfWithdrawn(d, c)
          else up(1) && (up(2) || HeldAgain(d, c, reason)))
  {
    DroppedHasNoRow(d, c);
    if RevocationWrites(d, c, reason, up) {
      var freed := if d.certificates[c].status == Held then WithoutRow(d, c) else d;
      WithoutRowKeepsInv(d, c);
      if up(1) {
        InsertionKeepsExactly(freed, c, reason, now, up(2));
      } else {
        DroppedIsOutOfOrder(d, c);
      }
    }
  }

  /** A lifting that writes anything leaves its certificate in order exactly when it was saved. */
  lemma LiftingKeepsExactly(warnDays: int, d: Db, c: Id, now: int, up: nat -> bool)
    requires c in d.certificates
    ensures var e := AfterLifting(warnDays, d, c, now, up);
      && c in e.certificates
      && (OneRowIfWithdrawn(e, c) <==>
          if !(d.certificates[c].status == Held && HasRow(d, c) && up(0)) then OneRowIfWithdrawn(d, c) else up(1))
  {
    DroppedHasNoRow(d, c);
    if d.certificates[c].status == Held && up(0) {
      DroppedIsOutOfOrder(d, c);
      LiftedIsInOrder(warnDays, WithoutRow(d, c), c, now);
    }
  }

  /** The certificate and its rows are the same. */
  predicate SameFor(d: Db, e: Db, c: Id) {
    && c in d.certificates && c in e.certificates && e.certificates[c] == d.certificates[c]
    && SameRows(d, e, c)
  }

  lemma DropElsewhere(d: Db, c: Id, other: Id)
    requires other in d.certificates && other != c
    ensures SameFor(d, WithoutRow(d, c), other)
  {
    assert RowsFor(WithoutRow(d, c), other) == RowsFor(d, other);
  }

  lemma InsertElsewhere(d: Db, c: Id, other: Id, reason: int, now: int)
    requires other in d.certificates && other != c && d.next !in d.revocations
    ensures SameFor(d, WithRow(d, c, reason, now), other)
  {
    assert RowsFor(WithRow(d, c, reason, now), other) == RowsFor(d, other);
  }

  lemma SaveElsewhere(d: Db, c: Id, other: Id, status: Status)
    requires other in d.certificates && other != c
    ensures SameFor(d, WithStatus(d, c, status), other)
  {
    assert RowsFor(WithStatus(d, c, status), other) == RowsFor(d, other);
  }

  lemma RevocationElsewhere(d: Db, c: Id, other: Id, reason: int, now: int, up: nat -> bool)
    requires other in d.certificates && other != c && d.next !in d.revocations
    ensures SameFor(d, AfterRevocation(d, c, reason, now, up), other)
  {
    DropElsewhere(d, c, other);
    var freed := WithoutRow(d, c);
    InsertElsewhere(d, c, other, reason, now);
    InsertElsewhere(freed, c, other, reason, now);
    SaveElsewhere(WithRow(d, c, reason, now), c, other, StatusFor(reason));
    SaveElsewhere(WithRow(freed, c, reason, now), c, other, StatusFor(reason));
  }

  lemma LiftingElsewhere(warnDays: int, d: Db, c: Id, other: Id, now: int, up: nat -> bool)
    requires other in d.certificates && other != c
    ensures SameFor(d, AfterLifting(warnDays, d, c, now, up), other)
  {
    DropElsewhere(d, c, other);
    var freed := WithoutRow(d, c);
    if c in d.certificates {
      SaveElsewhere(freed, c, other, DeriveStatus(freed.certificates[c].(status := Active), warnDays, now));
    }
  }

  /** Wherever a revocation or a lifting stops, every other certificate is as it was, in order or not. */
  lemma RequestsKeepOthers(warnDays: int, d: Db, c: Id, other: Id, reason: int, now: int, up: nat -> bool)
    requires Inv(d) && other in d.certificates && other != c
    ensures var e := AfterRevocation(d, c, reason, now, up);
      other in e.certificates && (OneRowIfWithdrawn(e, other) <==> OneRowIfWithdrawn(d, other))
    ensures var e := AfterLifting(warnDays, d, c, now, up);
      other in e.certificates && (OneRowIfWithdrawn(e, other) <==> OneRowIfWithdrawn(d, other))
  {
    assert d.next in d.revocations ==> RowOk(d, d.next);
    RevocationElsewhere(d, c, other, reason, now, up);
    LiftingElsewhere(warnDays, d, c, other, now, up);
    SameLifecycle(d, AfterRevocation(d, c, reason, now, up), other);
    SameLifecycle(d, AfterLifting(warnDays, d, c, now, up), other);
  }

  /**
   A revocation whose row was stored but whose certificate was not saved leaves a certificate that
   was not held usable with a row: the index then refuses every later revocation, and no hold is
   there to lift, so neither changes anything again.
   */
  lemma HalfRevocationSticks(warnDays: int, d: Db, c: Id, reason: int, now: int, up: nat -> bool,
      later: int, moment: int, again: nat -> bool)
    requires c in d.certificates && !Withdrawn(d.certificates[c].status) && !HasRow(d, c)
    requires ValidReason(reason) && up(1) && !up(2)
    ensures var e := AfterRevocation(d, c, reason, now, up);
      && c in e.certificates && e.certificates[c] == d.certificates[c] && HasRowFor(e, c, reason)
      && AfterRevocation(e, c, later, moment, again) == e
      && AfterLifting(warnDays, e, c, moment, again) == e
  {
    var e := AfterRevocation(d, c, reason, now, up);
    assert e == WithRow(d, c, reason, now);
    WithRowHasRow(d, c, reason, now);
  }

  /**
   A hold whose row was deleted and not replaced stays held without a row: it cannot be lifted,
   but a revocation whose two writes succeed is as if the hold had still had its row.
   */
  lemma HalfReplacedHoldLosesItsRow(warnDays: int, d: Db, c: Id, reason: int, now: int, up: nat -> bool,
      later: int, moment: int, again: nat -> bool)
    requires c in d.certificates && d.certificates[c].status == Held && HasRow(d, c)
    requires ValidReason(reason) && up(0) && !up(1)
    ensures var e := AfterRevocation(d, c, reason, now, up);
      && e.certificates == d.certificates && !HasRow(e, c)
      && AfterLifting(warnDays, e, c, moment, again) == e
      && (again(0) ==> AfterRevocation(e, c, later, moment, again) == if !ValidReason(later) then e
          else AfterRevocation(d, c, later, moment, again))
  {
    DroppedHasNoRow(d, c);
    DroppedHasNoRow(WithoutRow(d, c), c);
  }

  /** A lifting that stops half way leaves the same tables as a hold half replaced. */
  lemma HalfLiftedHoldLosesItsRow(warnDays: int, d: Db, c: Id, reason: int, now: int, up: nat -> bool,
      writes: nat -> bool)
    requires c in d.certificates && d.certificates[c].status == Held && HasRow(d, c) && ValidReason(reason)
    requires up(0) && !up(1) && writes(0) && !writes(1)
    ensures AfterLifting(warnDays, d, c, now, up) == AfterRevocation(d, c, reason, now, writes)
  {
    DroppedHasNoRow(d, c);
  }

  /** A hold whose row was replaced by a final one, but not saved, can still be lifted. */
  lemma UnsavedRevocationCanBeLifted(warnDays: int, d: Db, c: Id, reason: int, now: int, up: nat -> bool,
      moment: int, again: nat -> bool)
    requires c in d.certificates && d.certificates[c].status == Held && HasRow(d, c)
    requires ValidReason(reason) && reason != HOLD && up(0) && up(1) && !up(2) && again(0) && again(1)
    ensures var e := AfterRevocation(d, c, reason, now, up);
      && HasRowFor(e, c, reason)
      && var lifted := AfterLifting(warnDays, e, c, moment, again);
      && !Withdrawn(lifted.certificates[c].status) && !HasRow(lifted, c)
  {
    var e := AfterRevocation(d, c, reason, now, up);
    DroppedHasNoRow(d, c);
    assert e == WithRow(WithoutRow(d, c), c, reason, now);
    WithRowHasRow(WithoutRow(d, c), c, reason, now);
    DroppedHasNoRow(e, c);
  }
}
