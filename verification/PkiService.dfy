/**
 The service methods over the certificate tables. `up` says which store writes succeed. Whatever
 fails, a method leaves tables that a legal run of steps leaves: one step for each write or
 transaction that went through.
 */
module PkiService {
  import opened Text
  import opened Serial
  import opened Runs
  import opened PkiTables
  import opened PkiEffects
  import Forest
  import Revocations
  import Renewals
  import Statuses

  datatype Failure = Invalid | NotFound | Conflict | InUse | Unusable | StoreFailed

  datatype Outcome<+T> = Ok(value: T) | Fail(failure: Failure)

  class Service {
    /** How many days before its end a certificate counts as expiring; never changes. */
    const warnDays: nat
    var authorities: map<Id, Authority>
    var certificates: map<Id, Certificate>
    var revocations: map<Id, Revocation>
    var next: Id
    /** Every step made so far. */
    ghost var history: History

    constructor (warnDays: nat)
      ensures Consistent() && Tables() == EMPTY && this.warnDays == warnDays
    {
      this.warnDays := warnDays;
      authorities, certificates, revocations, next := map[], map[], map[], 0;
      history := Start;
    }

    function Tables(): Db
      reads this
    {
      Db(authorities, certificates, revocations, next)
    }

    /** The tables are what a legal run of steps left. */
    ghost predicate Consistent()
      reads this
    {
      Legal(warnDays, history) && Tables() == State(warnDays, history)
    }

    ghost method Record(step: Step)
      requires Legal(warnDays, history) && Enabled(State(warnDays, history), step)
      requires Tables() == Apply(warnDays, State(warnDays, history), step)
      modifies this`history
      ensures Consistent() && history == Then(old(history), step)
    {
      history := Then(history, step);
    }

    /** Only steps made at `now` came after `past`. */
    ghost predicate Since(past: History, now: int)
      reads this
    {
      Earlier(past, history) && (ClockedUntil(past, now) ==> ClockedUntil(history, now))
    }

    // ---- Issuers ----

    /** Walks from an authority up to its root, parent first. */
    method Chain(id: Id) returns (chain: seq<Id>, ok: bool)
      requires Forest.Rooted(Tables()) && id in authorities
      ensures var above := Ancestors(Tables(), id);
        && (ok <==> |above| < CHAIN_LIMIT)
        && (ok ==> chain == above)
        && (!ok ==> |chain| == CHAIN_LIMIT && chain <= above)
    {
      ghost var d := Tables();
      var current := id;
      chain := [];
      for i := 0 to CHAIN_LIMIT
        invariant |chain| == i && current in authorities
        invariant Ancestors(d, id) == chain + Ancestors(d, current)
      {
        Forest.AncestorsStep(d, current);
        if authorities[current].parent == None {
          return chain, true;
        }
        var parent := authorities[current].parent.value;
        assert Ancestors(d, id) == chain + [parent] + Ancestors(d, parent);
        chain := chain + [parent];
        current := parent;
      }
      return chain, false;
    }

    /** `given` says whether a passphrase came with the request. */
    method LoadCa(id: Id, given: bool) returns (ok: bool)
      requires Consistent()
      ensures ok <==> Loads(Tables(), id) && (authorities[id].passphrase ==> given)
      ensures ok <==> Opens(Tables(), id, given)
    {
      if id !in authorities {
        return false;
      }
      if authorities[id].passphrase && !given {
        return false;
      }
      Forest.AlwaysInv(warnDays, history);
      var chain, whole := Chain(id);
      return whole;
    }

    static method CheckIssuerCanSign(issuer: Authority, now: int, notAfter: int, forCa: bool) returns (ok: bool)
      ensures ok <==> CanSign(issuer, now, notAfter, forCa)
      ensures ok <==>
        && issuer.notBefore <= now <= issuer.notAfter && notAfter <= issuer.notAfter
        && !(forCa && issuer.pathLenZero)
    {
      if now < issuer.notBefore {
        return false;
      }
      if now > issuer.notAfter {
        return false;
      }
      if notAfter > issuer.notAfter {
        return false;
      }
      return !(forCa && issuer.pathLenZero);
    }

    /**
     Creates a root, or an intermediate signed by its parent. A second write stores the URLs that
     name the new row; when it fails the request does too, and the authority is there all the same.
     */
    method CreateAuthority(parent: Option<Id>, given: bool, notBefore: int, notAfter: int, pathLenZero: bool,
        passphrase: bool, now: int, up: bool, urls: bool) returns (r: Outcome<Id>)
      requires Consistent()
      modifies this`authorities, this`next, this`history
      ensures Consistent()
      ensures var stored := up && (parent.Some? ==>
          && Loads(old(Tables()), parent.value) && (old(authorities)[parent.value].passphrase ==> given)
          && CanSign(old(authorities)[parent.value], now, notAfter, true));
        && (r.Ok? <==> stored && urls) && (r.Ok? ==> r.value == old(next))
        && history == if !stored then old(history) else Then(old(history),
             Step.CreateAuthority(Authority(parent, notBefore, notAfter, pathLenZero, passphrase, 0, None), now))
      ensures var stored := up && (parent.Some? ==>
          && MaySign(old(Tables()), parent.value, given, now, notAfter) && !old(authorities)[parent.value].pathLenZero);
        && (r.Ok? <==> stored && urls)
        && authorities == if !stored then old(authorities) else old(authorities)[old(next) :=
             Authority(parent, notBefore, notAfter, pathLenZero, passphrase, 0, None)]
      ensures r.Fail? ==> r.failure == if parent.None? then StoreFailed
        else if !Opens(old(Tables()), parent.value, given) then Unusable
        else if !MaySign(old(Tables()), parent.value, given, now, notAfter) then Invalid
        else if old(authorities)[parent.value].pathLenZero then Invalid else StoreFailed
    {
      if parent.Some? {
        var loaded := LoadCa(parent.value, given);
        if !loaded {
          return Fail(Unusable);
        }
        var fits := CheckIssuerCanSign(authorities[parent.value], now, notAfter, true);
        if !fits {
          return Fail(Invalid);
        }
      }
      if !up {
        return Fail(StoreFailed);
      }
      var row := Authority(parent, notBefore, notAfter, pathLenZero, passphrase, 0, None);
      var id := next;
      authorities, next := authorities[id := row], id + 1;
      Record(Step.CreateAuthority(row, now));
      if !urls {
        return Fail(StoreFailed);
      }
      return Ok(id);
    }

    method DeleteAuthority(id: Id, force: bool, now: int, up: bool) returns (r: Outcome<()>)
      requires Consistent()
      modifies this`authorities, this`certificates, this`revocations, this`history
      ensures Consistent()
      ensures r.Ok? <==> up && Enabled(old(Tables()), Step.DeleteAuthority(id, force, now))
      ensures r.Ok? ==> history == Then(old(history), Step.DeleteAuthority(id, force, now))
      ensures r.Fail? ==> history == old(history)
      ensures r.Ok? <==> up && MayGo(old(Tables()), id, force)
      ensures if r.Ok? then Gone(old(Tables()), Tables(), id, force) else Tables() == old(Tables())
      ensures r.Fail? ==> r.failure == if id !in old(authorities) then NotFound
        else if !force && !Unused(old(Tables()), id) then InUse else StoreFailed
    {
      MayGoExactly(Tables(), id, force, now);
      DeletedIsGone(warnDays, Tables(), id, force, now);
      if id !in authorities {
        return Fail(NotFound);
      }
      if !force && (HasCertificate(Tables(), id) || HasChild(Tables(), id)) {
        return Fail(InUse);
      }
      if !up {
        return Fail(StoreFailed);
      }
      // The foreign keys refuse to orphan what hangs off a child.
      if force && exists a :: a in authorities && authorities[a].parent == Some(id) && InUseBelow(Tables(), a) {
        return Fail(StoreFailed);
      }
      if force {
        Fell(id, now);
      } else {
        authorities := authorities - {id};
        Record(Step.DeleteAuthority(id, false, now));
      }
      return Ok(());
    }

    /** One transaction: revocations, certificates, children, then the authority itself. */
    method Fell(id: Id, now: int)
      requires Consistent() && Enabled(Tables(), Step.DeleteAuthority(id, true, now))
      modifies this`authorities, this`certificates, this`revocations, this`history
      ensures Consistent() && history == Then(old(history), Step.DeleteAuthority(id, true, now))
    {
      ghost var before := Tables();
      revocations := map q | q in revocations && revocations[q].authority != id :: revocations[q];
      certificates := map c | c in certificates && certificates[c].authority != id :: certificates[c];
      authorities := map a | a in authorities && authorities[a].parent != Some(id) :: authorities[a];
      authorities := authorities - {id};
      FelledInTwo(before, id);
      Record(Step.DeleteAuthority(id, true, now));
    }

    // ---- Certificates ----

    /** The renewal window a new row is stored with. */
    static method CapWindow(requested: int, autoRenew: bool, days: int) returns (window: int)
      ensures window == Window(requested, autoRenew, days)
      ensures Renewals.IsWindow(window, requested, autoRenew, days)
    {
      Renewals.WindowExactly(requested, autoRenew, days);
      window := requested;
      if window <= 0 {
        window := 30;
      }
      if autoRenew && days > 0 && window >= days {
        var capped := days / 2;
        if capped < 1 {
          capped := 1;
        }
        window := capped;
      }
    }

    /** Signs a certificate for `days` from just before `now` and stores it. */
    method Issue(ca: Id, given: bool, serial: string, days: int, autoRenew: bool, requested: int, now: int, up: bool)
      returns (r: Outcome<Id>)
      requires Consistent() && days >= 1 && SerialText(serial)
      modifies this`certificates, this`next, this`history
      ensures Consistent()
      ensures var step := Insert(IssuedRow(ca, serial, days, autoRenew, requested, now), requested, now);
        && (r.Ok? <==>
            && up && Loads(old(Tables()), ca) && (old(authorities)[ca].passphrase ==> given)
            && CanSign(old(authorities)[ca], now, now - CLOCK_SKEW + days * DAY, false)
            && !SerialTaken(old(Tables()), ca, serial))
        && (r.Ok? ==> r.value == old(next) && history == Then(old(history), step))
      ensures r.Fail? ==> history == old(history)
      ensures r.Ok? <==>
        && up && MaySign(old(Tables()), ca, given, now, now - 300 + days * 86400)
        && FreeSerial(old(Tables()), ca, serial)
      ensures r.Ok? ==> IssuedAs(certificates, old(certificates), r.value, ca, serial, days, autoRenew, requested, now)
      ensures r.Fail? ==> certificates == old(certificates)
      ensures r.Fail? ==> r.failure == if !Opens(old(Tables()), ca, given) then Unusable
        else if !MaySign(old(Tables()), ca, given, now, now - 300 + days * 86400) then Invalid else StoreFailed
    {
      var loaded := LoadCa(ca, given);
      if !loaded {
        return Fail(Unusable);
      }
      var notBefore := now - CLOCK_SKEW;
      var notAfter := notBefore + days * DAY;
      var fits := CheckIssuerCanSign(authorities[ca], now, notAfter, false);
      if !fits {
        return Fail(Invalid);
      }
      var window := CapWindow(requested, autoRenew, days);
      if SerialTaken(Tables(), ca, serial) || !up {
        return Fail(StoreFailed);
      }
      var row := Certificate(ca, serial, Active, notBefore, notAfter, days, autoRenew, window, None);
      assert row == IssuedRow(ca, serial, days, autoRenew, requested, now);
      var id := InsertCertificate(row, requested, now);
      return Ok(id);
    }

    method InsertCertificate(row: Certificate, ghost requested: int, ghost now: int) returns (id: Id)
      requires Consistent() && Enabled(Tables(), Insert(row, requested, now))
      modifies this`certificates, this`next, this`history
      ensures Consistent()
      ensures id == old(next) && history == Then(old(history), Insert(row, requested, now))
    {
      id := next;
      certificates, next := certificates[id := row], id + 1;
      Record(Insert(row, requested, now));
    }

    /**
     `key` says that the stored key can be opened, or that a new one was asked for; `days` of zero
     or less keep the life.
     */
    method Renew(id: Id, given: bool, key: bool, serial: string, days: int, now: int, up: nat -> bool)
      returns (r: Outcome<Id>)
      requires Consistent() && SerialText(serial)
      modifies this`certificates, this`next, this`history
      ensures Consistent()
      ensures r.Ok? <==> (key && up(0) && Enabled(old(Tables()), Step.Renew(id, serial, days, up(1), now))
        && (old(authorities)[old(certificates)[id].authority].passphrase ==> given))
      ensures r.Ok? ==>
        r.value == old(next) && history == Then(old(history), Step.Renew(id, serial, days, up(1), now))
      ensures r.Fail? ==> history == old(history)
      ensures r.Ok? <==> key && up(0) && MayRenew(old(Tables()), id, given, serial, days, now)
      ensures r.Ok? ==> RenewedAs(certificates, old(certificates), r.value, id, serial, days, up(1), now)
      ensures r.Fail? ==> certificates == old(certificates)
      ensures r.Fail? ==> r.failure == if id !in old(certificates) then NotFound
        else if old(certificates)[id].status == Revoked then Invalid
        else if !key || !Opens(old(Tables()), old(certificates)[id].authority, given) then Unusable
        else if !MaySignRenewal(old(Tables()), id, given, days, now) then Invalid else StoreFailed
    {
      MayRenewExactly(Tables(), id, given, serial, days, up(1), now);
      if id !in certificates {
        return Fail(NotFound);
      }
      var current := certificates[id];
      if current.status == Revoked {
        return Fail(Invalid);
      }
      var loaded := LoadCa(current.authority, given);
      if !loaded || !key {
        return Fail(Unusable);
      }
      r := SignReplacement(id, serial, days, now, up);
    }

    /** Signs and stores the replacement of a certificate whose issuer is loaded. */
    method SignReplacement(id: Id, serial: string, days: int, now: int, up: nat -> bool) returns (r: Outcome<Id>)
      requires Consistent() && SerialText(serial)
      requires id in certificates && certificates[id].status != Revoked && Loads(Tables(), certificates[id].authority)
      modifies this`certificates, this`next, this`history
      ensures Consistent()
      ensures r.Ok? <==> up(0) && Enabled(old(Tables()), Step.Renew(id, serial, days, up(1), now))
      ensures r.Ok? ==>
        r.value == old(next) && history == Then(old(history), Step.Renew(id, serial, days, up(1), now))
      ensures r.Fail? ==> history == old(history)
      ensures r.Ok? ==> RenewedAs(certificates, old(certificates), r.value, id, serial, days, up(1), now)
      ensures r.Fail? ==> certificates == old(certificates)
      ensures r.Fail? ==>
        r.failure == if MaySignRenewal(old(Tables()), id, true, days, now) then StoreFailed else Invalid
    {
      var current := certificates[id];
      var life := days;
      if life <= 0 {
        life := current.validityDays;
      }
      var notBefore := now - CLOCK_SKEW;
      var notAfter := notBefore + life * DAY;
      var fits := CheckIssuerCanSign(authorities[current.authority], now, notAfter, false);
      if !fits {
        return Fail(Invalid);
      }
      var window := CapWindow(current.renewBefore, current.autoRenew, life);
      if SerialTaken(Tables(), current.authority, serial) || !up(0) {
        return Fail(StoreFailed);
      }
      var row := Certificate(current.authority, serial, Active, notBefore, notAfter, life,
        current.autoRenew, window, Some(id));
      var replacement := StoreReplacement(id, row, days, now, up(1));
      return Ok(replacement);
    }

    /** Stores a replacement, then clears automatic renewal on the row it replaces; failing to is only logged. */
    method StoreReplacement(id: Id, row: Certificate, ghost days: int, ghost now: int, up: bool)
      returns (replacement: Id)
      requires Consistent() && Enabled(Tables(), Step.Renew(id, row.serial, days, up, now))
      requires row == Renewed(certificates[id], id, row.serial, days, now)
      modifies this`certificates, this`next, this`history
      ensures Consistent()
      ensures replacement == old(next)
      ensures history == Then(old(history), Step.Renew(id, row.serial, days, up, now))
      ensures RenewedAs(certificates, old(certificates), replacement, id, row.serial, days, up, now)
    {
      Renewals.AlwaysCertificatesOlder(warnDays, history);
      RowRenewedAs(Tables(), id, row.serial, days, up, now);
      replacement := next;
      certificates, next := certificates[replacement := row], replacement + 1;
      if certificates[id].autoRenew && up {
        certificates := certificates[id := certificates[id].(autoRenew := false)];
      }
      assert certificates == AfterRenew(old(Tables()), id, row.serial, days, up, now).certificates;
      Record(Step.Renew(id, row.serial, days, up, now));
    }

    method UpdateCertificate(id: Id, autoRenew: Option<bool>, renewBefore: Option<int>, now: int, up: bool)
      returns (r: Outcome<()>)
      requires Consistent()
      modifies this`certificates, this`history
      ensures Consistent()
      ensures r.Ok? <==> up && id in old(certificates) && (renewBefore.Some? ==> 1 <= renewBefore.value <= 365)
      ensures r.Ok? ==> history == Then(old(history), Edit(id,
        if autoRenew.Some? then autoRenew.value else old(certificates)[id].autoRenew,
        if renewBefore.Some? then renewBefore.value else old(certificates)[id].renewBefore, now))
      ensures r.Fail? ==> history == old(history)
      ensures certificates == if r.Fail? then old(certificates) else
        var was := old(certificates)[id];
        old(certificates)[id := was.(
          autoRenew := if autoRenew == None then was.autoRenew else autoRenew.value,
          renewBefore := if renewBefore == None then was.renewBefore else renewBefore.value)]
      ensures r.Fail? ==> r.failure == if id !in old(certificates) then NotFound
        else if renewBefore.Some? && !(1 <= renewBefore.value <= 365) then Invalid else StoreFailed
    {
      if id !in certificates {
        return Fail(NotFound);
      }
      var row := certificates[id];
      if autoRenew.Some? {
        row := row.(autoRenew := autoRenew.value);
      }
      if renewBefore.Some? {
        if renewBefore.value < 1 || renewBefore.value > 365 {
          return Fail(Invalid);
        }
        row := row.(renewBefore := renewBefore.value);
      }
      if !up {
        return Fail(StoreFailed);
      }
      certificates := certificates[id := row];
      Record(Edit(id, row.autoRenew, row.renewBefore, now));
      return Ok(());
    }

    method DeleteCertificate(id: Id, now: int, up: bool) returns (r: Outcome<()>)
      requires Consistent()
      modifies this`certificates, this`revocations, this`history
      ensures Consistent()
      ensures r.Ok? <==> up && id in old(certificates)
      ensures r.Ok? ==> history == Then(old(history), Step.DeleteCertificate(id, now))
      ensures r.Fail? ==> history == old(history)
      ensures r.Ok? ==> certificates == old(certificates) - {id} && RestKept(old(Tables()), Tables(), id)
      ensures r.Ok? ==> NoRowOf(Tables(), id)
      ensures r.Fail? ==> Tables() == old(Tables()) && r.failure == if up then NotFound else StoreFailed
    {
      if !up {
        return Fail(StoreFailed);
      }
      if id !in certificates {
        return Fail(NotFound);
      }
      DroppedRows(Tables(), id);
      revocations := revocations - RowsFor(Tables(), id);
      certificates := certificates - {id};
      Record(Step.DeleteCertificate(id, now));
      return Ok(());
    }

    // ---- Revocation ----

    /** Three writes at most, each of which may fail. */
    method Revoke(id: Id, reason: int, now: int, up: nat -> bool) returns (r: Outcome<Id>)
      requires Consistent()
      modifies this`revocations, this`certificates, this`next, this`history
      ensures Consistent() && Since(old(history), now)
      ensures Tables() == Revocations.AfterRevocation(old(Tables()), id, reason, now, up)
      ensures r.Ok? <==> Revocations.RevocationSucceeds(old(Tables()), id, reason, up)
      ensures r.Ok? ==> Revocations.IsRowOf(Tables(), r.value, id, reason, now)
      ensures id in old(certificates) ==>
        && id in certificates
        && (Revocations.OneRowIfWithdrawn(Tables(), id) <==>
            if !Revocations.RevocationWrites(old(Tables()), id, reason, up)
            then Revocations.OneRowIfWithdrawn(old(Tables()), id)
            else up(1) && (up(2) || Revocations.HeldAgain(old(Tables()), id, reason)))
      ensures RevokedAs(old(Tables()), Tables(), id, reason, now, up)
      ensures r.Ok? <==> MayRevoke(old(Tables()), id, reason) && WayIsFree(old(Tables()), id, up) && up(1) && up(2)
      ensures r.Ok? ==> r.value == old(next)
      ensures r.Fail? ==> r.failure == if !(0 <= reason <= 10 && reason != 7) then Invalid
        else if id !in old(certificates) then NotFound
        else if old(certificates)[id].status == Revoked then Conflict else StoreFailed
    {
      if !ValidReason(reason) {
        return Fail(Invalid);
      }
      if id !in certificates {
        return Fail(NotFound);
      }
      if certificates[id].status == Revoked {
        return Fail(Conflict);
      }
      Revocations.AlwaysInv(warnDays, history);
      Revocations.RevocationKeepsExactly(Tables(), id, reason, now, up);
      assert next in revocations ==> Revocations.RowOk(Tables(), next);
      RevocationExactly(Tables(), id, reason, now, up);
      r := StoreRevocation(id, reason, now, up);
    }

    method StoreRevocation(id: Id, reason: int, now: int, up: nat -> bool) returns (r: Outcome<Id>)
      requires Consistent() && ValidReason(reason) && id in certificates && certificates[id].status != Revoked
      modifies this`revocations, this`certificates, this`next, this`history
      ensures r.Fail? ==> r.failure == StoreFailed
      ensures Consistent() && Since(old(history), now)
      ensures Tables() == Revocations.AfterRevocation(old(Tables()), id, reason, now, up)
      ensures r.Ok? <==> Revocations.RevocationSucceeds(old(Tables()), id, reason, up)
      ensures r.Ok? ==> Revocations.IsRowOf(Tables(), r.value, id, reason, now)
    {
      if certificates[id].status == Held {
        var dropped := DropHold(id, now, up(0));
        if !dropped {
          return Fail(StoreFailed);
        }
      }
      // The index on the certificate refuses a second row.
      if HasRow(Tables(), id) || !up(1) {
        return Fail(StoreFailed);
      }
      r := InsertAndSave(id, reason, now, up(2), old(history));
    }

    method InsertAndSave(id: Id, reason: int, now: int, up: bool, ghost past: History) returns (r: Outcome<Id>)
      requires Consistent() && Since(past, now) && Enabled(Tables(), InsertRow(id, reason, now))
      modifies this`revocations, this`certificates, this`next, this`history
      ensures Consistent() && Since(past, now)
      ensures var inserted := WithRow(old(Tables()), id, reason, now);
        Tables() == if up then WithStatus(inserted, id, StatusFor(reason)) else inserted
      ensures r.Ok? <==> up
      ensures r.Fail? ==> r.failure == StoreFailed
      ensures r.Ok? ==> Revocations.IsRowOf(Tables(), r.value, id, reason, now)
    {
      var row := InsertRevocation(id, reason, now);
      assert Since(past, now);
      if !up {
        return Fail(StoreFailed);
      }
      SaveStatus(id, if reason == HOLD then Held else Revoked, SaveWithdrawn(id, reason, now));
      return Ok(row);
    }

    /** Deletes the row of a hold, if there is one. */
    method DropHold(id: Id, ghost now: int, up: bool) returns (ok: bool)
      requires Consistent() && id in certificates && certificates[id].status == Held
      modifies this`revocations, this`history
      ensures Consistent() && Since(old(history), now)
      ensures ok <==> (HasRow(old(Tables()), id) ==> up)
      ensures Tables() == if ok then WithoutRow(old(Tables()), id) else old(Tables())
      ensures ok ==> !HasRow(Tables(), id)
    {
      Revocations.DroppedHasNoRow(Tables(), id);
      if !HasRow(Tables(), id) {
        return true;
      }
      if !up {
        return false;
      }
      revocations := revocations - RowsFor(Tables(), id);
      Record(DropRow(id, now));
      return true;
    }

    method InsertRevocation(id: Id, reason: int, now: int) returns (row: Id)
      requires Consistent() && Enabled(Tables(), InsertRow(id, reason, now))
      modifies this`revocations, this`next, this`history
      ensures Consistent() && history == Then(old(history), InsertRow(id, reason, now))
      ensures row == old(next) && Tables() == WithRow(old(Tables()), id, reason, now)
      ensures HasRowFor(Tables(), id, reason)
    {
      Revocations.WithRowHasRow(Tables(), id, reason, now);
      row := next;
      var cert := certificates[id];
      revocations, next := revocations[row := Revocation(id, cert.authority, cert.serial, reason, now)], row + 1;
      Record(InsertRow(id, reason, now));
    }

    /** Saves a certificate with another status, for the given step. */
    method SaveStatus(id: Id, status: Status, ghost step: Step)
      requires Consistent() && Enabled(Tables(), step) && id in certificates
      requires Apply(warnDays, Tables(), step) == WithStatus(Tables(), id, status)
      modifies this`certificates, this`history
      ensures Consistent() && history == Then(old(history), step)
      ensures Tables() == WithStatus(old(Tables()), id, status)
    {
      certificates := certificates[id := certificates[id].(status := status)];
      Record(step);
    }

    /** Two writes, either of which may fail; the clock decides what the certificate comes back as. */
    method ReleaseHold(id: Id, now: int, up: nat -> bool) returns (r: Outcome<Status>)
      requires Consistent()
      modifies this`revocations, this`certificates, this`history
      ensures Consistent() && Since(old(history), now)
      ensures Tables() == Revocations.AfterLifting(warnDays, old(Tables()), id, now, up)
      ensures r.Ok? <==> Revocations.LiftingSucceeds(old(Tables()), id, up)
      ensures r.Ok? ==> id in certificates && r.value == certificates[id].status
      ensures r.Ok? ==> Statuses.AsTheClockSays(certificates[id], r.value, warnDays, now)
      ensures id in old(certificates) ==>
        && id in certificates
        && (Revocations.OneRowIfWithdrawn(Tables(), id) <==>
            if !(old(certificates)[id].status == Held && HasRow(old(Tables()), id) && up(0))
            then Revocations.OneRowIfWithdrawn(old(Tables()), id) else up(1))
      ensures LiftedAs(warnDays, old(Tables()), Tables(), id, now, up)
      ensures r.Ok? <==> MayLift(old(Tables()), id) && up(0) && up(1)
      ensures r.Fail? ==> r.failure == if id !in old(certificates) then NotFound
        else if old(certificates)[id].status != Held then Conflict
        else if NoRowOf(old(Tables()), id) then NotFound else StoreFailed
    {
      LiftingExactly(warnDays, Tables(), id, now, up);
      NoRowExactly(Tables(), id);
      if id !in certificates {
        return Fail(NotFound);
      }
      if certificates[id].status != Held {
        return Fail(Conflict);
      }
      if !HasRow(Tables(), id) {
        return Fail(NotFound);
      }
      Revocations.LiftingKeepsExactly(warnDays, Tables(), id, now, up);
      var dropped := DropHold(id, now, up(0));
      if !dropped {
        return Fail(StoreFailed);
      }
      var cert := certificates[id];
      Statuses.LiftedFollowsTheClock(warnDays, Tables(), id, now);
      cert := cert.(status := Active);
      cert := cert.(status := DeriveStatus(cert, warnDays, now));
      if !up(1) {
        return Fail(StoreFailed);
      }
      SaveStatus(id, cert.status, SaveLifted(id, now));
      return Ok(cert.status);
    }

    // ---- The expiry scan ----

    /** Since `past` the rows in `done` were looked at, and the `changed` ones updated at `now`. */
    ghost predicate ScannedSoFar(past: History, rows: map<Id, Certificate>, done: set<Id>, changed: nat, now: int)
      reads this
    {
      && Consistent() && Since(past, now)
      && done <= InRange(rows, warnDays, now)
      && certificates == Rescanned(rows, done, warnDays, now)
      && changed == |ChangedRows(rows, done, warnDays, now)|
    }

    /**
     Updates the rows in range one by one and stops at the first write that fails. Each update is
     a step of its own, so what was written by then is what a run leaves.
     */
    method RefreshCertificateStatuses(now: int, up: nat -> bool)
      returns (changed: nat, ok: bool, ghost done: set<Id>)
      requires Consistent()
      modifies this`certificates, this`history
      ensures ScannedSoFar(old(history), old(certificates), done, changed, now)
      ensures ok ==> Tables() == AfterScan(warnDays, old(Tables()), now)
      ensures ok && ClockedUntil(old(history), now) ==>
        Statuses.AllRight(old(certificates), certificates, warnDays, now)
      ensures Statuses.RightIn(old(certificates), certificates, done, warnDays, now)
      ensures var before := old(certificates);
        changed == |set c | c in before && c in certificates && certificates[c] != before[c]|
      ensures ok ==> done == InRange(old(certificates), warnDays, now)
      ensures !ok ==> !up(changed)
    {
      if ClockedUntil(history, now) {
        Statuses.ScanFollowsTheClock(warnDays, history, now);
      }
      RescannedNothing(certificates, warnDays, now);
      changed, ok, done := RefreshRows(InRange(certificates, warnDays, now), now, up, history, certificates);
      if ok {
        RescannedIsScan(old(Tables()), warnDays, now);
      }
      RescannedIsRight(old(certificates), done, warnDays, now);
    }

    method RefreshRows(range: set<Id>, now: int, up: nat -> bool, ghost past: History, ghost rows: map<Id, Certificate>)
      returns (changed: nat, ok: bool, ghost done: set<Id>)
      requires ScannedSoFar(past, rows, {}, 0, now) && range <= InRange(rows, warnDays, now)
      modifies this`certificates, this`history
      ensures ScannedSoFar(past, rows, done, changed, now) && done <= range
      ensures Statuses.RightIn(rows, certificates, done, warnDays, now)
      ensures if ok then done == range else !up(changed)
    {
      var todo := range;
      changed, ok, done := 0, true, {};
      while todo != {}
        modifies this`certificates, this`history
        invariant ScannedSoFar(past, rows, done, changed, now)
        invariant todo <= range && done == range - todo && ok
      {
        var c :| c in todo;
        changed, ok := RefreshOne(c, now, changed, up, past, rows, done);
        if !ok {
          break;
        }
        assert done + {c} == range - (todo - {c});
        done, todo := done + {c}, todo - {c};
      }
      RescannedIsRight(rows, done, warnDays, now);
    }

    /** One round of the scan. */
    method RefreshOne(c: Id, now: int, changed: nat, up: nat -> bool, ghost past: History,
        ghost rows: map<Id, Certificate>, ghost done: set<Id>) returns (count: nat, ok: bool)
      requires ScannedSoFar(past, rows, done, changed, now) && c in InRange(rows, warnDays, now) && c !in done
      modifies this`certificates, this`history
      ensures ok ==> ScannedSoFar(past, rows, done + {c}, count, now)
      ensures !ok ==> ScannedSoFar(past, rows, done, count, now) && !up(count)
    {
      RescanOneMore(rows, done, c, warnDays, now);
      var want := DeriveStatus(certificates[c], warnDays, now);
      if certificates[c].status == want {
        assert certificates == certificates[c := certificates[c].(status := want)];
        return changed, true;
      }
      if !up(changed) {
        return changed, false;
      }
      SaveStatus(c, want, Restatus(c, now));
      return changed + 1, true;
    }

    // ---- The list and the responder ----

    /** Rebuilds and stores an authority's revocation list. */
    method GenerateCrl(id: Id, given: bool, now: int, up: bool) returns (r: Outcome<set<Entry>>)
      requires Consistent()
      modifies this`authorities, this`history
      ensures Consistent()
      ensures r.Ok? <==> up && Loads(old(Tables()), id) && (old(authorities)[id].passphrase ==> given)
      ensures r.Ok? ==> r.value == EntriesOf(old(Tables()), id) && history == Then(old(history), Publish(id, now))
      ensures r.Fail? ==> history == old(history)
      ensures r.Ok? <==> up && Opens(old(Tables()), id, given)
      ensures r.Ok? ==> PublishedAs(old(Tables()), authorities, id, r.value)
      ensures r.Fail? ==> authorities == old(authorities)
      ensures r.Fail? ==> r.failure == if Opens(old(Tables()), id, given) then StoreFailed else Unusable
    {
      EntriesExactly(Tables(), id);
      var loaded := LoadCa(id, given);
      if !loaded {
        return Fail(Unusable);
      }
      var entries := ListEntries(id);
      if !up {
        return Fail(StoreFailed);
      }
      var row := authorities[id];
      authorities := authorities[id := row.(crlNumber := row.crlNumber + 1, crl := Some(entries))];
      Record(Publish(id, now));
      return Ok(entries);
    }

    /** The stored list, or a first one when none was ever published. */
    method CrlFor(id: Id, now: int, up: bool) returns (r: Outcome<set<Entry>>)
      requires Consistent()
      modifies this`authorities, this`history
      ensures Consistent()
      ensures r.Ok? ==> id in authorities && authorities[id].crl == Some(r.value)
      ensures r.Ok? ==> id in old(authorities)
      ensures r.Ok? ==>
        history == if old(authorities)[id].crl.Some? then old(history) else Then(old(history), Publish(id, now))
      ensures r.Fail? ==> history == old(history) && (id in old(authorities) ==> old(authorities)[id].crl == None)
      ensures r.Ok? <==>
        && id in old(authorities)
        && (old(authorities)[id].crl == None ==> up && Opens(old(Tables()), id, false))
      ensures r.Ok? && old(authorities)[id].crl.Some? ==>
        authorities == old(authorities) && r.value == old(authorities)[id].crl.value
      ensures r.Ok? && old(authorities)[id].crl == None ==> PublishedAs(old(Tables()), authorities, id, r.value)
      ensures r.Fail? ==> authorities == old(authorities)
      ensures r.Fail? ==> r.failure == if id !in old(authorities) || old(authorities)[id].passphrase then NotFound
        else if Opens(old(Tables()), id, false) then StoreFailed else Unusable
    {
      if id !in authorities {
        return Fail(NotFound);
      }
      if authorities[id].crl.Some? {
        return Ok(authorities[id].crl.value);
      }
      if authorities[id].passphrase {
        return Fail(NotFound);
      }
      r := GenerateCrl(id, false, now, up);
    }

    method ListEntries(id: Id) returns (entries: set<Entry>)
      ensures entries == EntriesOf(Tables(), id)
      ensures HoldsTheRows(Tables(), id, entries)
    {
      EntriesExactly(Tables(), id);
      entries := {};
      var todo := set q | q in revocations && revocations[q].authority == id;
      ghost var done: set<Id> := {};
      while todo != {}
        invariant done + todo == set q | q in revocations && revocations[q].authority == id
        invariant entries ==
          set q | q in done && q in revocations && ParseSerial(revocations[q].serial).Some? :: EntryOf(revocations[q])
      {
        var q :| q in todo;
        var serial := ParseSerial(revocations[q].serial);
        if serial.Some? {
          entries := entries + {Entry(serial.value, revocations[q].at, revocations[q].reason)};
        }
        done, todo := done + {q}, todo - {q};
      }
    }

    /** Answers a status query; None when the authority cannot sign without an operator. */
    method OcspRespond(id: Id, serial: int) returns (r: Option<Revocations.Answer>)
      requires Consistent()
      ensures r.Some? <==> Loads(Tables(), id) && !authorities[id].passphrase
      ensures r.Some? <==> Opens(Tables(), id, false)
      ensures r.Some? ==> Revocations.Responds(Tables(), id, serial, r.value)
    {
      if id in authorities && authorities[id].passphrase {
        return None;
      }
      var loaded := LoadCa(id, false);
      if !loaded {
        return None;
      }
      var text := FormatSerial(serial);
      var found := set c | c in certificates && certificates[c].authority == id && certificates[c].serial == text;
      if found == {} {
        assert forall c ::
          c in certificates && certificates[c].authority == id && certificates[c].serial == text ==> c in found;
        return Some(Revocations.Unknown);
      }
      var c :| c in found;
      assert Revocations.HasSerial(Tables(), id, c, text);
      var rows := RowsFor(Tables(), c);
      if rows == {} {
        assert !HasRow(Tables(), c) by {
          assert forall q :: q in revocations && revocations[q].certificate == c ==> q in rows;
        }
        assert Revocations.AnswersFor(Tables(), c, Revocations.Good);
        return Some(Revocations.Good);
      }
      var q :| q in rows;
      assert Revocations.RowAnswers(Tables(), q, c, revocations[q].at, revocations[q].reason);
      r := Some(Revocations.Withheld(revocations[q].at, revocations[q].reason));
      assert Revocations.AnswersFor(Tables(), c, r.value);
    }

    // ---- The scheduler's renewal pass ----

    /**
     Renews every due certificate for its own life; each attempt has its own serial and its own two
     writes. `keys` are the certificates whose stored key can be opened.
     */
    method AutoRenew(now: int, keys: set<Id>, serial: nat -> Positive, up: (nat, nat) -> bool)
      returns (due: nat, renewed: nat, failed: nat, ghost made: seq<Step>)
      requires Consistent()
      modifies this`certificates, this`next, this`history
      ensures Consistent() && Since(old(history), now)
      ensures history == Renewals.WithSteps(old(history), made) && |made| == renewed
      ensures Renewals.EachOnce(made, Renewals.DueRows(old(Tables()), now), now)
      ensures due == |Renewals.DueRows(old(Tables()), now)| == renewed + failed
      ensures var taken := Renewals.DueRows(old(Tables()), now);
        failed == 0 && (forall i :: up(i, 1)) && LongLived(old(Tables()), taken) ==>
          Renewals.DueRows(Tables(), now) == {}
      ensures (forall i :: up(i, 0)) && SerialsAreNew(old(Tables()), serial) ==>
        forall c :: IsRenewed(made, c) <==>
          DueNow(old(certificates), c, now) && c in keys && MayRenewItself(old(Tables()), c, now)
    {
      var rows := Renewals.DueRows(Tables(), now);
      due := |rows|;
      renewed, failed, made := RenewRows(rows, now, keys, serial, up);
      assert rows - {} == rows;
    }

    method RenewRows(rows: set<Id>, now: int, keys: set<Id>, serial: nat -> Positive, up: (nat, nat) -> bool)
      returns (renewed: nat, failed: nat, ghost made: seq<Step>)
      requires Consistent()
      modifies this`certificates, this`next, this`history
      ensures var clean := (forall i :: up(i, 1)) && AllDue(old(Tables()), rows, now);
        PassSoFar(old(history), rows, {}, made, failed, clean, now)
      ensures |made| == renewed
      ensures (forall i :: up(i, 0)) && SerialsAreNew(old(Tables()), serial) && rows <= old(certificates).Keys ==>
        RenewedExactly(old(Tables()), Tables(), rows, {}, made, keys, serial, |rows|, now)
    {
      ghost var past, clean := history, (forall i :: up(i, 1)) && AllDue(Tables(), rows, now);
      ghost var before := Tables();
      ghost var told := (forall i :: up(i, 0)) && SerialsAreNew(before, serial) && rows <= certificates.Keys;
      var todo := rows;
      renewed, failed, made := 0, 0, [];
      while todo != {}
        modifies this`certificates, this`next, this`history
        invariant PassSoFar(past, rows, todo, made, failed, clean, now) && |made| == renewed
        invariant told ==> RenewedExactly(before, Tables(), rows, todo, made, keys, serial, renewed + failed, now)
      {
        var c :| c in todo;
        var i := renewed + failed;
        var ok;
        ok, made := TryRow(c, keys, serial, i, now, (k: nat) => up(i, k), past, before, rows, todo, made, failed, clean,
          told);
        if ok {
          renewed := renewed + 1;
        } else {
          failed := failed + 1;
        }
        todo := todo - {c};
      }
    }

    /** One round of the pass: the next row, with the next serial. */
    method TryRow(c: Id, keys: set<Id>, serial: nat -> Positive, tried: nat, now: int, up: nat -> bool,
        ghost past: History, ghost before: Db, ghost rows: set<Id>, ghost todo: set<Id>, ghost made: seq<Step>,
        ghost failed: nat, ghost clean: bool, ghost told: bool)
      returns (ok: bool, ghost more: seq<Step>)
      requires PassSoFar(past, rows, todo, made, failed, clean, now) && c in todo && (clean ==> up(1))
      requires told ==> up(0) && SerialsDiffer(serial) && rows <= before.certificates.Keys
      requires told ==> RenewedExactly(before, Tables(), rows, todo, made, keys, serial, tried, now)
      modifies this`certificates, this`next, this`history
      ensures PassSoFar(past, rows, todo - {c}, more, if ok then failed else failed + 1, clean, now)
      ensures |more| == if ok then |made| + 1 else |made|
      ensures told ==> RenewedExactly(before, Tables(), rows, todo - {c}, more, keys, serial, tried + 1, now)
    {
      ghost var d := Tables();
      Renewals.AlwaysCertificatesOlder(warnDays, history);
      ok, more := RenewDue(c, c in keys, serial(tried), now, up, past, rows, todo, made, failed, clean);
      if told {
        AttemptKeepsExactly(before, d, Tables(), rows, todo, c, made, keys, serial, tried, ok, up(1), now);
      }
    }

    /** One attempt. */
    method RenewDue(c: Id, key: bool, serial: Positive, now: int, up: nat -> bool, ghost past: History,
        ghost rows: set<Id>, ghost todo: set<Id>, ghost made: seq<Step>, ghost failed: nat, ghost clean: bool)
      returns (ok: bool, ghost more: seq<Step>)
      requires PassSoFar(past, rows, todo, made, failed, clean, now) && c in todo && (clean ==> up(1))
      modifies this`certificates, this`next, this`history
      ensures PassSoFar(past, rows, todo - {c}, more, if ok then failed else failed + 1, clean, now)
      ensures more == if ok then made + [Step.Renew(c, FormatSerial(serial), 0, up(1), now)] else made
      ensures ok <==> key && up(0) && MayRenew(old(Tables()), c, false, FormatSerial(serial), 0, now)
      ensures if ok then RenewedAs(certificates, old(certificates), old(next), c, FormatSerial(serial), 0, up(1), now)
        else certificates == old(certificates)
    {
      ghost var step := Step.Renew(c, FormatSerial(serial), 0, up(1), now);
      Renewals.OneMoreTried(made, rows, todo, c, step.serial, up(1), now);
      Renewals.OneMoreStep(past, made, step);
      ok := Attempt(c, key, serial, now, up, todo);
      more := if ok then made + [step] else made;
    }

    method Attempt(c: Id, key: bool, serial: Positive, now: int, up: nat -> bool, ghost todo: set<Id>)
      returns (ok: bool)
      requires Consistent()
      modifies this`certificates, this`next, this`history
      ensures Consistent()
      ensures history ==
        if ok then Then(old(history), Step.Renew(c, FormatSerial(serial), 0, up(1), now)) else old(history)
      ensures ok && up(1) && c in todo && AllDue(old(Tables()), todo, now) ==> AllDue(Tables(), todo - {c}, now)
      ensures ok <==> key && up(0) && MayRenew(old(Tables()), c, false, FormatSerial(serial), 0, now)
      ensures if ok then RenewedAs(certificates, old(certificates), old(next), c, FormatSerial(serial), 0, up(1), now)
        else certificates == old(certificates)
    {
      ghost var d, past := Tables(), history;
      PositiveSerialText(serial);
      var r := Renew(c, false, key, FormatSerial(serial), 0, now, up);
      if r.Ok? && up(1) && c in todo && AllDue(d, todo, now) {
        PassStep(warnDays, past, d, c, FormatSerial(serial), now);
      }
      return r.Ok?;
    }

    /**
     Since `past` each row but those in `todo` was tried once and just the given steps were made; in
     a clean pass without a failure the rows in `todo` are the due ones.
     */
    ghost predicate PassSoFar(past: History, rows: set<Id>, todo: set<Id>, made: seq<Step>, failed: nat, clean: bool,
        now: int)
      reads this
    {
      && Consistent() && Since(past, now)
      && history == Renewals.WithSteps(past, made)
      && todo <= rows && Renewals.EachOnce(made, rows - todo, now)
      && |made| + failed + |todo| == |rows|
      && (failed == 0 && clean ==> AllDue(Tables(), todo, now))
    }
  }

  /** The row of a certificate issued for `days` from just before `now`. */
  function IssuedRow(ca: Id, serial: string, days: int, autoRenew: bool, requested: int, now: int): Certificate {
    var notBefore := now - CLOCK_SKEW;
    Certificate(ca, serial, Active, notBefore, notBefore + days * DAY, days, autoRenew,
      Window(requested, autoRenew, days), None)
  }

  /** These are the due rows, and each lives two days or more. */
  ghost predicate AllDue(d: Db, rows: set<Id>, now: int) {
    Renewals.DueRows(d, now) == rows && LongLived(d, rows)
  }

  predicate LongLived(d: Db, rows: set<Id>) {
    forall c :: c in rows ==> c in d.certificates && d.certificates[c].validityDays >= 2
  }

  lemma PassStep(warnDays: int, h: History, d: Db, c: Id, serial: string, now: int)
    requires d == State(warnDays, h) && c in Renewals.DueRows(d, now) && LongLived(d, Renewals.DueRows(d, now))
    ensures AllDue(State(warnDays, Then(h, Step.Renew(c, serial, 0, true, now))), Renewals.DueRows(d, now) - {c}, now)
  {
    Renewals.AlwaysCertificatesOlder(warnDays, h);
    Renewals.DueAfterRenew(d, c, serial, now);
  }

  /** The children go first, then the authority. */
  lemma FelledInTwo(d: Db, id: Id)
    ensures Felled(d, id).authorities ==
      (map a | a in d.authorities && d.authorities[a].parent != Some(id) :: d.authorities[a]) - {id}
  {
  }

  /** Something would be orphaned if the authority went. */
  predicate InUseBelow(d: Db, id: Id) {
    HasCertificate(d, id) || HasChild(d, id)
  }

  // ---- Scanning row by row ----

  function InRange(rows: map<Id, Certificate>, warnDays: int, now: int): set<Id> {
    set c | c in rows && Scanned(rows[c], warnDays, now)
  }

  /** The rows with the statuses of those in `done` recomputed. */
  function Rescanned(rows: map<Id, Certificate>, done: set<Id>, warnDays: int, now: int): map<Id, Certificate> {
    map c | c in rows :: if c in done then rows[c].(status := DeriveStatus(rows[c], warnDays, now)) else rows[c]
  }

  function ChangedRows(rows: map<Id, Certificate>, done: set<Id>, warnDays: int, now: int): set<Id> {
    set c | c in done && c in rows && DeriveStatus(rows[c], warnDays, now) != rows[c].status
  }

  lemma RescannedIsRight(rows: map<Id, Certificate>, done: set<Id>, warnDays: nat, now: int)
    requires done <= rows.Keys
    ensures var after := Rescanned(rows, done, warnDays, now);
      && Statuses.RightIn(rows, after, done, warnDays, now)
      && ChangedRows(rows, done, warnDays, now) == set c | c in rows && c in after && after[c] != rows[c]
  {
    forall c | c in done
      ensures Statuses.RightRow(rows[c], Rescanned(rows, done, warnDays, now)[c], warnDays, now)
    {
      Statuses.DerivedAsTheClockSays(rows[c], warnDays, now);
    }
  }

  lemma RescannedNothing(rows: map<Id, Certificate>, warnDays: int, now: int)
    ensures Rescanned(rows, {}, warnDays, now) == rows && |ChangedRows(rows, {}, warnDays, now)| == 0
  {
    assert ChangedRows(rows, {}, warnDays, now) == {};
  }

  lemma RescanOneMore(rows: map<Id, Certificate>, done: set<Id>, c: Id, warnDays: int, now: int)
    requires c in rows && c !in done
    ensures var want := DeriveStatus(rows[c], warnDays, now);
      && Rescanned(rows, done, warnDays, now)[c] == rows[c]
      && Rescanned(rows, done + {c}, warnDays, now)
         == Rescanned(rows, done, warnDays, now)[c := rows[c].(status := want)]
      && |ChangedRows(rows, done + {c}, warnDays, now)|
         == |ChangedRows(rows, done, warnDays, now)| + if want != rows[c].status then 1 else 0
  {
    var less, more := ChangedRows(rows, done, warnDays, now), ChangedRows(rows, done + {c}, warnDays, now);
    assert more == if DeriveStatus(rows[c], warnDays, now) != rows[c].status then less + {c} else less;
  }

  lemma RescannedIsScan(d: Db, warnDays: int, now: int)
    ensures d.(certificates := Rescanned(d.certificates, InRange(d.certificates, warnDays, now), warnDays, now))
      == AfterScan(warnDays, d, now)
  {
    assert Rescanned(d.certificates, InRange(d.certificates, warnDays, now), warnDays, now)
      == AfterScan(warnDays, d, now).certificates;
  }
}
