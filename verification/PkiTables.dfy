/**
 The certificate tables: authorities, the certificates they issued, and revocations, with
 every write made to them. A revocation and the lifting of a hold are several writes, any of which
 may fail; a renewal's second write may fail too. The rest are one write or one transaction.
 */
module PkiTables {
  import opened Text
  import opened Runs
  import opened Serial

  /** Row identifiers; a counter stands for the random UUIDs. */
  type Id = nat

  const DAY := 24 * 3600
  const CLOCK_SKEW := 300

  /** How many levels the walk to the root takes before it gives up. */
  const CHAIN_LIMIT: nat := 16

  datatype Status = Active | Expiring | Expired | Held | Revoked

  datatype Entry = Entry(serial: int, at: int, reason: int)

  datatype Authority = Authority(parent: Option<Id>, notBefore: int, notAfter: int, pathLenZero: bool,
    passphrase: bool, crlNumber: nat, crl: Option<set<Entry>>)

  datatype Certificate = Certificate(authority: Id, serial: string, status: Status, notBefore: int, notAfter: int,
    validityDays: int, autoRenew: bool, renewBefore: int, renewedFrom: Option<Id>)

  datatype Revocation = Revocation(certificate: Id, authority: Id, serial: string, reason: int, at: int)

  datatype Db = Db(authorities: map<Id, Authority>, certificates: map<Id, Certificate>,
    revocations: map<Id, Revocation>, next: Id)

  const EMPTY := Db(map[], map[], map[], 0)

  // ---- Issuers ----

  /** The issuers above an authority, its parent first and its root last. */
  function Ancestors(d: Db, id: Id): (above: seq<Id>) {
    if id in d.authorities && d.authorities[id].parent.Some? && d.authorities[id].parent.value < id
    then [d.authorities[id].parent.value] + Ancestors(d, d.authorities[id].parent.value)
    else []
  }

  /** The authority and its whole chain can be loaded for signing. */
  predicate Loads(d: Db, id: Id) {
    id in d.authorities && |Ancestors(d, id)| < CHAIN_LIMIT
  }

  /** The check made of an issuer before it signs something that expires at `notAfter`. */
  predicate CanSign(issuer: Authority, now: int, notAfter: int, forCa: bool) {
    && issuer.notBefore <= now <= issuer.notAfter && notAfter <= issuer.notAfter
    && !(forCa && issuer.pathLenZero)
  }

  predicate HasChild(d: Db, id: Id) {
    exists a :: a in d.authorities && d.authorities[a].parent == Some(id)
  }

  predicate HasCertificate(d: Db, id: Id) {
    exists c :: c in d.certificates && d.certificates[c].authority == id
  }

  // ---- Certificates ----

  /** The renewal window stored with a certificate that lives `days`. */
  function Window(requested: int, autoRenew: bool, days: int): int {
    var asked := if requested <= 0 then 30 else requested;
    if autoRenew && days > 0 && asked >= days then (if days / 2 < 1 then 1 else days / 2) else asked
  }

  /** The life of a replacement: the days asked for, or those of the certificate it replaces. */
  function LifeOf(c: Certificate, days: int): int {
    if days <= 0 then c.validityDays else days
  }

  /** The row that replaces certificate `from` when it is renewed. */
  function Renewed(c: Certificate, from: Id, serial: string, days: int, now: int): Certificate {
    var notBefore, life := now - CLOCK_SKEW, LifeOf(c, days);
    Certificate(c.authority, serial, Active, notBefore, notBefore + life * DAY, life,
      c.autoRenew, Window(c.renewBefore, c.autoRenew, life), Some(from))
  }

  function DeriveStatus(c: Certificate, warnDays: int, now: int): Status {
    if c.status == Revoked then Revoked
    else if c.status == Held then Held
    else if now > c.notAfter then Expired
    else if now + warnDays * DAY > c.notAfter then Expiring
    else Active
  }

  /** The text of a positive serial number. */
  predicate SerialText(s: string) {
    ParseSerial(s).Some? && ParseSerial(s).value >= 1 && FormatSerial(ParseSerial(s).value) == s
  }

  /** What a generator of serials returns. */
  type Positive = n: nat | n >= 1 witness 1

  lemma PositiveSerialText(n: Positive)
    ensures SerialText(FormatSerial(n))
  {
    NaturalSerialParses(n);
  }

  predicate SerialTaken(d: Db, authority: Id, serial: string) {
    exists c :: c in d.certificates && d.certificates[c].authority == authority && d.certificates[c].serial == serial
  }

  // ---- Revocations ----

  const HOLD := 6

  /** The reason codes of RFC 5280, section 5.3.1; seven is unassigned. */
  predicate ValidReason(code: int) {
    code in {0, 1, 2, 3, 4, 5, 6, 8, 9, 10}
  }

  function RowsFor(d: Db, certificate: Id): set<Id> {
    set r | r in d.revocations && d.revocations[r].certificate == certificate
  }

  predicate HasRow(d: Db, certificate: Id) {
    exists r :: r in d.revocations && d.revocations[r].certificate == certificate
  }

  predicate HasRowFor(d: Db, certificate: Id, reason: int) {
    exists r :: r in d.revocations && d.revocations[r].certificate == certificate && d.revocations[r].reason == reason
  }

  function StatusFor(reason: int): Status {
    if reason == HOLD then Held else Revoked
  }

  /** What a list published now would say: a row whose serial cannot be read is skipped. */
  function EntriesOf(d: Db, authority: Id): set<Entry> {
    set r |
      && r in d.revocations && d.revocations[r].authority == authority
      && ParseSerial(d.revocations[r].serial).Some? ::
      EntryOf(d.revocations[r])
  }

  function EntryOf(row: Revocation): Entry
    requires ParseSerial(row.serial).Some?
  {
    Entry(ParseSerial(row.serial).value, row.at, row.reason)
  }

  // ---- Operations ----

  datatype Step =
    | CreateAuthority(authority: Authority, now: int)
    | Insert(certificate: Certificate, requested: int, now: int)
    | Renew(id: Id, serial: string, days: int, cleared: bool, now: int)
    | Edit(id: Id, autoRenew: bool, renewBefore: int, now: int)
    | DropRow(id: Id, now: int)
    | InsertRow(id: Id, reason: int, now: int)
    | SaveWithdrawn(id: Id, reason: int, now: int)
    | SaveLifted(id: Id, now: int)
    | Restatus(id: Id, now: int)
    | DeleteCertificate(id: Id, now: int)
    | DeleteAuthority(id: Id, force: bool, now: int)
    | Publish(id: Id, now: int)

  function Apply(warnDays: int, d: Db, step: Step): Db {
    match step
    case CreateAuthority(row, _) => d.(authorities := d.authorities[d.next := row], next := d.next + 1)
    case Insert(row, _, _) => d.(certificates := d.certificates[d.next := row], next := d.next + 1)
    case Renew(id, serial, days, cleared, now) => AfterRenew(d, id, serial, days, cleared, now)
    case Edit(id, autoRenew, renewBefore, _) =>
      if id !in d.certificates then d
      else
        var c := d.certificates[id];
        d.(certificates := d.certificates[id := c.(autoRenew := autoRenew, renewBefore := renewBefore)])
    case DropRow(id, _) => WithoutRow(d, id)
    case InsertRow(id, reason, now) => WithRow(d, id, reason, now)
    case SaveWithdrawn(id, reason, _) => WithStatus(d, id, StatusFor(reason))
    case SaveLifted(id, now) => WithLifted(warnDays, d, id, now)
    case Restatus(id, now) => AfterRestatus(warnDays, d, id, now)
    case DeleteCertificate(id, _) =>
      d.(certificates := d.certificates - {id}, revocations := d.revocations - RowsFor(d, id))
    case DeleteAuthority(id, force, _) => if force then Felled(d, id) else d.(authorities := d.authorities - {id})
    case Publish(id, _) => AfterPublish(d, id)
  }

  function AfterRenew(d: Db, id: Id, serial: string, days: int, cleared: bool, now: int): Db {
    if id !in d.certificates then d
    else
      var c := d.certificates[id];
      var kept := if c.autoRenew && cleared then d.certificates[id := c.(autoRenew := false)] else d.certificates;
      d.(certificates := kept[d.next := Renewed(c, id, serial, days, now)], next := d.next + 1)
  }

  /** The row of a hold goes when the hold is lifted, and before a new row replaces it. */
  function WithoutRow(d: Db, id: Id): Db {
    d.(revocations := d.revocations - RowsFor(d, id))
  }

  function WithRow(d: Db, id: Id, reason: int, now: int): Db {
    if id !in d.certificates then d
    else
      var row := Revocation(id, d.certificates[id].authority, d.certificates[id].serial, reason, now);
      d.(revocations := d.revocations[d.next := row], next := d.next + 1)
  }

  function WithStatus(d: Db, id: Id, status: Status): Db {
    if id !in d.certificates then d
    else d.(certificates := d.certificates[id := d.certificates[id].(status := status)])
  }

  /** The clock decides what a lifted certificate comes back as. */
  function WithLifted(warnDays: int, d: Db, id: Id, now: int): Db {
    if id !in d.certificates then d
    else WithStatus(d, id, DeriveStatus(d.certificates[id].(status := Active), warnDays, now))
  }

  predicate Scanned(c: Certificate, warnDays: int, now: int) {
    c.status != Revoked && c.notAfter <= now + warnDays * DAY
  }

  /** The expiry scan saves one row at a time. */
  function AfterRestatus(warnDays: int, d: Db, id: Id, now: int): Db {
    if id !in d.certificates then d
    else
      var c := d.certificates[id];
      d.(certificates := d.certificates[id := c.(status := DeriveStatus(c, warnDays, now))])
  }

  /** What a scan leaves when each of its writes succeeds. */
  function AfterScan(warnDays: int, d: Db, now: int): Db {
    d.(certificates := map c | c in d.certificates ::
      if Scanned(d.certificates[c], warnDays, now)
      then d.certificates[c].(status := DeriveStatus(d.certificates[c], warnDays, now)) else d.certificates[c])
  }

  /** Forced deletion takes the authority, its children, its certificates and their revocations. */
  function Felled(d: Db, id: Id): Db {
    d.(authorities := map a | a in d.authorities && a != id && d.authorities[a].parent != Some(id) :: d.authorities[a],
       certificates := map c | c in d.certificates && d.certificates[c].authority != id :: d.certificates[c],
       revocations := map r | r in d.revocations && d.revocations[r].authority != id :: d.revocations[r])
  }

  function AfterPublish(d: Db, id: Id): Db {
    if id !in d.authorities then d
    else
      var row := d.authorities[id];
      d.(authorities := d.authorities[id := row.(crlNumber := row.crlNumber + 1, crl := Some(EntriesOf(d, id)))])
  }

  /** What the code, or an index of the database, has established when it makes the step. */
  predicate Enabled(d: Db, step: Step) {
    match step
    case CreateAuthority(row, now) =>
      && row.crlNumber == 0 && row.crl == None
      && match row.parent {
           case None => true
           case Some(parent) => Loads(d, parent) && CanSign(d.authorities[parent], now, row.notAfter, true)
         }
    case Insert(row, requested, now) =>
      && Loads(d, row.authority) && CanSign(d.authorities[row.authority], now, row.notAfter, false)
      && row.status == Active && row.renewedFrom == None
      && row.validityDays >= 1 && row.notAfter == row.notBefore + row.validityDays * DAY
      && row.renewBefore == Window(requested, row.autoRenew, row.validityDays)
      && SerialText(row.serial) && !SerialTaken(d, row.authority, row.serial)
    case Renew(id, serial, days, _, now) =>
      && id in d.certificates && d.certificates[id].status != Revoked
      && Loads(d, d.certificates[id].authority)
      && CanSign(d.authorities[d.certificates[id].authority], now,
           Renewed(d.certificates[id], id, serial, days, now).notAfter, false)
      && SerialText(serial) && !SerialTaken(d, d.certificates[id].authority, serial)
    case Edit(id, _, renewBefore, _) =>
      id in d.certificates && (renewBefore == d.certificates[id].renewBefore || 1 <= renewBefore <= 365)
    case DropRow(id, _) => id in d.certificates && d.certificates[id].status == Held && HasRow(d, id)
    case InsertRow(id, reason, _) =>
      // The index on the certificate refuses a second row.
      ValidReason(reason) && id in d.certificates && d.certificates[id].status != Revoked && !HasRow(d, id)
    case SaveWithdrawn(id, reason, _) =>
      id in d.certificates && d.certificates[id].status != Revoked && HasRowFor(d, id, reason)
    case SaveLifted(id, _) => id in d.certificates && d.certificates[id].status == Held && !HasRow(d, id)
    case Restatus(id, _) => id in d.certificates && d.certificates[id].status != Revoked
    case DeleteCertificate(id, _) => id in d.certificates
    case DeleteAuthority(id, force, _) =>
      && id in d.authorities
      && (!force ==> !HasCertificate(d, id) && !HasChild(d, id))
      && (force ==>
          forall a :: a in d.authorities && d.authorities[a].parent == Some(id) ==>
            !HasCertificate(d, a) && !HasChild(d, a))
    case Publish(id, _) => Loads(d, id)
  }

  // ---- Runs ----

  type History = Run<Step>

  ghost function State(warnDays: int, h: History): Db {
    match h
    case Start => EMPTY
    case Then(past, step) => Apply(warnDays, State(warnDays, past), step)
  }

  ghost predicate Legal(warnDays: int, h: History) {
    match h
    case Start => true
    case Then(past, step) => Legal(warnDays, past) && Enabled(State(warnDays, past), step)
  }

  predicate ClockedUntil(h: History, now: int) {
    h.Then? ==> h.step.now <= now && ClockedUntil(h.past, h.step.now)
  }
}
