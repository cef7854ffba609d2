/**
 The ACME server's tables and every write it makes to them (RFC 8555, section 7.1.6).

 A run is a history of steps, each one store write (or one dial-out that passed), enabled by
 what the code has established at that point. Because every prefix of a run is a run,
 what holds in every run also holds when a request dies between two writes.
 */
module AcmeProtocol {
  import opened Text
  import opened Runs
  import opened Signing

  /** Row identifiers; a counter stands for the random UUIDs. */
  type Id = nat

  datatype Status = Pending | Ready | Processing | Valid | Invalid

  datatype ChallengeType = Dns01 | Http01

  datatype Order = Order(account: string, status: Status, identifiers: seq<string>, expiresAt: int,
    certificate: Option<Id>)

  datatype Authz = Authz(order: Id, account: string, identifier: string, wildcard: bool, status: Status, expiresAt: int)

  datatype Challenge = Challenge(authz: Id, kind: ChallengeType, status: Status, attempts: nat)

  datatype Certificate = Certificate(order: Id, csr: Csr)

  /** The tables, the set of challenges whose dial-out passed, and the next free identifier. */
  datatype Db = Db(
    orders: map<Id, Order>, authzs: map<Id, Authz>, challenges: map<Id, Challenge>,
    certificates: map<Id, Certificate>, passed: set<Id>, next: Id)

  const EMPTY := Db(map[], map[], map[], map[], {}, 0)

  const MAX_ATTEMPTS: nat := 10

  /**
   The rules about names the protocol relies on: which names may be ordered, when a CSR
   matches an order's identifiers, and when a CSR can be signed at all.
   */
  datatype Rules = Rules(accepts: string -> bool, matches: (Csr, seq<string>) -> bool, signable: Csr -> bool)

  // ---- Steps ----

  datatype Step =
    | InsertOrder(order: Order)
    | InsertAuthz(authz: Authz)
    | InsertChallenge(challenge: Challenge)
    | DialPassed(id: Id)
    | SaveChallenge(id: Id, challenge: Challenge)
    | SaveAuthz(id: Id, authz: Authz)
    | SaveOrder(id: Id, order: Order)
    | InsertCertificate(certificate: Certificate)
    | PruneOrders(before: int)

  function Apply(d: Db, step: Step): Db {
    match step
    case InsertOrder(order) => d.(orders := d.orders[d.next := order], next := d.next + 1)
    case InsertAuthz(authz) => d.(authzs := d.authzs[d.next := authz], next := d.next + 1)
    case InsertChallenge(challenge) => d.(challenges := d.challenges[d.next := challenge], next := d.next + 1)
    case DialPassed(id) => d.(passed := d.passed + {id})
    case SaveChallenge(id, challenge) => d.(challenges := d.challenges[id := challenge])
    case SaveAuthz(id, authz) => d.(authzs := d.authzs[id := authz])
    case SaveOrder(id, order) => d.(orders := d.orders[id := order])
    case InsertCertificate(certificate) => d.(certificates := d.certificates[d.next := certificate], next := d.next + 1)
    case PruneOrders(before) => Pruned(d, before)
  }

  predicate Stale(d: Db, before: int, order: Id) {
    order in d.orders && d.orders[order].expiresAt < before
  }

  /** Expired orders go, with the authorizations and challenges hanging off them. */
  function Pruned(d: Db, before: int): Db {
    d.(orders := map o | o in d.orders && !Stale(d, before, o) :: d.orders[o],
       authzs := map a | a in d.authzs && !Stale(d, before, d.authzs[a].order) :: d.authzs[a],
       challenges := map c | c in d.challenges && !(
           d.challenges[c].authz in d.authzs && Stale(d, before, d.authzs[d.challenges[c].authz].order)) ::
         d.challenges[c])
  }

  /** What the code has established when it makes a step. */
  ghost predicate Enabled(rules: Rules, d: Db, step: Step) {
    match step
    case InsertOrder(order) =>
      && order.status == Pending && order.certificate == None
      && forall n :: n in order.identifiers ==> rules.accepts(n)
    case InsertAuthz(authz) =>
      && authz.status == Pending
      && authz.order in d.orders && d.orders[authz.order].status == Pending
      && authz.account == d.orders[authz.order].account
      && authz.identifier in d.orders[authz.order].identifiers
      && authz.wildcard == HasPrefix(authz.identifier, "*.")
    case InsertChallenge(challenge) =>
      && challenge.status == Pending && challenge.attempts == 0
      && challenge.authz in d.authzs && d.authzs[challenge.authz].status == Pending
      && (challenge.kind == Http01 ==> !d.authzs[challenge.authz].wildcard)
    case DialPassed(id) => id in d.challenges
    case SaveChallenge(id, challenge) => id in d.challenges && ChallengeMoves(d, id, d.challenges[id], challenge)
    case SaveAuthz(id, authz) => id in d.authzs && AuthzMoves(d, id, d.authzs[id], authz)
    case SaveOrder(id, order) => id in d.orders && OrderMoves(d, id, d.orders[id], order)
    case InsertCertificate(certificate) =>
      && certificate.order in d.orders && d.orders[certificate.order].status == Ready
      && rules.matches(certificate.csr, d.orders[certificate.order].identifiers)
      && rules.signable(certificate.csr)
    case PruneOrders(_) => true
  }

  predicate Unsettled(c: Challenge) {
    c.status == Pending || c.status == Processing
  }

  ghost predicate ChallengeMoves(d: Db, id: Id, was: Challenge, now: Challenge) {
    && now.authz == was.authz && now.kind == was.kind
    && Unsettled(was)
    && was.attempts <= now.attempts <= MAX_ATTEMPTS
    && (now.status == Processing || now.status == Invalid || (now.status == Valid && id in d.passed))
  }

  ghost predicate AuthzMoves(d: Db, id: Id, was: Authz, now: Authz) {
    && now.order == was.order && now.account == was.account
    && now.identifier == was.identifier && now.wildcard == was.wildcard
    && ((now.status == Valid && HasValidChallenge(d, id)) || (now.status == Invalid && Exhausted(d, id)))
  }

  /** The write that fails an order asks nothing about the order's own status. */
  ghost predicate OrderMoves(d: Db, id: Id, was: Order, now: Order) {
    && now.account == was.account && now.identifiers == was.identifiers && now.expiresAt == was.expiresAt
    && match now.status
       case Pending => false
       case Processing => false
       case Ready =>
         was.status == Pending && now.certificate == was.certificate && AllAuthzsValid(d, id) && HasAuthz(d, id)
       case Valid =>
         && was.status == Ready && now.certificate.Some?
         && now.certificate.value in d.certificates && d.certificates[now.certificate.value].order == id
       case Invalid => now.certificate == was.certificate && (was.status == Ready || HasInvalidAuthz(d, id))
  }

  ghost predicate HasValidChallenge(d: Db, a: Id) {
    exists c :: c in d.challenges && d.challenges[c].authz == a && d.challenges[c].status == Valid
  }

  ghost predicate Exhausted(d: Db, a: Id) {
    forall c :: c in d.challenges && d.challenges[c].authz == a ==> d.challenges[c].status == Invalid
  }

  ghost predicate AllAuthzsValid(d: Db, o: Id) {
    forall a :: a in d.authzs && d.authzs[a].order == o ==> d.authzs[a].status == Valid
  }

  ghost predicate HasAuthz(d: Db, o: Id) {
    exists a :: a in d.authzs && d.authzs[a].order == o
  }

  ghost predicate HasInvalidAuthz(d: Db, o: Id) {
    exists a :: a in d.authzs && d.authzs[a].order == o && d.authzs[a].status == Invalid
  }

  // ---- Runs ----

  type History = Run<Step>

  ghost function State(h: History): Db {
    match h
    case Start => EMPTY
    case Then(past, step) => Apply(State(past), step)
  }

  /** Every step was enabled when it was made. */
  ghost predicate Legal(rules: Rules, h: History) {
    match h
    case Start => true
    case Then(past, step) => Legal(rules, past) && Enabled(rules, State(past), step)
  }

  lemma {:induction false} EarlierLegal(rules: Rules, a: History, b: History)
    requires Earlier(a, b) && Legal(rules, b)
    ensures Legal(rules, a)
  {
    if a != b {
      EarlierLegal(rules, a, b.past);
    }
  }

  // ---- The invariant across the three tables ----

  ghost predicate FreshIds(d: Db) {
    && (forall o :: o in d.orders ==> o < d.next)
    && (forall a :: a in d.authzs ==> a < d.next)
    && (forall c :: c in d.challenges ==> c < d.next)
    && (forall k :: k in d.certificates ==> k < d.next && d.certificates[k].order < d.next)
    && (forall c :: c in d.passed ==> c < d.next)
  }

  /** The statuses each kind of row uses. */
  ghost predicate StatusesInUse(d: Db) {
    && (forall o :: o in d.orders ==> d.orders[o].status != Processing)
    && (forall a :: a in d.authzs ==> d.authzs[a].status in {Pending, Valid, Invalid})
    && (forall c :: c in d.challenges ==> d.challenges[c].status != Ready)
  }

  /** Children point at existing parents and agree with them. */
  ghost predicate Linked(d: Db) {
    && (forall a :: a in d.authzs ==> AuthzLinked(d, a))
    && (forall c :: c in d.challenges ==> d.challenges[c].authz in d.authzs)
  }

  predicate AuthzLinked(d: Db, a: Id)
    requires a in d.authzs
  {
    && d.authzs[a].order in d.orders
    && d.authzs[a].account == d.orders[d.authzs[a].order].account
    && d.authzs[a].identifier in d.orders[d.authzs[a].order].identifiers
  }

  /** A wildcard is never offered, and so never proved, over HTTP. */
  ghost predicate WildcardsOverDns(d: Db) {
    && (forall a :: a in d.authzs ==> d.authzs[a].wildcard == HasPrefix(d.authzs[a].identifier, "*."))
    && (forall c :: c in d.challenges && d.challenges[c].authz in d.authzs && d.challenges[c].kind == Http01 ==>
      !d.authzs[d.challenges[c].authz].wildcard)
  }

  ghost predicate OrdersProved(d: Db) {
    forall o :: o in d.orders && (d.orders[o].status == Ready || d.orders[o].status == Valid) ==> AllAuthzsValid(d, o)
  }

  ghost predicate AuthzsProved(d: Db) {
    && (forall a :: a in d.authzs && d.authzs[a].status == Valid ==> HasValidChallenge(d, a))
    && (forall a :: a in d.authzs && d.authzs[a].status == Invalid ==> Exhausted(d, a))
  }

  ghost predicate ChallengesPassed(d: Db) {
    forall c :: c in d.challenges ==>
      d.challenges[c].attempts <= MAX_ATTEMPTS && (d.challenges[c].status == Valid ==> c in d.passed)
  }

  /** A valid order carries a certificate whose request was checked against its identifiers. */
  ghost predicate CertificatesChecked(rules: Rules, d: Db) {
    && (forall k :: k in d.certificates && d.certificates[k].order in d.orders ==>
      rules.matches(d.certificates[k].csr, d.orders[d.certificates[k].order].identifiers))
    && (forall k :: k in d.certificates ==> rules.signable(d.certificates[k].csr))
    && (forall o :: o in d.orders && d.orders[o].status == Valid ==>
      && d.orders[o].certificate.Some?
      && d.orders[o].certificate.value in d.certificates
      && d.certificates[d.orders[o].certificate.value].order == o)
  }

  ghost predicate IdentifiersAccepted(rules: Rules, d: Db) {
    forall o, n :: o in d.orders && n in d.orders[o].identifiers ==> rules.accepts(n)
  }

  ghost predicate Inv(rules: Rules, d: Db) {
    && FreshIds(d) && StatusesInUse(d) && Linked(d) && WildcardsOverDns(d)
    && OrdersProved(d) && AuthzsProved(d) && ChallengesPassed(d)
    && CertificatesChecked(rules, d) && IdentifiersAccepted(rules, d)
  }

  lemma StepKeepsInv(rules: Rules, d: Db, step: Step)
    requires Inv(rules, d) && Enabled(rules, d, step)
    ensures Inv(rules, Apply(d, step))
  {
    FreshIdsKept(rules, d, step);
    StatusesInUseKept(rules, d, step);
    LinkedKept(rules, d, step);
    WildcardsOverDnsKept(rules, d, step);
    OrdersProvedKept(rules, d, step);
    AuthzsProvedKept(rules, d, step);
    ChallengesPassedKept(rules, d, step);
    CertificatesCheckedKept(rules, d, step);
    IdentifiersAcceptedKept(rules, d, step);
  }

  lemma FreshIdsKept(rules: Rules, d: Db, step: Step)
    requires FreshIds(d) && Enabled(rules, d, step)
    ensures FreshIds(Apply(d, step))
  {
  }

  lemma StatusesInUseKept(rules: Rules, d: Db, step: Step)
    requires StatusesInUse(d) && Enabled(rules, d, step)
    ensures StatusesInUse(Apply(d, step))
  {
  }

  lemma AuthzLinkedKept(rules: Rules, d: Db, step: Step, a: Id)
    requires FreshIds(d) && Linked(d) && Enabled(rules, d, step) && a in Apply(d, step).authzs
    ensures AuthzLinked(Apply(d, step), a)
  {
    assert a in d.authzs ==> AuthzLinked(d, a);
  }

  lemma ChallengeLinkedKept(rules: Rules, d: Db, step: Step, c: Id)
    requires FreshIds(d) && Linked(d) && Enabled(rules, d, step) && c in Apply(d, step).challenges
    ensures Apply(d, step).challenges[c].authz in Apply(d, step).authzs
  {
    assert c in d.challenges ==> AuthzLinked(d, d.challenges[c].authz);
  }

  lemma LinkedKept(rules: Rules, d: Db, step: Step)
    requires FreshIds(d) && Linked(d) && Enabled(rules, d, step)
    ensures Linked(Apply(d, step))
  {
    var e := Apply(d, step);
    forall a | a in e.authzs
      ensures AuthzLinked(e, a)
    {
      AuthzLinkedKept(rules, d, step, a);
    }
    forall c | c in e.challenges
      ensures e.challenges[c].authz in e.authzs
    {
      ChallengeLinkedKept(rules, d, step, c);
    }
  }

  lemma NotOverHttpKept(rules: Rules, d: Db, step: Step, c: Id)
    requires FreshIds(d) && Linked(d) && WildcardsOverDns(d) && Enabled(rules, d, step)
    requires c in Apply(d, step).challenges && Apply(d, step).challenges[c].kind == Http01
    requires Apply(d, step).challenges[c].authz in Apply(d, step).authzs
    ensures !Apply(d, step).authzs[Apply(d, step).challenges[c].authz].wildcard
  {
  }

  lemma WildcardMarkKept(rules: Rules, d: Db, step: Step, a: Id)
    requires FreshIds(d) && WildcardsOverDns(d) && Enabled(rules, d, step) && a in Apply(d, step).authzs
    ensures var authz := Apply(d, step).authzs[a]; authz.wildcard == HasPrefix(authz.identifier, "*.")
  {
  }

  lemma WildcardsOverDnsKept(rules: Rules, d: Db, step: Step)
    requires FreshIds(d) && Linked(d) && WildcardsOverDns(d) && Enabled(rules, d, step)
    ensures WildcardsOverDns(Apply(d, step))
  {
    var e := Apply(d, step);
    forall a | a in e.authzs
      ensures e.authzs[a].wildcard == HasPrefix(e.authzs[a].identifier, "*.")
    {
      WildcardMarkKept(rules, d, step, a);
    }
    forall c | c in e.challenges && e.challenges[c].authz in e.authzs && e.challenges[c].kind == Http01
      ensures !e.authzs[e.challenges[c].authz].wildcard
    {
      NotOverHttpKept(rules, d, step, c);
    }
  }

  /** An order is ready or valid after a write only if its authorizations were all valid before it. */
  lemma AuthzsWereValid(rules: Rules, d: Db, step: Step, o: Id)
    requires FreshIds(d) && OrdersProved(d) && Enabled(rules, d, step)
    requires o in Apply(d, step).orders
    requires Apply(d, step).orders[o].status == Ready || Apply(d, step).orders[o].status == Valid
    ensures o in d.orders && AllAuthzsValid(d, o) && (d.orders[o].status == Pending ==> step.SaveOrder?)
  {
    assert o in d.orders && (d.orders[o].status == Ready || d.orders[o].status == Valid) ==> AllAuthzsValid(d, o);
  }

  /** An authorization leaves valid only when exhausted, which one with a valid challenge never is. */
  lemma OrderProvedKept(rules: Rules, d: Db, step: Step, o: Id, a: Id)
    requires FreshIds(d) && Linked(d) && OrdersProved(d) && AuthzsProved(d) && Enabled(rules, d, step)
    requires var e := Apply(d, step);
      && o in e.orders && (e.orders[o].status == Ready || e.orders[o].status == Valid)
      && a in e.authzs && e.authzs[a].order == o
    ensures Apply(d, step).authzs[a].status == Valid
  {
    AuthzsWereValid(rules, d, step, o);
    if step.SaveAuthz? && step.id == a && d.authzs[a].status == Valid {
      assert HasValidChallenge(d, a);
    }
  }

  lemma OrdersProvedKept(rules: Rules, d: Db, step: Step)
    requires FreshIds(d) && Linked(d) && OrdersProved(d) && AuthzsProved(d) && Enabled(rules, d, step)
    ensures OrdersProved(Apply(d, step))
  {
    var e := Apply(d, step);
    forall o, a |
      && o in e.orders && (e.orders[o].status == Ready || e.orders[o].status == Valid)
      && a in e.authzs && e.authzs[a].order == o
      ensures e.authzs[a].status == Valid
    {
      OrderProvedKept(rules, d, step, o, a);
    }
  }

  lemma ProofWasThere(rules: Rules, d: Db, step: Step, a: Id)
    requires FreshIds(d) && AuthzsProved(d) && Enabled(rules, d, step)
    requires a in Apply(d, step).authzs && Apply(d, step).authzs[a].status == Valid
    ensures HasValidChallenge(d, a)
  {
  }

  lemma ProofStays(rules: Rules, d: Db, step: Step, a: Id)
    requires FreshIds(d) && Linked(d) && AuthzsProved(d) && Enabled(rules, d, step)
    requires a in Apply(d, step).authzs && Apply(d, step).authzs[a].status == Valid
    ensures HasValidChallenge(Apply(d, step), a)
  {
    ProofWasThere(rules, d, step, a);
    var c :| c in d.challenges && d.challenges[c].authz == a && d.challenges[c].status == Valid;
    ValidChallengeStays(rules, d, step, c);
  }

  lemma AuthzsProvedKept(rules: Rules, d: Db, step: Step)
    requires FreshIds(d) && Linked(d) && AuthzsProved(d) && Enabled(rules, d, step)
    ensures AuthzsProved(Apply(d, step))
  {
    var e := Apply(d, step);
    forall a | a in e.authzs && e.authzs[a].status == Valid
      ensures HasValidChallenge(e, a)
    {
      ProofStays(rules, d, step, a);
    }
    forall a | a in e.authzs && e.authzs[a].status == Invalid
      ensures Exhausted(e, a)
    {
      ExhaustedStays(rules, d, step, a);
    }
  }

  /** A settled challenge is never written again; it leaves only with its authorization. */
  lemma ValidChallengeStays(rules: Rules, d: Db, step: Step, c: Id)
    requires FreshIds(d) && Linked(d) && Enabled(rules, d, step)
    requires c in d.challenges && !Unsettled(d.challenges[c])
    requires d.challenges[c].authz in Apply(d, step).authzs
    ensures c in Apply(d, step).challenges && Apply(d, step).challenges[c] == d.challenges[c]
  {
  }

  /** A challenge still open belongs to an authorization that is not invalid, so none is added or moved under one. */
  lemma SpentStays(rules: Rules, d: Db, step: Step, a: Id, c: Id)
    requires FreshIds(d) && Linked(d) && AuthzsProved(d) && Enabled(rules, d, step)
    requires a in Apply(d, step).authzs && Apply(d, step).authzs[a].status == Invalid
    requires c in Apply(d, step).challenges && Apply(d, step).challenges[c].authz == a
    ensures Apply(d, step).challenges[c].status == Invalid
  {
    assert a in d.authzs && d.authzs[a].status == Invalid ==> Exhausted(d, a);
  }

  lemma ExhaustedStays(rules: Rules, d: Db, step: Step, a: Id)
    requires FreshIds(d) && Linked(d) && AuthzsProved(d) && Enabled(rules, d, step)
    requires a in Apply(d, step).authzs && Apply(d, step).authzs[a].status == Invalid
    ensures Exhausted(Apply(d, step), a)
  {
    forall c | c in Apply(d, step).challenges && Apply(d, step).challenges[c].authz == a
      ensures Apply(d, step).challenges[c].status == Invalid
    {
      SpentStays(rules, d, step, a, c);
    }
  }

  lemma ChallengesPassedKept(rules: Rules, d: Db, step: Step)
    requires ChallengesPassed(d) && Enabled(rules, d, step)
    ensures ChallengesPassed(Apply(d, step))
  {
  }

  lemma CertificatesCheckedKept(rules: Rules, d: Db, step: Step)
    requires FreshIds(d) && CertificatesChecked(rules, d) && Enabled(rules, d, step)
    ensures CertificatesChecked(rules, Apply(d, step))
  {
  }

  lemma IdentifiersAcceptedKept(rules: Rules, d: Db, step: Step)
    requires IdentifiersAccepted(rules, d) && Enabled(rules, d, step)
    ensures IdentifiersAccepted(rules, Apply(d, step))
  {
  }

  lemma {:induction false} LegalRunInv(rules: Rules, h: History)
    requires Legal(rules, h)
    ensures Inv(rules, State(h))
  {
    if h.Then? {
      LegalRunInv(rules, h.past);
      StepKeepsInv(rules, State(h.past), h.step);
    }
  }

  // ---- What every run keeps ----

  predicate LegalOrderMove(was: Status, now: Status) {
    || was == now
    || (was == Pending && (now == Ready || now == Invalid))
    || (was == Ready && (now == Valid || now == Invalid))
  }

  predicate LegalAuthzMove(was: Status, now: Status) {
    was == now || (was == Pending && (now == Valid || now == Invalid))
  }

  /** The write that fails an order needs no check of its own: the order is never ready or valid. */
  lemma FailedAuthzOrderIsOpen(rules: Rules, d: Db, o: Id)
    requires Inv(rules, d) && o in d.orders && HasInvalidAuthz(d, o)
    ensures d.orders[o].status != Ready && d.orders[o].status != Valid
  {
  }

  lemma OrderMovesLegally(rules: Rules, d: Db, step: Step, o: Id)
    requires Inv(rules, d) && Enabled(rules, d, step)
    requires o in d.orders && o in Apply(d, step).orders
    ensures LegalOrderMove(d.orders[o].status, Apply(d, step).orders[o].status)
  {
    if step.SaveOrder? && HasInvalidAuthz(d, step.id) {
      FailedAuthzOrderIsOpen(rules, d, step.id);
    }
  }

  lemma AuthzMovesLegally(rules: Rules, d: Db, step: Step, a: Id)
    requires Inv(rules, d) && Enabled(rules, d, step)
    requires a in d.authzs && a in Apply(d, step).authzs
    ensures LegalAuthzMove(d.authzs[a].status, Apply(d, step).authzs[a].status)
  {
    if step.SaveAuthz? {
      var was := d.authzs[step.id].status;
      assert was == Valid ==> HasValidChallenge(d, step.id);
      assert was == Invalid ==> Exhausted(d, step.id);
      ValidIsNotExhausted(d, step.id);
    }
  }

  lemma ValidIsNotExhausted(d: Db, a: Id)
    ensures !(HasValidChallenge(d, a) && Exhausted(d, a))
  {
  }

  /** Reachable by legal moves, in any number of them. */
  predicate Follows(was: Status, now: Status) {
    LegalOrderMove(was, now) || (was == Pending && now == Valid)
  }

  lemma RowsOnlyLeave(rules: Rules, d: Db, step: Step, o: Id)
    requires Inv(rules, d) && Enabled(rules, d, step)
    requires o < d.next && o !in d.orders
    ensures o !in Apply(d, step).orders && o < Apply(d, step).next
  {
  }

  lemma NextNeverShrinks(d: Db, step: Step)
    ensures d.next <= Apply(d, step).next
  {
  }

  lemma {:induction false} NextGrows(a: History, b: History)
    requires Earlier(a, b)
    ensures State(a).next <= State(b).next
  {
    if a != b {
      NextGrows(a, b.past);
      NextNeverShrinks(State(b.past), b.step);
    }
  }

  /** A stored order was stored at every moment since any earlier one at which it was. */
  lemma StoredBetween(rules: Rules, a: History, b: History, o: Id)
    requires Legal(rules, b) && b.Then? && Earlier(a, b.past)
    requires o in State(a).orders && o in State(b).orders
    ensures o in State(b.past).orders
  {
    EarlierLegal(rules, a, b.past);
    LegalRunInv(rules, a);
    LegalRunInv(rules, b.past);
    NextGrows(a, b.past);
    if o !in State(b.past).orders {
      RowsOnlyLeave(rules, State(b.past), b.step, o);
    }
  }

  /** Between any two moments of a run, an order's status only follows RFC 8555, section 7.1.6. */
  lemma {:induction false} OrderFollowsProtocol(rules: Rules, a: History, b: History, o: Id)
    requires Legal(rules, b) && Earlier(a, b)
    requires o in State(a).orders && o in State(b).orders
    ensures var was, now := State(a).orders[o], State(b).orders[o];
      && Follows(was.status, now.status)
      && (was.status == Valid ==> now.certificate == was.certificate)
      && now.identifiers == was.identifiers && now.account == was.account
  {
    if a != b {
      StoredBetween(rules, a, b, o);
      OrderFollowsProtocol(rules, a, b.past, o);
      LegalRunInv(rules, b.past);
      OrderMovesLegally(rules, State(b.past), b.step, o);
      KeepsOrderFacts(rules, State(b.past), b.step, o);
    }
  }

  lemma KeepsOrderFacts(rules: Rules, d: Db, step: Step, o: Id)
    requires Inv(rules, d) && Enabled(rules, d, step)
    requires o in d.orders && o in Apply(d, step).orders
    ensures var now := Apply(d, step).orders[o];
      && now.identifiers == d.orders[o].identifiers && now.account == d.orders[o].account
      && (d.orders[o].status == Valid ==> now.certificate == d.orders[o].certificate)
  {
  }

  // ---- Every identifier proved ----

  ghost predicate HasAuthzFor(d: Db, o: Id, name: string) {
    exists a :: a in d.authzs && d.authzs[a].order == o && d.authzs[a].identifier == name
  }

  /** The order's creation finished: each identifier got its authorization. */
  ghost predicate Complete(d: Db, o: Id)
    requires o in d.orders
  {
    forall n :: n in d.orders[o].identifiers ==> HasAuthzFor(d, o, n)
  }

  /** A valid authorization of the order's account, with a challenge whose dial-out passed. */
  ghost predicate ProvedFor(d: Db, o: Id, name: string)
    requires o in d.orders
  {
    exists a, c :: ProofOf(d, o, name, a, c)
  }

  ghost predicate ProofOf(d: Db, o: Id, name: string, a: Id, c: Id)
    requires o in d.orders
  {
    && a in d.authzs && c in d.challenges
    && d.authzs[a].order == o && d.authzs[a].identifier == name
    && d.authzs[a].account == d.orders[o].account && d.authzs[a].status == Valid
    && d.challenges[c].authz == a && d.challenges[c].status == Valid && c in d.passed
    && (HasPrefix(name, "*.") ==> d.challenges[c].kind == Dns01)
  }

  lemma AuthzIsProof(d: Db, o: Id, a: Id)
    requires Linked(d) && WildcardsOverDns(d) && OrdersProved(d) && AuthzsProved(d) && ChallengesPassed(d)
    requires StatusesInUse(d) && o in d.orders && (d.orders[o].status == Ready || d.orders[o].status == Valid)
    requires a in d.authzs && d.authzs[a].order == o
    ensures ProvedFor(d, o, d.authzs[a].identifier)
  {
    assert AllAuthzsValid(d, o);
    var c :| c in d.challenges && d.challenges[c].authz == a && d.challenges[c].status == Valid;
    assert ProofOf(d, o, d.authzs[a].identifier, a, c);
  }

  /** In a ready or valid order an identifier is proved exactly when it has an authorization. */
  lemma ProvedExactlyWithAuthz(rules: Rules, d: Db, o: Id, name: string)
    requires Inv(rules, d) && o in d.orders
    requires d.orders[o].status == Ready || d.orders[o].status == Valid
    ensures ProvedFor(d, o, name) <==> HasAuthzFor(d, o, name)
  {
    if HasAuthzFor(d, o, name) {
      var a :| a in d.authzs && d.authzs[a].order == o && d.authzs[a].identifier == name;
      AuthzIsProof(d, o, a);
    }
    if ProvedFor(d, o, name) {
      var a, c :| ProofOf(d, o, name, a, c);
      assert a in d.authzs;
    }
  }

  lemma AuthzForKept(rules: Rules, d: Db, step: Step, o: Id, name: string)
    requires FreshIds(d) && Enabled(rules, d, step)
    requires o in d.orders && HasAuthzFor(d, o, name) && o in Apply(d, step).orders
    ensures HasAuthzFor(Apply(d, step), o, name)
  {
    var e := Apply(d, step);
    var a :| a in d.authzs && d.authzs[a].order == o && d.authzs[a].identifier == name;
    assert a in e.authzs && e.authzs[a].order == o && e.authzs[a].identifier == name;
  }

  lemma CompleteKept(rules: Rules, d: Db, step: Step, o: Id)
    requires Inv(rules, d) && Enabled(rules, d, step)
    requires o in d.orders && Complete(d, o) && o in Apply(d, step).orders
    ensures Complete(Apply(d, step), o)
  {
    KeepsOrderFacts(rules, d, step, o);
    forall n | n in Apply(d, step).orders[o].identifiers
      ensures HasAuthzFor(Apply(d, step), o, n)
    {
      AuthzForKept(rules, d, step, o, n);
    }
  }

  /** An order once complete stays complete for as long as it is stored. */
  lemma {:induction false} CompleteForever(rules: Rules, a: History, b: History, o: Id)
    requires Legal(rules, b) && Earlier(a, b)
    requires o in State(a).orders && Complete(State(a), o) && o in State(b).orders
    ensures Complete(State(b), o)
  {
    if a != b {
      StoredBetween(rules, a, b, o);
      CompleteForever(rules, a, b.past, o);
      LegalRunInv(rules, b.past);
      CompleteKept(rules, State(b.past), b.step, o);
    }
  }

  // ---- Pruning ----

  function StaleOrders(d: Db, before: int): set<Id> {
    set o | o in d.orders && Stale(d, before, o)
  }

  /** Exactly the expired orders go, nothing is orphaned, and what belongs to a surviving order is untouched. */
  lemma PruneExactly(d: Db, before: int)
    requires Linked(d)
    ensures var e := Pruned(d, before);
      && e.orders.Keys == d.orders.Keys - StaleOrders(d, before)
      && (forall o :: o in e.orders ==> e.orders[o] == d.orders[o])
      && (forall a :: a in e.authzs <==> a in d.authzs && d.authzs[a].order in e.orders)
      && (forall a :: a in e.authzs ==> e.authzs[a] == d.authzs[a])
      && (forall c :: c in e.challenges <==> c in d.challenges && d.challenges[c].authz in e.authzs)
      && (forall c :: c in e.challenges ==> e.challenges[c] == d.challenges[c])
  {
  }

  /** The count a prune returns is the number of expired orders. */
  lemma PrunedCount(d: Db, before: int)
    ensures |d.orders| - |Pruned(d, before).orders| == |StaleOrders(d, before)|
  {
    var kept, gone := Pruned(d, before).orders.Keys, StaleOrders(d, before);
    SplitSize(d.orders.Keys, kept, gone);
  }

  lemma SplitSize(all: set<Id>, kept: set<Id>, gone: set<Id>)
    requires forall o :: o in all <==> o in kept || o in gone
    requires kept !! gone
    ensures |all| == |kept| + |gone|
  {
    assert all == kept + gone;
  }

  // ---- Why completeness is asked for ----

  lemma Extend(rules: Rules, h: History, step: Step) returns (longer: History)
    requires Legal(rules, h) && Enabled(rules, State(h), step)
    ensures Legal(rules, longer) && State(longer) == Apply(State(h), step)
  {
    longer := Then(h, step);
  }

  /** An order for two names whose creation stopped after the first authorization. */
  function Interrupted(first: string, second: string): Db {
    Db(map[0 := Order("account", Pending, [first, second], 0, None)],
       map[1 := Authz(0, "account", first, HasPrefix(first, "*."), Pending, 0)],
       map[2 := Challenge(1, Dns01, Pending, 0)], map[], {}, 3)
  }

  lemma InterruptedIsReachable(rules: Rules, first: string, second: string) returns (h: History)
    requires rules.accepts(first) && rules.accepts(second)
    ensures Legal(rules, h) && State(h) == Interrupted(first, second)
  {
    var d := Interrupted(first, second);
    h := Extend(rules, Start, InsertOrder(d.orders[0]));
    h := Extend(rules, h, InsertAuthz(d.authzs[1]));
    h := Extend(rules, h, InsertChallenge(d.challenges[2]));
  }

  lemma InterruptedIsDialled(rules: Rules, h: History, first: string, second: string) returns (longer: History)
    requires Legal(rules, h) && State(h) == Interrupted(first, second)
    ensures Legal(rules, longer)
    ensures State(longer) ==
      Interrupted(first, second).(passed := {2}, challenges := map[2 := Challenge(1, Dns01, Valid, 1)])
  {
    longer := Extend(rules, h, DialPassed(2));
    longer := Extend(rules, longer, SaveChallenge(2, Challenge(1, Dns01, Valid, 1)));
  }

  lemma InterruptedIsProved(rules: Rules, h: History, first: string, second: string) returns (longer: History)
    requires Legal(rules, h) && State(h) == Interrupted(first, second)
    ensures Legal(rules, longer)
    ensures var d := Interrupted(first, second);
      State(longer) == d.(passed := {2},
        challenges := map[2 := Challenge(1, Dns01, Valid, 1)],
        authzs := map[1 := d.authzs[1].(status := Valid)])
  {
    var authz := Interrupted(first, second).authzs[1];
    longer := InterruptedIsDialled(rules, h, first, second);
    assert State(longer).challenges[2].authz == 1;
    longer := Extend(rules, longer, SaveAuthz(1, authz.(status := Valid)));
  }

  lemma ReadyIsIssued(rules: Rules, h: History, csr: Csr) returns (longer: History)
    requires var d := State(h);
      && Legal(rules, h) && 0 in d.orders && d.orders[0].status == Pending && d.certificates == map[]
      && AllAuthzsValid(d, 0) && HasAuthz(d, 0)
      && rules.matches(csr, d.orders[0].identifiers) && rules.signable(csr)
    ensures Legal(rules, longer)
    ensures var d, e := State(h), State(longer);
      && e.authzs == d.authzs && e.challenges == d.challenges && e.passed == d.passed
      && e.certificates == map[d.next := Certificate(0, csr)]
      && e.orders == d.orders[0 := d.orders[0].(status := Valid, certificate := Some(d.next))]
  {
    var d := State(h);
    var ready := d.orders[0].(status := Ready);
    longer := Extend(rules, h, SaveOrder(0, ready));
    longer := Extend(rules, longer, InsertCertificate(Certificate(0, csr)));
    longer := Extend(rules, longer, SaveOrder(0, ready.(status := Valid, certificate := Some(d.next))));
  }

  /** Left with one authorization for two names, an order is finalized although one name was never proved. */
  lemma InterruptedOrderIssuesUnproved(rules: Rules, first: string, second: string, csr: Csr) returns (h: History)
    requires first != second && rules.accepts(first) && rules.accepts(second)
    requires rules.matches(csr, [first, second]) && rules.signable(csr)
    ensures Legal(rules, h) && 0 in State(h).orders && State(h).orders[0].status == Valid
    ensures ProvedFor(State(h), 0, first) && !ProvedFor(State(h), 0, second)
    ensures var issued := State(h).orders[0].certificate;
      issued.Some? && issued.value in State(h).certificates && State(h).certificates[issued.value].csr == csr
  {
    h := InterruptedIsReachable(rules, first, second);
    h := InterruptedIsProved(rules, h, first, second);
    assert 1 in State(h).authzs && State(h).authzs[1].order == 0;
    h := ReadyIsIssued(rules, h, csr);
    assert ProofOf(State(h), 0, first, 1, 2);
  }
}
