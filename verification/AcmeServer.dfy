/**
 The ACME request handlers over the stored rows: new order, challenge validation,
 finalize and prune.

 Every store call of a request may fail; `up` says which ones succeed. A request that dies
 half way is one whose later calls all fail, so each handler's contract covers that too.
 */
module AcmeServer {
  import opened Text
  import opened Runs
  import San
  import opened AcmeNames
  import opened Signing
  import opened AcmeProtocol
  import opened AcmeValidation

  const ORDER_TTL := 7 * 24 * 3600

  /**
   How the issuer behaves: it cannot be loaded, it refuses the request, it signs and the
   certificate is stored but reporting it fails, or all goes well.
   */
  datatype Signer = Signs | StoresThenFails | Refuses | Unavailable

  // ---- The rules about names ----

  predicate Signable(env: Env, csr: Csr) {
    SignedDnsNames(env.lib, csr).Some?
  }

  function RulesOf(env: Env): Rules {
    Rules((name: string) => Accepts(env, name), CsrMatches, (csr: Csr) => Signable(env, csr))
  }

  function ChallengeTypes(env: Env, wildcard: bool): seq<ChallengeType> {
    (if env.dns01 then [Dns01] else []) + (if !wildcard && env.http01 then [Http01] else [])
  }

  // ---- What opening an order inserts ----

  function PendingAuthz(o: Id, account: string, name: string, expires: int): Authz {
    Authz(o, account, name, HasPrefix(name, "*."), Pending, expires)
  }

  /** Some challenge type that can prove the name is enabled. */
  predicate Offers(env: Env, name: string) {
    ChallengeTypes(env, HasPrefix(name, "*.")) != []
  }

  predicate Provable(env: Env, names: seq<string>) {
    if names == [] then true else Provable(env, names[..|names| - 1]) && Offers(env, names[|names| - 1])
  }

  ghost function WithChallenges(d: Db, a: Id, kinds: seq<ChallengeType>): Db {
    if kinds == [] then d
    else
      var n := |kinds| - 1;
      Apply(WithChallenges(d, a, kinds[..n]), InsertChallenge(Challenge(a, kinds[n], Pending, 0)))
  }

  /** One authorization for each name, each followed by its challenges. */
  ghost function WithAuthzs(env: Env, d: Db, o: Id, account: string, names: seq<string>, expires: int): Db {
    if names == [] then d
    else
      var n := |names| - 1;
      WithAuthz(env, WithAuthzs(env, d, o, account, names[..n], expires), o, account, names[n], expires)
  }

  /** The rows for one more name. */
  ghost function WithAuthz(env: Env, d: Db, o: Id, account: string, name: string, expires: int): Db {
    var authz := PendingAuthz(o, account, name, expires);
    WithChallenges(Apply(d, InsertAuthz(authz)), d.next, ChallengeTypes(env, authz.wildcard))
  }

  ghost function Opened(env: Env, d: Db, account: string, names: seq<string>, expires: int): Db {
    var order := Order(account, Pending, names, expires, None);
    WithAuthzs(env, Apply(d, InsertOrder(order)), d.next, account, names, expires)
  }

  lemma ProvableExtend(env: Env, names: seq<string>, i: nat)
    requires i < |names|
    ensures Provable(env, names[..i + 1]) <==> Provable(env, names[..i]) && Offers(env, names[i])
  {
    assert names[..i + 1][..i] == names[..i];
  }

  lemma {:induction false} ProvablePrefix(env: Env, names: seq<string>, i: nat)
    requires i <= |names| && Provable(env, names)
    ensures Provable(env, names[..i])
    decreases |names|
  {
    if i == |names| {
      assert names[..i] == names;
    } else {
      var shorter := names[..|names| - 1];
      assert shorter[..i] == names[..i];
      ProvablePrefix(env, shorter, i);
    }
  }

  predicate StartsWithStar(name: string) {
    |name| >= 2 && name[0] == '*' && name[1] == '.'
  }

  /** Proof over DNS is enabled, or proof over HTTP is and the name is no wildcard. */
  predicate HasWayToProve(env: Env, name: string) {
    env.dns01 || (env.http01 && !StartsWithStar(name))
  }

  lemma StarExactly(name: string)
    ensures HasPrefix(name, "*.") <==> StartsWithStar(name)
  {
    if |name| >= 2 {
      assert name[..2] == [name[0], name[1]];
    }
  }

  lemma OffersExactly(env: Env, name: string)
    ensures Offers(env, name) <==> HasWayToProve(env, name)
  {
    StarExactly(name);
  }

  lemma {:induction false} ProvableExactly(env: Env, names: seq<string>)
    ensures Provable(env, names) <==> forall i :: 0 <= i < |names| ==> HasWayToProve(env, names[i])
  {
    if names != [] {
      var n := |names| - 1;
      ProvableExactly(env, names[..n]);
      OffersExactly(env, names[n]);
      assert forall i :: 0 <= i < n ==> names[..n][i] == names[i];
    }
  }

  lemma ProvableUpTo(env: Env, names: seq<string>, i: nat)
    requires i < |names|
    ensures Provable(env, names[..i + 1]) <==> Provable(env, names[..i]) && Offers(env, names[i])
    ensures Provable(env, names) ==> Offers(env, names[i])
  {
    ProvableExtend(env, names, i);
    if Provable(env, names) {
      ProvablePrefix(env, names, i + 1);
    }
  }

  lemma AuthzsExtend(env: Env, d: Db, o: Id, account: string, names: seq<string>, i: nat, expires: int)
    requires i < |names|
    ensures WithAuthzs(env, d, o, account, names[..i + 1], expires) ==
      WithAuthz(env, WithAuthzs(env, d, o, account, names[..i], expires), o, account, names[i], expires)
  {
    assert names[..i + 1][..i] == names[..i];
  }

  lemma {:induction false} ChallengesLeaveAuthzs(d: Db, a: Id, kinds: seq<ChallengeType>)
    ensures var e := WithChallenges(d, a, kinds);
      e.authzs == d.authzs && e.orders == d.orders && e.certificates == d.certificates && e.passed == d.passed
    ensures WithChallenges(d, a, kinds).next == d.next + |kinds|
  {
    if kinds != [] {
      ChallengesLeaveAuthzs(d, a, kinds[..|kinds| - 1]);
    }
  }

  lemma {:induction false} AuthzsLeaveOrders(env: Env, d: Db, o: Id, account: string, names: seq<string>, expires: int)
    ensures var e := WithAuthzs(env, d, o, account, names, expires);
      e.orders == d.orders && e.certificates == d.certificates && e.passed == d.passed && e.next >= d.next
  {
    if names != [] {
      var n := |names| - 1;
      AuthzsLeaveOrders(env, d, o, account, names[..n], expires);
      var before := WithAuthzs(env, d, o, account, names[..n], expires);
      var authz := PendingAuthz(o, account, names[n], expires);
      ChallengesLeaveAuthzs(Apply(before, InsertAuthz(authz)), before.next, ChallengeTypes(env, authz.wildcard));
    }
  }

  lemma {:induction false} AuthzsSound(env: Env, d: Db, o: Id, account: string, names: seq<string>, expires: int)
    requires FreshIds(d)
    ensures var e := WithAuthzs(env, d, o, account, names, expires);
      && (forall a :: a in d.authzs ==> a in e.authzs && e.authzs[a] == d.authzs[a])
      && (forall a :: a in e.authzs && a !in d.authzs ==>
           && e.authzs[a].identifier in names
           && e.authzs[a] == PendingAuthz(o, account, e.authzs[a].identifier, expires))
      && (forall a :: a in e.authzs ==> a < e.next)
  {
    if names != [] {
      var n := |names| - 1;
      AuthzsSound(env, d, o, account, names[..n], expires);
      var before := WithAuthzs(env, d, o, account, names[..n], expires);
      var authz := PendingAuthz(o, account, names[n], expires);
      ChallengesLeaveAuthzs(Apply(before, InsertAuthz(authz)), before.next, ChallengeTypes(env, authz.wildcard));
    }
  }

  lemma {:induction false} EveryNameGetsAuthz(env: Env, d: Db, o: Id, account: string, names: seq<string>, expires: int)
    requires FreshIds(d)
    ensures forall n :: n in names ==> HasAuthzFor(WithAuthzs(env, d, o, account, names, expires), o, n)
    ensures |WithAuthzs(env, d, o, account, names, expires).authzs| == |d.authzs| + |names|
  {
    if names != [] {
      var k := |names| - 1;
      EveryNameGetsAuthz(env, d, o, account, names[..k], expires);
      AuthzsSound(env, d, o, account, names[..k], expires);
      var before := WithAuthzs(env, d, o, account, names[..k], expires);
      var authz := PendingAuthz(o, account, names[k], expires);
      ChallengesLeaveAuthzs(Apply(before, InsertAuthz(authz)), before.next, ChallengeTypes(env, authz.wildcard));
      NameGetsAuthz(before, WithAuthzs(env, d, o, account, names, expires), o, authz, names);
    }
  }

  lemma NameGetsAuthz(d: Db, e: Db, o: Id, authz: Authz, names: seq<string>)
    requires names != [] && authz.order == o && authz.identifier == names[|names| - 1]
    requires d.next !in d.authzs && e.authzs == d.authzs[d.next := authz]
    requires forall n :: n in names[..|names| - 1] ==> HasAuthzFor(d, o, n)
    ensures forall n :: n in names ==> HasAuthzFor(e, o, n)
  {
    assert e.authzs[d.next] == authz;
    forall n | n in names
      ensures HasAuthzFor(e, o, n)
    {
      if n in names[..|names| - 1] {
        assert HasAuthzFor(d, o, n);
        var a :| a in d.authzs && d.authzs[a].order == o && d.authzs[a].identifier == n;
        assert e.authzs[a] == d.authzs[a];
      } else {
        assert n == names[|names| - 1];
      }
    }
  }

  /** The challenges of one authorization, each type under an identifier of its own. */
  lemma {:induction false} ChallengesAdded(d: Db, a: Id, kinds: seq<ChallengeType>)
    requires forall c :: c in d.challenges ==> c < d.next
    ensures var e := WithChallenges(d, a, kinds);
      && (forall c :: c in e.challenges <==> c in d.challenges || d.next <= c < d.next + |kinds|)
      && (forall c :: c in d.challenges ==> e.challenges[c] == d.challenges[c])
      && (forall c :: d.next <= c < d.next + |kinds| ==> e.challenges[c] == Challenge(a, kinds[c - d.next], Pending, 0))
  {
    if kinds != [] {
      var n := |kinds| - 1;
      ChallengesAdded(d, a, kinds[..n]);
      ChallengesLeaveAuthzs(d, a, kinds[..n]);
    }
  }

  /** Challenges are added only, and only to authorizations that were added. */
  ghost predicate ChallengesOnlyAdded(d: Db, e: Db) {
    && (forall c :: c in d.challenges ==> c in e.challenges && e.challenges[c] == d.challenges[c])
    && (forall c :: c in e.challenges && c !in d.challenges ==> AddedChallenge(d, e, c))
    && (forall c :: c in e.challenges ==> c < e.next)
  }

  predicate AddedChallenge(d: Db, e: Db, c: Id)
    requires c in e.challenges
  {
    var challenge := e.challenges[c];
    && challenge.authz in e.authzs && challenge.authz !in d.authzs
    && challenge.status == Pending && challenge.attempts == 0
  }

  lemma OneMoreOnlyAdds(env: Env, d: Db, before: Db, o: Id, account: string, name: string, expires: int)
    requires FreshIds(d) && ChallengesOnlyAdded(d, before) && d.next <= before.next
    requires forall a :: a in before.authzs ==> a < before.next
    ensures ChallengesOnlyAdded(d, WithAuthz(env, before, o, account, name, expires))
  {
    var authz := PendingAuthz(o, account, name, expires);
    var begun, kinds := Apply(before, InsertAuthz(authz)), ChallengeTypes(env, authz.wildcard);
    var e := WithChallenges(begun, before.next, kinds);
    ChallengesAdded(begun, before.next, kinds);
    ChallengesLeaveAuthzs(begun, before.next, kinds);
    forall c | c in e.challenges && c !in d.challenges
      ensures AddedChallenge(d, e, c)
    {
      if c in before.challenges {
        assert AddedChallenge(d, before, c);
      }
    }
  }

  lemma {:induction false} AuthzsOnlyAdd(env: Env, d: Db, o: Id, account: string, names: seq<string>, expires: int)
    requires FreshIds(d)
    ensures ChallengesOnlyAdded(d, WithAuthzs(env, d, o, account, names, expires))
  {
    if names != [] {
      var n := |names| - 1;
      AuthzsOnlyAdd(env, d, o, account, names[..n], expires);
      AuthzsSound(env, d, o, account, names[..n], expires);
      AuthzsLeaveOrders(env, d, o, account, names[..n], expires);
      OneMoreOnlyAdds(env, d, WithAuthzs(env, d, o, account, names[..n], expires), o, account, names[n], expires);
    }
  }

  /** A new order that succeeds is complete, adds one authorization a name and touches nothing else's rows. */
  lemma OpenedIsComplete(env: Env, d: Db, account: string, names: seq<string>, expires: int)
    requires FreshIds(d)
    ensures var e := Opened(env, d, account, names, expires);
      && e.orders == d.orders[d.next := Order(account, Pending, names, expires, None)]
      && Complete(e, d.next)
      && |e.authzs| == |d.authzs| + |names|
      && (forall a :: a in d.authzs ==> a in e.authzs && e.authzs[a] == d.authzs[a])
      && (forall a :: a in e.authzs && a !in d.authzs ==>
           var name := e.authzs[a].identifier;
           && name in names
           && e.authzs[a] == Authz(d.next, account, name, StartsWithStar(name), Pending, expires))
      && ChallengesOnlyAdded(d, e) && e.certificates == d.certificates && e.passed == d.passed
  {
    forall name {:trigger PendingAuthz(d.next, account, name, expires)}
      ensures PendingAuthz(d.next, account, name, expires)
        == Authz(d.next, account, name, StartsWithStar(name), Pending, expires)
    {
      StarExactly(name);
    }
    var begun := Apply(d, InsertOrder(Order(account, Pending, names, expires, None)));
    assert FreshIds(begun);
    AuthzsLeaveOrders(env, begun, d.next, account, names, expires);
    AuthzsSound(env, begun, d.next, account, names, expires);
    EveryNameGetsAuthz(env, begun, d.next, account, names, expires);
    AuthzsOnlyAdd(env, begun, d.next, account, names, expires);
  }

  // ---- Which challenges are offered ----

  predicate IsOffer(d: Db, c: Id, a: Id, kind: ChallengeType) {
    c in d.challenges && d.challenges[c].authz == a && d.challenges[c].kind == kind
  }

  /** DNS if it is enabled, and HTTP if it is enabled and the name is no wildcard. */
  predicate Fits(env: Env, name: string, kind: ChallengeType) {
    if kind == Dns01 then env.dns01 else env.http01 && !StartsWithStar(name)
  }

  /** The authorization has one challenge of each type that fits its name, and no other. */
  ghost predicate OfferedTo(env: Env, d: Db, a: Id)
    requires a in d.authzs
  {
    && (forall kind :: (exists c: Id :: IsOffer(d, c, a, kind)) <==> Fits(env, d.authzs[a].identifier, kind))
    && (forall b: Id, c: Id, kind :: IsOffer(d, b, a, kind) && IsOffer(d, c, a, kind) ==> b == c)
  }

  ghost predicate OffersLinked(d: Db) {
    && (forall a :: a in d.authzs ==> a < d.next)
    && (forall c :: c in d.challenges ==> c < d.next && d.challenges[c].authz in d.authzs)
  }

  lemma KindsFit(env: Env, name: string, kind: ChallengeType)
    ensures kind in ChallengeTypes(env, HasPrefix(name, "*.")) <==> Fits(env, name, kind)
  {
    StarExactly(name);
  }

  /** The authorization's challenges carry these types, one after another. */
  ghost predicate Numbered(d: Db, a: Id, first: Id, kinds: seq<ChallengeType>) {
    forall c: Id, kind :: IsOffer(d, c, a, kind) <==> first <= c < first + |kinds| && kinds[c - first] == kind
  }

  lemma NumberedIsOffered(env: Env, d: Db, a: Id, first: Id, kinds: seq<ChallengeType>)
    requires a in d.authzs && kinds == ChallengeTypes(env, HasPrefix(d.authzs[a].identifier, "*."))
    requires Numbered(d, a, first, kinds)
    ensures OfferedTo(env, d, a)
  {
    forall kind
      ensures (exists c: Id :: IsOffer(d, c, a, kind)) <==> Fits(env, d.authzs[a].identifier, kind)
    {
      KindsFit(env, d.authzs[a].identifier, kind);
      if kind in kinds {
        var i :| 0 <= i < |kinds| && kinds[i] == kind;
        assert IsOffer(d, first + i, a, kind);
      }
    }
  }

  lemma NewIsNumbered(before: Db, e: Db, authz: Authz, kinds: seq<ChallengeType>)
    requires OffersLinked(before)
    requires e == WithChallenges(Apply(before, InsertAuthz(authz)), before.next, kinds)
    ensures Numbered(e, before.next, before.next + 1, kinds)
    ensures OffersLinked(e) && e.authzs == before.authzs[before.next := authz]
    ensures forall c: Id, a: Id, kind ::
      a in before.authzs ==> (IsOffer(e, c, a, kind) <==> IsOffer(before, c, a, kind))
  {
    var begun := Apply(before, InsertAuthz(authz));
    ChallengesAdded(begun, before.next, kinds);
    ChallengesLeaveAuthzs(begun, before.next, kinds);
  }

  lemma StillOffered(env: Env, d: Db, e: Db, a: Id)
    requires a in d.authzs && a in e.authzs && e.authzs[a] == d.authzs[a] && OfferedTo(env, d, a)
    requires forall c: Id, kind :: IsOffer(e, c, a, kind) <==> IsOffer(d, c, a, kind)
    ensures OfferedTo(env, e, a)
  {
    forall kind
      ensures (exists c: Id :: IsOffer(e, c, a, kind)) <==> Fits(env, e.authzs[a].identifier, kind)
    {
      if c: Id :| IsOffer(d, c, a, kind) {
        assert IsOffer(e, c, a, kind);
      }
    }
  }

  lemma {:induction false} AuthzsOffered(env: Env, d: Db, o: Id, account: string, names: seq<string>, expires: int)
    requires OffersLinked(d)
    ensures var e := WithAuthzs(env, d, o, account, names, expires);
      OffersLinked(e) && forall a :: a in e.authzs && a !in d.authzs ==> OfferedTo(env, e, a)
  {
    if names != [] {
      var n := |names| - 1;
      AuthzsOffered(env, d, o, account, names[..n], expires);
      var before := WithAuthzs(env, d, o, account, names[..n], expires);
      var e := WithAuthz(env, before, o, account, names[n], expires);
      var authz := PendingAuthz(o, account, names[n], expires);
      var kinds := ChallengeTypes(env, authz.wildcard);
      NewIsNumbered(before, e, authz, kinds);
      NumberedIsOffered(env, e, before.next, before.next + 1, kinds);
      forall a | a in e.authzs && a !in d.authzs
        ensures OfferedTo(env, e, a)
      {
        if a != before.next {
          StillOffered(env, before, e, a);
        }
      }
    }
  }

  /** Each authorization of a new order has one challenge of each enabled type that fits its name, and no other. */
  lemma OpenedOffersExactly(env: Env, d: Db, account: string, names: seq<string>, expires: int)
    requires FreshIds(d) && Linked(d)
    ensures var e := Opened(env, d, account, names, expires);
      forall a :: a in e.authzs && a !in d.authzs ==> OfferedTo(env, e, a)
  {
    var begun := Apply(d, InsertOrder(Order(account, Pending, names, expires, None)));
    AuthzsOffered(env, begun, d.next, account, names, expires);
  }

  // ---- What finalizing comes to ----

  /** The CSR asks for some of the identifiers, under their own kind and ignoring case, and for nothing else. */
  ghost predicate AsksForItsOwn(csr: Csr, identifiers: seq<string>) {
    && csr.names.ips == [] && csr.names.emails == [] && csr.names.uris == []
    && (forall i :: 0 <= i < |csr.names.dns| ==> San.Mentions(identifiers, csr.names.dns[i]))
    && ('.' in TrimSpace(csr.commonName) ==> San.Mentions(identifiers, TrimSpace(csr.commonName)))
    && (csr.names.dns == [] ==> '.' in TrimSpace(csr.commonName))
  }

  lemma MatchesExactly(csr: Csr, identifiers: seq<string>)
    ensures CsrMatches(csr, identifiers) <==> AsksForItsOwn(csr, identifiers)
  {
    forall name
      ensures Authorised(name, identifiers) <==> San.Mentions(identifiers, name)
    {
      if Authorised(name, identifiers) {
        var i :| 0 <= i < |identifiers| && EqualFold(name, identifiers[i]);
        assert EqualFold(identifiers[i], name);
      }
      if San.Mentions(identifiers, name) {
        var i :| 0 <= i < |identifiers| && EqualFold(identifiers[i], name);
        assert EqualFold(name, identifiers[i]);
      }
    }
  }

  /** A request for an order that is not the account's ready one, or without a readable CSR, is answered so. */
  predicate AnsweredUnfinalized(d: Db, account: string, id: Id, read: bool, r: Outcome<Order>) {
    if !read || id !in d.orders then r == Fail(Malformed)
    else if d.orders[id].account != account then r == Fail(Unauthorized)
    else if d.orders[id].status == Status.Valid then r == Ok(d.orders[id])
    else r == Fail(if d.orders[id].status == Ready then BadCsr else OrderNotReady)
  }

  /**
   For a request that asks for the order's own names: the certificate is stored if it can be
   signed, the signer signs and the write succeeds; the order is saved as valid with it, or as invalid.
   */
  ghost predicate IssuedAs(env: Env, d: Db, e: Db, id: Id, csr: Csr, signer: Signer, up: nat -> bool, r: Outcome<Order>)
    requires id in d.orders
  {
    var signable := CanBeSigned(env.lib, csr);
    var stored := signable && (signer == Signs || signer == StoresThenFails) && up(2);
    var valid := d.orders[id].(status := Status.Valid, certificate := Some(d.next));
    && e.authzs == d.authzs && e.challenges == d.challenges && e.passed == d.passed
    && e.certificates == (if stored then d.certificates[d.next := Certificate(id, csr)] else d.certificates)
    && e.next == (if stored then d.next + 1 else d.next)
    && if stored && signer == Signs then
         && SignedDnsNames(env.lib, csr) == Some(CarriedNames(csr))
         && e.orders == (if up(3) then d.orders[id := valid] else d.orders)
         && r == if up(3) then Ok(valid) else Fail(ServerInternal)
       else
         && e.orders == (if up(3) then d.orders[id := d.orders[id].(status := Status.Invalid)] else d.orders)
         && r == Fail(if signer != Unavailable && (!signable || signer == Refuses) then BadCsr else ServerInternal)
  }

  /** What a finalize request comes to for a ready order, whichever store calls fail. */
  ghost predicate FinalizedAs(env: Env, d: Db, e: Db, id: Id, csr: Csr, ca: bool, signer: Signer, up: nat -> bool,
      r: Outcome<Order>)
    requires id in d.orders
  {
    if !AsksForItsOwn(csr, d.orders[id].identifiers) then
      && e == (if up(1) then d.(orders := d.orders[id := d.orders[id].(status := Status.Invalid)]) else d)
      && r == Fail(BadCsr)
    else if !ca then e == d && r == Fail(ServerInternal)
    else IssuedAs(env, d, e, id, csr, signer, up, r)
  }

  // ---- End to end ----

  /** Some identifier of the order equals the name, ignoring case, and was proved for the order's account. */
  ghost predicate Vouched(d: Db, o: Id, name: string)
    requires o in d.orders
  {
    var identifiers := d.orders[o].identifiers;
    exists i :: 0 <= i < |identifiers| && EqualFold(name, identifiers[i]) && ProvedFor(d, o, identifiers[i])
  }

  lemma VouchedExactly(rules: Rules, d: Db, o: Id, name: string)
    requires Inv(rules, d) && o in d.orders && Complete(d, o) && d.orders[o].status == Status.Valid
    ensures Vouched(d, o, name) <==> Authorised(name, d.orders[o].identifiers)
  {
    var identifiers := d.orders[o].identifiers;
    if Authorised(name, identifiers) {
      var i :| 0 <= i < |identifiers| && EqualFold(name, identifiers[i]);
      assert identifiers[i] in identifiers;
      ProvedExactlyWithAuthz(rules, d, o, identifiers[i]);
    }
  }

  /** The order's certificate names only proved identifiers, exactly when the CSR's common name is covered. */
  ghost predicate VouchedWhenCovered(env: Env, d: Db, o: Id)
    requires o in d.orders
  {
    && d.orders[o].certificate.Some? && d.orders[o].certificate.value in d.certificates
    && var csr := d.certificates[d.orders[o].certificate.value].csr;
    && var names := SignedDnsNames(env.lib, csr);
    && names.Some?
    && ((forall i :: 0 <= i < |names.value| ==> Vouched(d, o, names.value[i])) <==>
        CommonNameCovered(csr, d.orders[o].identifiers))
  }

  /** It is so in every state a run can reach, for every valid order whose creation finished. */
  lemma EndToEnd(env: Env, h: History, o: Id)
    requires Legal(RulesOf(env), h) && o in State(h).orders
    requires State(h).orders[o].status == Status.Valid && Complete(State(h), o)
    ensures VouchedWhenCovered(env, State(h), o)
  {
    var rules, d := RulesOf(env), State(h);
    LegalRunInv(rules, h);
    var csr := d.certificates[d.orders[o].certificate.value].csr;
    assert rules.matches(csr, d.orders[o].identifiers) && rules.signable(csr);
    var names := SignedDnsNames(env.lib, csr).value;
    SignedNamesAuthorisedExactly(env.lib, csr, d.orders[o].identifiers);
    forall i | 0 <= i < |names|
      ensures Vouched(d, o, names[i]) <==> Authorised(names[i], d.orders[o].identifiers)
    {
      VouchedExactly(rules, d, o, names[i]);
    }
  }

  /** And so at every moment after the request that opened the order succeeded. */
  lemma EndToEndSinceOpening(env: Env, before: Db, account: string, names: seq<string>, expires: int, a: History,
      b: History)
    requires FreshIds(before) && State(a) == Opened(env, before, account, names, expires)
    requires Legal(RulesOf(env), b) && Earlier(a, b)
    requires before.next in State(b).orders && State(b).orders[before.next].status == Status.Valid
    ensures VouchedWhenCovered(env, State(b), before.next)
    ensures State(b).orders[before.next].identifiers == names && State(b).orders[before.next].account == account
  {
    OpenedIsComplete(env, before, account, names, expires);
    CompleteForever(RulesOf(env), a, b, before.next);
    OrderFollowsProtocol(RulesOf(env), a, b, before.next);
    EndToEnd(env, b, before.next);
  }

  // ---- Why completeness is asked for ----

  /**
   Under the server's own rules, for any two names it accepts: an order whose creation stopped
   after the first authorization can end with a certificate for both, the second never proved.
   */
  lemma InterruptedAtServer(env: Env, first: string, second: string) returns (h: History)
    requires Accepts(env, first) && Accepts(env, second) && !EqualFold(first, second)
    requires San.ValidDnsName(first) && San.ValidDnsName(second) && TrimSpace(first) == first && |first| <= 64
    ensures Legal(RulesOf(env), h) && 0 in State(h).orders && State(h).orders[0].status == Status.Valid
    ensures ProvedFor(State(h), 0, first) && !ProvedFor(State(h), 0, second)
    ensures var issued := State(h).orders[0].certificate;
      && issued.Some? && issued.value in State(h).certificates
      && SignedDnsNames(env.lib, State(h).certificates[issued.value].csr) == Some([first, second])
  {
    var csr := TwoNames(first, second);
    TwoNamesSigned(env.lib, first, second);
    TwoNamesMatch(first, second);
    h := InterruptedOrderIssuesUnproved(RulesOf(env), first, second, csr);
  }

  lemma SplitAtDot(a: char, b: char)
    requires a != '.' && b != '.'
    ensures Split([a, '.', b], '.') == [[a], [b]]
  {
    assert [b][1..] == "" && ['.', b][1..] == [b] && [a, '.', b][1..] == ['.', b];
    assert [b] + "" == [b] && [a] + "" == [a];
    assert Split([b], '.') == [[b]];
    assert Split(['.', b], '.') == ["", [b]];
  }

  lemma ShortNameIsValid(a: char, b: char)
    requires 'a' <= a <= 'z' && 'a' <= b <= 'z'
    ensures San.ValidDnsName([a, '.', b])
  {
    SplitAtDot(a, b);
    assert San.ValidLabel([a]) && San.ValidLabel([b]);
  }

  lemma ShortNameIsTrimmed(a: char, b: char)
    requires 'a' <= a <= 'z' && 'a' <= b <= 'z'
    ensures TrimSpace([a, '.', b]) == [a, '.', b]
  {
  }

  /** A server without constraints accepts it unless it reads it as an address. */
  lemma ShortNameIsAccepted(env: Env, a: char, b: char)
    requires 'a' <= a <= 'z' && 'a' <= b <= 'z'
    requires Unconstrained(env.constraints) && !env.isIp([a, '.', b])
    ensures Accepts(env, [a, '.', b])
  {
    var name := [a, '.', b];
    assert name[0] != "*."[0] && TrimPrefix(name, "*.") == name;
    assert '*' !in name && multiset(name)['*'] == 0;
  }

  lemma InterruptedWithShortNames(env: Env) returns (h: History)
    requires Unconstrained(env.constraints) && !env.isIp("a.b") && !env.isIp("c.d")
    ensures Legal(RulesOf(env), h) && 0 in State(h).orders && State(h).orders[0].status == Status.Valid
    ensures ProvedFor(State(h), 0, "a.b") && !ProvedFor(State(h), 0, "c.d")
    ensures var issued := State(h).orders[0].certificate;
      && issued.Some? && issued.value in State(h).certificates
      && SignedDnsNames(env.lib, State(h).certificates[issued.value].csr) == Some(["a.b", "c.d"])
  {
    ShortNameIsValid('a', 'b');
    ShortNameIsValid('c', 'd');
    ShortNameIsTrimmed('a', 'b');
    ShortNameIsAccepted(env, 'a', 'b');
    ShortNameIsAccepted(env, 'c', 'd');
    assert Lower("a.b")[0] == 'a' && Lower("c.d")[0] == 'c';
    h := InterruptedAtServer(env, "a.b", "c.d");
  }

  /** A pending order of the account for the requested names, cleaned and in order, that lives a week. */
  predicate OpensOrder(before: map<Id, Order>, after: map<Id, Order>, o: Id, account: string,
      requested: seq<Identifier>, now: int)
  {
    && o in after && after == before[o := Order(account, Pending, after[o].identifiers, now + 604800, None)]
    && |after[o].identifiers| == |requested|
    && forall i :: 0 <= i < |requested| ==> after[o].identifiers[i] == Cleaned(requested[i])
  }

  // ---- Deleting the rows of orders ----

  function AuthzsWithout(authzs: map<Id, Authz>, gone: set<Id>): map<Id, Authz> {
    map a | a in authzs && authzs[a].order !in gone :: authzs[a]
  }

  function ChallengesWithout(challenges: map<Id, Challenge>, authzs: map<Id, Authz>, gone: set<Id>)
    : map<Id, Challenge>
  {
    map c | c in challenges && !(challenges[c].authz in authzs && authzs[challenges[c].authz].order in gone) ::
      challenges[c]
  }

  lemma WithoutOneMore(challenges: map<Id, Challenge>, authzs: map<Id, Authz>, gone: set<Id>, o: Id)
    ensures AuthzsWithout(AuthzsWithout(authzs, gone), {o}) == AuthzsWithout(authzs, gone + {o})
    ensures ChallengesWithout(ChallengesWithout(challenges, authzs, gone), AuthzsWithout(authzs, gone), {o})
      == ChallengesWithout(challenges, authzs, gone + {o})
  {
  }

  lemma PrunedByRows(d: Db, before: int, kept: map<Id, Order>)
    requires kept == map o | o in d.orders && !(d.orders[o].expiresAt < before) :: d.orders[o]
    ensures var stale := StaleOrders(d, before);
      Pruned(d, before) == d.(orders := kept,
        authzs := AuthzsWithout(d.authzs, stale), challenges := ChallengesWithout(d.challenges, d.authzs, stale))
  {
    var e, stale := Pruned(d, before), StaleOrders(d, before);
    assert e.orders == kept;
    assert e.authzs == AuthzsWithout(d.authzs, stale);
    assert e.challenges == ChallengesWithout(d.challenges, d.authzs, stale);
  }

  class Server {
    const env: Env
    ghost const rules: Rules
    var orders: map<Id, Order>
    var authzs: map<Id, Authz>
    var challenges: map<Id, Challenge>
    var certificates: map<Id, Certificate>
    var next: Id
    /** Challenges whose dial-out has passed; seen by the network, not stored. */
    ghost var passed: set<Id>
    /** Every step made so far. */
    ghost var history: History

    constructor (env: Env)
      ensures Consistent() && Tables() == EMPTY && history == Start && this.env == env && rules == RulesOf(env)
    {
      this.env, this.rules := env, RulesOf(env);
      orders, authzs, challenges, certificates, next := map[], map[], map[], map[], 0;
      passed, history := {}, Start;
    }

    ghost function Tables(): Db
      reads this
    {
      Db(orders, authzs, challenges, certificates, passed, next)
    }

    /** The tables are what a legal run of steps left. */
    ghost predicate Consistent()
      reads this
    {
      Legal(rules, history) && Tables() == State(history)
    }

    ghost method Record(step: Step)
      requires Legal(rules, history) && Enabled(rules, State(history), step)
      requires Tables() == Apply(State(history), step)
      modifies this`history
      ensures Consistent() && history == Then(old(history), step)
    {
      history := Then(history, step);
    }

    // ---- Store writes ----

    method SaveChallengeRow(id: Id, row: Challenge, up: bool) returns (ok: bool)
      requires Consistent() && Enabled(rules, Tables(), SaveChallenge(id, row))
      modifies this`challenges, this`history
      ensures ok == up && Consistent() && Earlier(old(history), history)
      ensures challenges == if up then old(challenges)[id := row] else old(challenges)
    {
      if up {
        challenges := challenges[id := row];
        Record(SaveChallenge(id, row));
      }
      return up;
    }

    method SaveAuthzRow(id: Id, row: Authz, up: bool) returns (ok: bool)
      requires Consistent() && Enabled(rules, Tables(), SaveAuthz(id, row))
      modifies this`authzs, this`history
      ensures ok == up && Consistent() && Earlier(old(history), history)
      ensures authzs == if up then old(authzs)[id := row] else old(authzs)
    {
      if up {
        authzs := authzs[id := row];
        Record(SaveAuthz(id, row));
      }
      return up;
    }

    method SaveOrderRow(id: Id, row: Order, up: bool) returns (ok: bool)
      requires Consistent() && Enabled(rules, Tables(), SaveOrder(id, row))
      modifies this`orders, this`history
      ensures ok == up && Consistent() && Earlier(old(history), history)
      ensures orders == if up then old(orders)[id := row] else old(orders)
    {
      if up {
        orders := orders[id := row];
        Record(SaveOrder(id, row));
      }
      return up;
    }

    method InsertCertificateRow(row: Certificate) returns (k: Id)
      requires Consistent() && Enabled(rules, Tables(), InsertCertificate(row))
      modifies this`certificates, this`next, this`history
      ensures k == old(next) && Consistent() && Earlier(old(history), history)
      ensures next == k + 1 && certificates == old(certificates)[k := row]
    {
      k := next;
      certificates, next := certificates[k := row], k + 1;
      Record(InsertCertificate(row));
    }

    // ---- Challenge validation ----

    method AllChallengesInvalid(a: Id) returns (all: bool)
      ensures all <==> Exhausted(Tables(), a)
    {
      var todo := set c | c in challenges && challenges[c].authz == a;
      while todo != {}
        invariant forall c ::
          c in challenges && challenges[c].authz == a && c !in todo ==> challenges[c].status == Status.Invalid
        invariant forall c :: c in todo ==> c in challenges && challenges[c].authz == a
      {
        var c :| c in todo;
        if challenges[c].status != Status.Invalid {
          return false;
        }
        todo := todo - {c};
      }
      return true;
    }

    method AllAuthorizationsValid(o: Id) returns (all: bool)
      ensures all <==> AllAuthzsValid(Tables(), o)
    {
      var todo := set a | a in authzs && authzs[a].order == o;
      while todo != {}
        invariant forall a :: a in authzs && authzs[a].order == o && a !in todo ==> authzs[a].status == Status.Valid
        invariant forall a :: a in todo ==> a in authzs && authzs[a].order == o
      {
        var a :| a in todo;
        if authzs[a].status != Status.Valid {
          return false;
        }
        todo := todo - {a};
      }
      return true;
    }

    /** The row passed in is the one read at the start of the request. */
    method FailAuthorizationIfExhausted(a: Id, authz: Authz, up: nat -> bool)
      requires Consistent() && a in authzs && authzs[a] == authz && authz.order in orders
      modifies this`authzs, this`orders, this`history
      ensures Consistent() && Earlier(old(history), history)
      ensures var fails := up(5) && up(6) && Exhausted(old(Tables()), a);
        && authzs == (if fails then old(authzs)[a := authz.(status := Status.Invalid)] else old(authzs))
        && orders == if fails && up(7) && up(8)
             then old(orders)[authz.order := old(orders[authz.order]).(status := Status.Invalid)] else old(orders)
    {
      if !up(5) {
        return;
      }
      var exhausted := AllChallengesInvalid(a);
      if !exhausted {
        return;
      }
      var failed := SaveAuthzRow(a, authz.(status := Status.Invalid), up(6));
      if !failed || !up(7) {
        return;
      }
      label withdrawn:
      var order := orders[authz.order];
      assert authzs[a].order == authz.order;
      failed := SaveOrderRow(authz.order, order.(status := Status.Invalid), up(8)); // a failure is only logged
      EarlierTrans(old(history), old@withdrawn(history), history);
    }

    method RefreshOrderStatus(o: Id, ghost a: Id, up: nat -> bool)
      requires Consistent() && a in authzs && authzs[a].order == o && o in orders
      modifies this`orders, this`history
      ensures Consistent() && Earlier(old(history), history)
      ensures orders ==
        if up(6) && up(7) && up(8) && old(orders[o]).status == Pending && AllAuthzsValid(old(Tables()), o)
        then old(orders)[o := old(orders[o]).(status := Ready)] else old(orders)
    {
      if !up(6) || orders[o].status != Pending || !up(7) {
        return;
      }
      var allValid := AllAuthorizationsValid(o);
      if !allValid {
        return;
      }
      assert HasAuthz(Tables(), o);
      var saved := SaveOrderRow(o, orders[o].(status := Ready), up(8)); // a failure is only logged
    }

    /** The network has answered for the key: the challenge is settled as valid. */
    method SettlePassed(id: Id, challenge: Challenge, up: bool) returns (ok: bool)
      requires Consistent() && Settles(Tables(), id, challenge) && challenge.status == Status.Valid
      modifies this`passed, this`challenges, this`history
      ensures Consistent() && Earlier(old(history), history) && ok == up
      ensures passed == old(passed) + {id}
      ensures challenges == if up then old(challenges)[id := challenge] else old(challenges)
    {
      passed := passed + {id};
      Record(DialPassed(id));
      label passed:
      ok := SaveChallengeRow(id, challenge, up);
      EarlierTrans(old(history), old@passed(history), history);
    }

    method GrantAuthorization(a: Id, authz: Authz, up: nat -> bool) returns (ok: bool)
      requires Consistent() && a in authzs && authz.order in orders && HasValidChallenge(Tables(), a)
      requires authzs[a].(status := Status.Valid, expiresAt := authz.expiresAt) == authz
      modifies this`authzs, this`orders, this`history
      ensures Consistent() && Earlier(old(history), history) && ok == up(5)
      ensures authzs == if up(5) then old(authzs)[a := authz] else old(authzs)
      ensures var order := old(orders[authz.order]);
        orders == if up(5) && order.status == Pending && up(6) && up(7) && up(8) && LastMissing(old(Tables()), a)
          then old(orders)[authz.order := order.(status := Ready)] else old(orders)
    {
      ok := SaveAuthzRow(a, authz, up(5));
      if !ok {
        return;
      }
      label granted:
      LastMissingFound(old(Tables()), a, authz);
      assert Tables() == old(Tables()).(authzs := old(authzs)[a := authz]);
      RefreshOrderStatus(authz.order, a, up);
      EarlierTrans(old(history), old@granted(history), history);
    }

    method RecordPass(id: Id, challenge: Challenge, authz: Authz, now: int, up: nat -> bool)
      returns (r: Outcome<Challenge>)
      requires Consistent() && Linked(Tables()) && Settles(Tables(), id, challenge) && challenge.status == Status.Valid
      requires authzs[challenge.authz] == authz
      modifies this`passed, this`challenges, this`authzs, this`orders, this`history
      ensures Consistent() && Earlier(old(history), history)
      ensures Tables() == PassRecorded(old(Tables()), id, challenge, now, up)
      ensures r == if up(4) && up(5) then Ok(challenge) else Fail(ServerInternal)
    {
      var a := challenge.authz;
      assert a in authzs && authz.order in orders;
      var recorded := SettlePassed(id, challenge, up(4));
      if !recorded {
        return Fail(ServerInternal);
      }
      label settled:
      assert challenges[id] == challenge;
      LastMissingElsewhere(old(Tables()), Tables(), a);
      recorded := GrantAuthorization(a, authz.(status := Status.Valid, expiresAt := now + AUTHORIZATION_TTL), up);
      EarlierTrans(old(history), old@settled(history), history);
      return if recorded then Ok(challenge) else Fail(ServerInternal);
    }

    method RecordFailure(id: Id, challenge: Challenge, authz: Authz, up: nat -> bool)
      requires Consistent() && Linked(Tables())
      requires Settles(Tables(), id, challenge) && challenge.status == Status.Invalid
      requires authzs[challenge.authz] == authz
      modifies this`challenges, this`authzs, this`orders, this`history
      ensures Consistent() && Earlier(old(history), history)
      ensures Tables() == FailureRecorded(old(Tables()), id, challenge, up)
    {
      var saved := SaveChallengeRow(id, challenge, up(4)); // a failure is only logged
      label settled:
      LastHopeGone(old(Tables()), id, challenge);
      assert saved ==> Tables() == old(Tables()).(challenges := old(challenges)[id := challenge]);
      assert !saved ==> challenges[id].status != Status.Invalid && !Exhausted(Tables(), challenge.authz);
      FailAuthorizationIfExhausted(challenge.authz, authz, up);
      EarlierTrans(old(history), old@settled(history), history);
    }

    method ValidateChallenge(account: string, id: Id, passes: bool, now: int, up: nat -> bool)
      returns (r: Outcome<Challenge>)
      requires Consistent()
      modifies this`passed, this`challenges, this`authzs, this`orders, this`history
      ensures Consistent() && Earlier(old(history), history)
      ensures Tables() == Validated(old(Tables()), account, id, passes, now, up)
      ensures NoFailures(up) && !Eligible(old(Tables()), account, id) ==> r == Unvalidated(old(Tables()), account, id)
      ensures ValidationReached(old(Tables()), Tables(), account, id, passes, now, up, r)
      ensures NoFailures(up) && Eligible(old(Tables()), account, id) ==>
        && Linked(old(Tables()))
        && var row := Attempted(old(challenges[id]), if passes then Status.Valid else Status.Invalid);
        && Tables() == (if passes then AfterPass(old(Tables()), id, row, now) else AfterFailure(old(Tables()), id, row))
        && r == Ok(row)
    {
      AlwaysLinked(rules, history);
      ValidatedExactly(Tables(), account, id, passes, now, up);
      if NoFailures(up) && Eligible(Tables(), account, id) {
        ValidatedWhole(Tables(), account, id, passes, now, up);
      }
      if !up(0) || id !in challenges {
        return Fail(Malformed);
      }
      var challenge := challenges[id];
      if !up(1) {
        return Fail(ServerInternal);
      }
      var authz := authzs[challenge.authz];
      if authz.account != account {
        return Fail(Unauthorized);
      }
      if challenge.status == Status.Valid || challenge.status == Status.Invalid {
        return Ok(challenge);
      }
      if challenge.attempts >= MAX_ATTEMPTS {
        return Fail(RateLimited);
      }
      if !up(2) {
        return Fail(ServerInternal); // the account key could not be read
      }
      r := Attempt(id, authz, passes, now, up);
    }

    /** Counts the attempt, asks the network (`passes` is its answer) and records what it said. */
    method Attempt(id: Id, authz: Authz, passes: bool, now: int, up: nat -> bool) returns (r: Outcome<Challenge>)
      requires Consistent() && Linked(Tables()) && id in challenges && authzs[challenges[id].authz] == authz
      requires Unsettled(challenges[id]) && challenges[id].attempts < MAX_ATTEMPTS
      modifies this`passed, this`challenges, this`authzs, this`orders, this`history
      ensures Consistent() && Earlier(old(history), history)
      ensures var row := Attempted(old(challenges[id]), if passes then Status.Valid else Status.Invalid);
        var marked := old(Tables()).(challenges :=
          if up(3) then old(challenges)[id := Attempted(old(challenges[id]), Processing)] else old(challenges));
        && Tables() == (if passes then PassRecorded(marked, id, row, now, up) else FailureRecorded(marked, id, row, up))
        && r == if passes && !(up(4) && up(5)) then Fail(ServerInternal) else Ok(row)
    {
      var challenge := Attempted(challenges[id], Processing);
      var marked := SaveChallengeRow(id, challenge, up(3)); // a failure is only logged
      label marked:
      var last := challenge.(status := if passes then Status.Valid else Status.Invalid);
      if passes {
        r := RecordPass(id, last, authz, now, up);
      } else {
        RecordFailure(id, last, authz, up);
        r := Ok(last);
      }
      EarlierTrans(old(history), old@marked(history), history);
    }

    // ---- Finalize ----

    /** Signs a request and stores the certificate. */
    method SignCsr(id: Id, csr: Csr, signer: Signer, up: bool) returns (r: Outcome<Id>)
      requires Consistent() && rules == RulesOf(env) && id in orders && orders[id].status == Ready
      requires CsrMatches(csr, orders[id].identifiers)
      modifies this`certificates, this`next, this`history
      ensures Consistent() && Earlier(old(history), history)
      ensures var stores := up && CanBeSigned(env.lib, csr) && (signer == Signs || signer == StoresThenFails);
        && certificates == (if stores then old(certificates)[old(next) := Certificate(id, csr)] else old(certificates))
        && next == (if stores then old(next) + 1 else old(next))
        && r == if signer == Unavailable then Fail(ServerInternal)
                else if !CanBeSigned(env.lib, csr) || signer == Refuses then Fail(BadCsr)
                else if stores && signer == Signs then Ok(old(next)) else Fail(ServerInternal)
    {
      SignedExactly(env.lib, csr);
      if signer == Unavailable {
        return Fail(ServerInternal);
      }
      if !Signable(env, csr) || signer == Refuses {
        return Fail(BadCsr);
      }
      if !up {
        return Fail(ServerInternal);
      }
      var k := InsertCertificateRow(Certificate(id, csr));
      return if signer == Signs then Ok(k) else Fail(ServerInternal);
    }

    method Finalize(account: string, id: Id, csr: Option<Csr>, ca: bool, signer: Signer, up: nat -> bool)
      returns (r: Outcome<Order>)
      requires Consistent() && rules == RulesOf(env)
      modifies this`orders, this`certificates, this`next, this`history
      ensures Consistent() && Earlier(old(history), history)
      ensures var d := old(Tables());
        if up(0) && id in d.orders && d.orders[id].account == account && d.orders[id].status == Ready && csr.Some?
        then FinalizedAs(env, d, Tables(), id, csr.value, ca, signer, up, r)
        else Tables() == d && AnsweredUnfinalized(d, account, id, up(0), r)
    {
      if !up(0) || id !in orders {
        return Fail(Malformed);
      }
      var order := orders[id];
      if order.account != account {
        return Fail(Unauthorized);
      }
      if order.status == Status.Valid {
        return Ok(order);
      }
      if order.status != Ready {
        return Fail(OrderNotReady);
      }
      if csr == None {
        return Fail(BadCsr);
      }
      var matches := CheckCsrAgainstOrder(csr.value, order.identifiers);
      MatchesExactly(csr.value, order.identifiers);
      r := FinalizeReady(id, csr.value, matches, ca, signer, up);
    }

    method FinalizeReady(id: Id, csr: Csr, matches: bool, ca: bool, signer: Signer, up: nat -> bool)
      returns (r: Outcome<Order>)
      requires Consistent() && rules == RulesOf(env) && id in orders && orders[id].status == Ready
      requires matches <==> AsksForItsOwn(csr, orders[id].identifiers)
      modifies this`orders, this`certificates, this`next, this`history
      ensures Consistent() && Earlier(old(history), history)
      ensures FinalizedAs(env, old(Tables()), Tables(), id, csr, ca, signer, up, r)
    {
      if !matches {
        r := SettleOrder(id, Fail(BadCsr), up(1));
        return;
      }
      if !ca {
        return Fail(ServerInternal);
      }
      MatchesExactly(csr, orders[id].identifiers);
      r := IssueForOrder(id, csr, signer, up);
    }

    /** Signs the request, and attaches the certificate or fails the order. */
    method IssueForOrder(id: Id, csr: Csr, signer: Signer, up: nat -> bool) returns (r: Outcome<Order>)
      requires Consistent() && rules == RulesOf(env) && id in orders && orders[id].status == Ready
      requires CsrMatches(csr, orders[id].identifiers)
      modifies this`orders, this`certificates, this`next, this`history
      ensures Consistent() && Earlier(old(history), history)
      ensures IssuedAs(env, old(Tables()), Tables(), id, csr, signer, up, r)
    {
      SignedExactly(env.lib, csr);
      var issued := SignCsr(id, csr, signer, up(2));
      label signed:
      r := SettleOrder(id, issued, up(3));
      EarlierTrans(old(history), old@signed(history), history);
    }

    /** Fails the order, where failing to do so is only logged, or attaches the certificate that was issued. */
    method SettleOrder(id: Id, issued: Outcome<Id>, up: bool) returns (r: Outcome<Order>)
      requires Consistent() && id in orders && orders[id].status == Ready
      requires issued.Ok? ==> issued.value in certificates && certificates[issued.value].order == id
      modifies this`orders, this`history
      ensures Consistent() && Earlier(old(history), history)
      ensures var row := if issued.Fail? then old(orders)[id].(status := Status.Invalid)
          else old(orders)[id].(status := Status.Valid, certificate := Some(issued.value));
        && orders == (if up then old(orders)[id := row] else old(orders))
        && r == if issued.Fail? then Fail(issued.problem) else if up then Ok(row) else Fail(ServerInternal)
    {
      var order := orders[id];
      if issued.Fail? {
        var rejected := SaveOrderRow(id, order.(status := Status.Invalid), up);
        return Fail(issued.problem);
      }
      order := order.(status := Status.Valid, certificate := Some(issued.value));
      var attached := SaveOrderRow(id, order, up);
      return if attached then Ok(order) else Fail(ServerInternal);
    }

    // ---- New order ----

    method InsertAuthzRow(authz: Authz, up: bool) returns (ok: bool)
      requires Consistent() && Enabled(rules, Tables(), InsertAuthz(authz))
      modifies this`authzs, this`next, this`history
      ensures ok == up && Consistent() && Earlier(old(history), history)
      ensures Tables() == if up then Apply(old(Tables()), InsertAuthz(authz)) else old(Tables())
    {
      if up {
        authzs, next := authzs[next := authz], next + 1;
        Record(InsertAuthz(authz));
      }
      return up;
    }

    method InsertChallengeRow(challenge: Challenge, up: bool) returns (ok: bool)
      requires Consistent() && Enabled(rules, Tables(), InsertChallenge(challenge))
      modifies this`challenges, this`next, this`history
      ensures ok == up && Consistent() && Earlier(old(history), history)
      ensures Tables() == if up then Apply(old(Tables()), InsertChallenge(challenge)) else old(Tables())
    {
      if up {
        challenges, next := challenges[next := challenge], next + 1;
        Record(InsertChallenge(challenge));
      }
      return up;
    }

    /** Offers the ways a name may be proved; fails when there is none. */
    method CreateChallenges(a: Id, kinds: seq<ChallengeType>, first: nat, up: nat -> bool) returns (ok: bool)
      requires Consistent() && a in authzs && authzs[a].status == Pending
      requires kinds == ChallengeTypes(env, authzs[a].wildcard)
      modifies this`challenges, this`next, this`history
      ensures Consistent() && Earlier(old(history), history)
      ensures ok ==> kinds != [] && Tables() == WithChallenges(old(Tables()), a, kinds)
      ensures NoFailures(up) && kinds != [] ==> ok
    {
      if kinds == [] {
        return false;
      }
      var i := 0;
      while i < |kinds|
        invariant 0 <= i <= |kinds|
        invariant Consistent() && Earlier(old(history), history)
        invariant Tables() == WithChallenges(old(Tables()), a, kinds[..i])
      {
        ghost var was, before := history, Tables();
        ok := InsertChallengeRow(Challenge(a, kinds[i], Pending, 0), up(first + i));
        EarlierTrans(old(history), was, history);
        if !ok {
          return false;
        }
        assert kinds[..i + 1][..i] == kinds[..i];
        i := i + 1;
      }
      assert kinds[..i] == kinds;
      return true;
    }

    /** The authorization for one name of an order, with its challenges. */
    method CreateAuthorization(o: Id, order: Order, name: string, first: nat, up: nat -> bool) returns (ok: bool)
      requires Consistent() && o in orders && orders[o] == order && order.status == Pending && name in order.identifiers
      modifies this`authzs, this`challenges, this`next, this`history
      ensures Consistent() && Earlier(old(history), history)
      ensures ok ==> Offers(env, name)
      ensures ok ==> Tables() == WithAuthz(env, old(Tables()), o, order.account, name, order.expiresAt)
      ensures NoFailures(up) && Offers(env, name) ==> ok
    {
      var authz := PendingAuthz(o, order.account, name, order.expiresAt);
      var a := next;
      ok := InsertAuthzRow(authz, up(first));
      if !ok {
        return;
      }
      label inserted:
      ok := CreateChallenges(a, ChallengeTypes(env, authz.wildcard), first + 1, up);
      EarlierTrans(old(history), old@inserted(history), history);
    }

    /** Since `past`, the first `i` names of the order got their rows. */
    ghost predicate AuthorizedSoFar(past: History, begun: Db, o: Id, order: Order, i: nat)
      requires i <= |order.identifiers|
      reads this
    {
      && Consistent() && Earlier(past, history)
      && o in orders && orders[o] == order && order.status == Pending
      && Provable(env, order.identifiers[..i])
      && Tables() == WithAuthzs(env, begun, o, order.account, order.identifiers[..i], order.expiresAt)
    }

    method CreateAuthorizations(o: Id, order: Order, up: nat -> bool) returns (ok: bool)
      requires Consistent() && o in orders && orders[o] == order && order.status == Pending
      modifies this`authzs, this`challenges, this`next, this`history
      ensures Consistent() && Earlier(old(history), history)
      ensures ok ==> Provable(env, order.identifiers)
      ensures ok ==> Tables() == WithAuthzs(env, old(Tables()), o, order.account, order.identifiers, order.expiresAt)
      ensures NoFailures(up) && Provable(env, order.identifiers) ==> ok
    {
      ghost var past, begun := history, Tables();
      assert order.identifiers[..0] == [];
      var i := 0;
      while i < |order.identifiers|
        invariant 0 <= i <= |order.identifiers|
        invariant AuthorizedSoFar(past, begun, o, order, i)
      {
        ok := CreateNextAuthorization(o, order, i, past, begun, up);
        if !ok {
          return false;
        }
        i := i + 1;
      }
      assert order.identifiers[..i] == order.identifiers;
      return true;
    }

    method CreateNextAuthorization(o: Id, order: Order, i: nat, ghost past: History, ghost begun: Db, up: nat -> bool)
      returns (ok: bool)
      requires i < |order.identifiers| && AuthorizedSoFar(past, begun, o, order, i)
      modifies this`authzs, this`challenges, this`next, this`history
      ensures Consistent() && Earlier(past, history)
      ensures ok ==> AuthorizedSoFar(past, begun, o, order, i + 1)
      ensures NoFailures(up) && Provable(env, order.identifiers) ==> ok
    {
      ghost var was := history;
      ProvableUpTo(env, order.identifiers, i);
      AuthzsExtend(env, begun, o, order.account, order.identifiers, i, order.expiresAt);
      ok := CreateAuthorization(o, order, order.identifiers[i], 1 + 3 * i, up);
      EarlierTrans(past, was, history);
    }

    /** The names of a request, trimmed and lower-cased, or the first reason to refuse one. */
    method CheckNames(allowed: seq<string>, ca: bool, requested: seq<Identifier>) returns (r: Outcome<seq<string>>)
      ensures r == match FirstProblem(env, allowed, ca, requested)
                   case Some(problem) => Fail(problem)
                   case None => Ok(Names(requested))
      ensures r.Ok? ==> AllAccepted(env, r.value)
      ensures r.Ok? <==> AllRequestable(env, allowed, ca, requested)
      ensures r.Ok? ==>
        && r.value == Names(requested) && |r.value| == |requested|
        && forall i :: 0 <= i < |requested| ==> r.value[i] == Cleaned(requested[i])
      ensures r.Fail? ==> Refused(env, allowed, ca, requested, r.problem)
    {
      FirstProblemExactly(env, allowed, ca, requested);
      NamesExactly(requested);
      r := FindProblem(allowed, ca, requested);
    }

    method FindProblem(allowed: seq<string>, ca: bool, requested: seq<Identifier>) returns (r: Outcome<seq<string>>)
      ensures r == match FirstProblem(env, allowed, ca, requested)
                   case Some(problem) => Fail(problem)
                   case None => Ok(Names(requested))
      ensures r.Ok? ==> AllAccepted(env, r.value)
    {
      var names := [];
      var i := 0;
      while i < |requested|
        invariant 0 <= i <= |requested|
        invariant names == Names(requested[..i]) && AllAccepted(env, names)
        invariant FirstProblem(env, allowed, ca, requested[..i]) == None
      {
        NextName(env, allowed, ca, requested, i);
        var problem := RequestProblem(env, allowed, ca, requested[i]);
        if problem.Some? {
          FirstProblemStays(env, allowed, ca, requested, i + 1);
          return Fail(problem.value);
        }
        names := names + [Lower(TrimSpace(requested[i].value))];
        i := i + 1;
      }
      assert requested[..i] == requested;
      return Ok(names);
    }

    method NewOrder(account: string, allowed: seq<string>, requested: seq<Identifier>, ca: bool, now: int,
        up: nat -> bool)
      returns (r: Outcome<Id>)
      requires Consistent() && rules == RulesOf(env)
      modifies this`orders, this`authzs, this`challenges, this`next, this`history
      ensures Consistent() && Earlier(old(history), history)
      ensures requested == [] ==> r == Fail(Malformed)
      ensures |requested| > 100 ==> r == Fail(RateLimited)
      ensures 1 <= |requested| <= 100 && !AllRequestable(env, allowed, ca, requested) ==>
        r.Fail? && Refused(env, allowed, ca, requested, r.problem)
      ensures !(1 <= |requested| <= 100 && AllRequestable(env, allowed, ca, requested)) ==>
        r.Fail? && Tables() == old(Tables())
      ensures r.Ok? ==>
        && Provable(env, Names(requested))
        && Tables() == Opened(env, old(Tables()), account, Names(requested), now + ORDER_TTL)
      ensures r.Ok? ==> r.value == old(next) && OpensOrder(old(orders), orders, r.value, account, requested, now)
      ensures NoFailures(up) && 1 <= |requested| <= 100 && AllRequestable(env, allowed, ca, requested) ==>
        (r.Ok? <==> forall i :: 0 <= i < |requested| ==> HasWayToProve(env, Cleaned(requested[i])))
      ensures 1 <= |requested| <= 100 && AllRequestable(env, allowed, ca, requested) ==>
        && (r.Fail? ==> r == Fail(ServerInternal))
        && if up(0) then OpensOrder(old(orders), orders, old(next), account, requested, now)
           else r.Fail? && Tables() == old(Tables())
    {
      if requested == [] {
        return Fail(Malformed);
      }
      if |requested| > MAX_IDENTIFIERS {
        return Fail(RateLimited);
      }
      var checked := CheckNames(allowed, ca, requested);
      if checked.Fail? {
        return Fail(checked.problem);
      }
      ProvableExactly(env, checked.value);
      assert forall i :: 0 <= i < |requested| ==> Cleaned(requested[i]) == checked.value[i];
      r := OpenOrder(account, checked.value, now, up);
    }

    /** Stores an order for accepted names, with their authorizations. */
    method OpenOrder(account: string, names: seq<string>, now: int, up: nat -> bool) returns (r: Outcome<Id>)
      requires Consistent() && rules == RulesOf(env) && AllAccepted(env, names)
      modifies this`orders, this`authzs, this`challenges, this`next, this`history
      ensures Consistent() && Earlier(old(history), history)
      ensures r.Ok? ==> r.value == old(next) && Provable(env, names)
      ensures r.Ok? ==> Tables() == Opened(env, old(Tables()), account, names, now + ORDER_TTL)
      ensures r.Fail? ==> r == Fail(ServerInternal)
      ensures if up(0) then orders == old(orders)[old(next) := Order(account, Pending, names, now + 604800, None)]
        else r.Fail? && Tables() == old(Tables())
      ensures NoFailures(up) && Provable(env, names) ==> r.Ok?
    {
      var order := Order(account, Pending, names, now + ORDER_TTL, None);
      if !up(0) {
        return Fail(ServerInternal);
      }
      var o := next;
      assert Enabled(rules, Tables(), InsertOrder(order));
      orders, next := orders[o := order], o + 1;
      Record(InsertOrder(order));
      label inserted:
      var ok := CreateAuthorizations(o, order, up);
      EarlierTrans(old(history), old@inserted(history), history);
      return if ok then Ok(o) else Fail(ServerInternal);
    }

    // ---- Pruning ----

    /** Deletes one order's authorizations and their challenges from copies of the tables. */
    static method DropOrderRows(o: Id, authzs: map<Id, Authz>, challenges: map<Id, Challenge>)
      returns (authzsLeft: map<Id, Authz>, challengesLeft: map<Id, Challenge>)
      ensures authzsLeft == AuthzsWithout(authzs, {o})
      ensures challengesLeft == ChallengesWithout(challenges, authzs, {o})
    {
      challengesLeft := challenges;
      var todo := set a | a in authzs && authzs[a].order == o;
      while todo != {}
        invariant forall a :: a in todo ==> a in authzs && authzs[a].order == o
        invariant challengesLeft == map c | c in challenges && !(
            challenges[c].authz in authzs && authzs[challenges[c].authz].order == o && challenges[c].authz !in todo) ::
          challenges[c]
      {
        var a :| a in todo;
        challengesLeft := map c | c in challengesLeft && challengesLeft[c].authz != a :: challengesLeft[c];
        todo := todo - {a};
      }
      authzsLeft := map a | a in authzs && authzs[a].order != o :: authzs[a];
    }

    /** The same for every order in `stale`, unless a statement fails. */
    static method DropRowsOf(stale: set<Id>, authzs: map<Id, Authz>, challenges: map<Id, Challenge>, up: nat -> bool)
      returns (ok: bool, authzsLeft: map<Id, Authz>, challengesLeft: map<Id, Challenge>)
      ensures ok ==> authzsLeft == AuthzsWithout(authzs, stale)
      ensures ok ==> challengesLeft == ChallengesWithout(challenges, authzs, stale)
      ensures NoFailures(up) ==> ok
    {
      authzsLeft, challengesLeft := authzs, challenges;
      var todo, call: nat := stale, 1;
      ghost var gone: set<Id> := {};
      while todo != {}
        invariant gone + todo == stale
        invariant authzsLeft == AuthzsWithout(authzs, gone)
        invariant challengesLeft == ChallengesWithout(challenges, authzs, gone)
      {
        if !up(call) {
          return false, authzs, challenges;
        }
        var o :| o in todo;
        WithoutOneMore(challenges, authzs, gone, o);
        authzsLeft, challengesLeft := DropOrderRows(o, authzsLeft, challengesLeft);
        todo, call, gone := todo - {o}, call + 1, gone + {o};
      }
      assert gone == stale;
      ok := up(call);
    }

    /** One transaction: when any statement fails, nothing is deleted. */
    method PruneOrders(before: int, up: nat -> bool) returns (r: Outcome<nat>)
      requires Consistent()
      modifies this`orders, this`authzs, this`challenges, this`history
      ensures Consistent() && Earlier(old(history), history)
      ensures r.Ok? ==> Tables() == Pruned(old(Tables()), before) && r.value == |StaleOrders(old(Tables()), before)|
      ensures r.Fail? ==> Tables() == old(Tables())
      ensures NoFailures(up) ==> r.Ok?
    {
      if !up(0) {
        return Fail(ServerInternal);
      }
      var stale := set o | o in orders && orders[o].expiresAt < before;
      assert stale == StaleOrders(Tables(), before);
      var ok, authzsLeft, challengesLeft := DropRowsOf(stale, authzs, challenges, up);
      if !ok {
        return Fail(ServerInternal);
      }
      var kept := map o | o in orders && !(orders[o].expiresAt < before) :: orders[o];
      var removed := |orders| - |kept|;
      PrunedByRows(Tables(), before, kept);
      PrunedCount(Tables(), before);
      orders, authzs, challenges := kept, authzsLeft, challengesLeft;
      Record(AcmeProtocol.PruneOrders(before));
      return Ok(removed);
    }
  }
}
