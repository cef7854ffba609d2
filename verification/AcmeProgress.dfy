/**
 Whether an order can still become ready: what validation requests bring about, whatever the
 network answers and whichever store calls fail.
 */
module AcmeProgress {
  import opened Text
  import opened AcmeProtocol
  import opened AcmeNames
  import opened AcmeValidation
  import opened AcmeServer

  datatype Request = Request(id: Id, passes: bool, now: int, up: nat -> bool)

  ghost function After(d: Db, account: string, request: Request): Db {
    Validated(d, account, request.id, request.passes, request.now, request.up)
  }

  /** The tables after an account's requests to validate challenges, one after another. */
  ghost function AfterAll(d: Db, account: string, requests: seq<Request>): Db
    decreases |requests|
  {
    if requests == [] then d else AfterAll(After(d, account, requests[0]), account, requests[1..])
  }

  ghost predicate IsReady(d: Db, o: Id) {
    o in d.orders && d.orders[o].status == Ready
  }

  ghost predicate IsPending(d: Db, o: Id) {
    o in d.orders && d.orders[o].status == Pending
  }

  /** The account may still trigger the challenge, and it belongs to the order. */
  ghost predicate Open(d: Db, account: string, o: Id, id: Id) {
    Eligible(d, account, id) && d.authzs[d.challenges[id].authz].order == o
  }

  ghost predicate OpenFor(d: Db, account: string, o: Id, a: Id, id: Id) {
    Open(d, account, o, id) && d.challenges[id].authz == a
  }

  predicate Missing(d: Db, o: Id, a: Id) {
    a in d.authzs && d.authzs[a].order == o && d.authzs[a].status != Status.Valid
  }

  /** Some challenge of the order may still be triggered, and one for each authorization that is not valid. */
  ghost predicate Triggerable(d: Db, account: string, o: Id) {
    && (exists id :: Open(d, account, o, id))
    && (forall a :: Missing(d, o, a) ==> exists id :: OpenFor(d, account, o, a, id))
  }

  ghost predicate MakeReady(d: Db, account: string, o: Id, requests: seq<Request>) {
    IsReady(AfterAll(d, account, requests), o)
  }

  /** Some requests make the order ready, for some answers of the network and some failures. */
  ghost predicate CanBecomeReady(d: Db, account: string, o: Id) {
    exists requests :: MakeReady(d, account, o, requests)
  }

  // ---- One request ----

  /** A request opens no challenge. */
  lemma OpenBefore(d: Db, account: string, request: Request, o: Id, id: Id)
    requires Open(After(d, account, request), account, o, id)
    ensures Open(d, account, o, id) && After(d, account, request).challenges[id].authz == d.challenges[id].authz
  {
  }

  /** An authorization becomes valid only through an open challenge of its own. */
  lemma MissingUnlessOpen(d: Db, account: string, request: Request, o: Id, a: Id)
    requires Missing(d, o, a)
    ensures Missing(After(d, account, request), o, a) || OpenFor(d, account, o, a, request.id)
  {
  }

  /** An order becomes ready only through an open challenge, when no other authorization is missing. */
  lemma ReadyOnlyIfTriggered(d: Db, account: string, request: Request, o: Id)
    requires IsPending(d, o) && IsReady(After(d, account, request), o)
    ensures Triggerable(d, account, o)
  {
    var id := request.id;
    assert Open(d, account, o, id);
    var a := d.challenges[id].authz;
    forall b | Missing(d, o, b)
      ensures exists c :: OpenFor(d, account, o, b, c)
    {
      assert b == a;
      assert OpenFor(d, account, o, b, id);
    }
  }

  lemma TriggerableBefore(d: Db, account: string, request: Request, o: Id)
    requires Triggerable(After(d, account, request), account, o)
    ensures Triggerable(d, account, o)
  {
    var e := After(d, account, request);
    var any :| Open(e, account, o, any);
    OpenBefore(d, account, request, o, any);
    forall a | Missing(d, o, a)
      ensures exists id :: OpenFor(d, account, o, a, id)
    {
      MissingUnlessOpen(d, account, request, o, a);
      if Missing(e, o, a) {
        var id :| OpenFor(e, account, o, a, id);
        OpenBefore(d, account, request, o, id);
        assert OpenFor(d, account, o, a, id);
      }
    }
  }

  /** An order that is neither pending nor ready does not become ready. */
  lemma LostForGood(d: Db, account: string, request: Request, o: Id)
    requires o in d.orders && !IsPending(d, o) && !IsReady(d, o)
    ensures var e := After(d, account, request); o in e.orders && !IsPending(e, o) && !IsReady(e, o)
  {
  }

  lemma OrderStays(d: Db, account: string, request: Request, o: Id)
    requires o in d.orders
    ensures o in After(d, account, request).orders
  {
  }

  // ---- Many requests ----

  lemma {:induction false} LostForever(d: Db, account: string, requests: seq<Request>, o: Id)
    requires o in d.orders && !IsPending(d, o) && !IsReady(d, o)
    ensures !IsReady(AfterAll(d, account, requests), o)
    decreases |requests|
  {
    if requests != [] {
      LostForGood(d, account, requests[0], o);
      LostForever(After(d, account, requests[0]), account, requests[1..], o);
    }
  }

  lemma {:induction false} ReadyNeedsTrigger(d: Db, account: string, requests: seq<Request>, o: Id)
    requires IsPending(d, o) && IsReady(AfterAll(d, account, requests), o)
    ensures Triggerable(d, account, o)
    decreases |requests|
  {
    if requests != [] {
      var e := After(d, account, requests[0]);
      OrderStays(d, account, requests[0], o);
      if IsReady(e, o) {
        ReadyOnlyIfTriggered(d, account, requests[0], o);
      } else if IsPending(e, o) {
        ReadyNeedsTrigger(e, account, requests[1..], o);
        TriggerableBefore(d, account, requests[0], o);
      } else {
        LostForever(e, account, requests[1..], o);
      }
    }
  }

  // ---- When everything passes ----

  /** A request that passes and whose store calls all succeed. */
  function Passing(id: Id): Request {
    Request(id, true, 0, _ => true)
  }

  function AllPassing(ids: seq<Id>): (requests: seq<Request>)
    ensures |requests| == |ids|
  {
    seq(|ids|, i requires 0 <= i < |ids| => Passing(ids[i]))
  }

  /** The listed challenges hold an open one of the order, and one for each authorization that is missing. */
  ghost predicate Covers(d: Db, account: string, o: Id, ids: seq<Id>) {
    && (exists i :: 0 <= i < |ids| && Open(d, account, o, ids[i]))
    && (forall a :: Missing(d, o, a) ==> exists i :: 0 <= i < |ids| && OpenFor(d, account, o, a, ids[i]))
  }

  lemma OthersStayOpen(d: Db, account: string, o: Id, id: Id, c: Id)
    requires c != id && Open(d, account, o, c)
    ensures var e := After(d, account, Passing(id));
      Open(e, account, o, c) && e.challenges[c].authz == d.challenges[c].authz
  {
  }

  lemma PassedIsNotMissing(d: Db, account: string, o: Id, id: Id, a: Id)
    requires Missing(After(d, account, Passing(id)), o, a)
    ensures Missing(d, o, a) && !OpenFor(d, account, o, a, id)
  {
  }

  /** The order is ready once the last missing authorization has passed, and pending until then. */
  lemma PassedOrder(d: Db, account: string, o: Id, id: Id)
    requires IsPending(d, o) && Open(d, account, o, id)
    ensures var e, a := After(d, account, Passing(id)), d.challenges[id].authz;
      if LastMissing(d, a) then IsReady(e, o) else IsPending(e, o)
  {
    var c := d.challenges[id];
    var marked := d.(challenges := d.challenges[id := Attempted(c, Processing)]);
    LastMissingElsewhere(d, marked, c.authz);
  }

  lemma IgnoredOrder(d: Db, account: string, o: Id, id: Id)
    requires IsPending(d, o) && !Open(d, account, o, id)
    ensures IsPending(After(d, account, Passing(id)), o)
  {
  }

  lemma ReadyStays(d: Db, account: string, o: Id, id: Id)
    requires IsReady(d, o)
    ensures IsReady(After(d, account, Passing(id)), o)
  {
  }

  /** What is left to cover after the first listed challenge is covered by the rest. */
  lemma CoveredByRest(d: Db, account: string, o: Id, ids: seq<Id>)
    requires ids != [] && Covers(d, account, o, ids)
    requires Open(d, account, o, ids[0]) ==> !LastMissing(d, d.challenges[ids[0]].authz)
    ensures Covers(After(d, account, Passing(ids[0])), account, o, ids[1..])
  {
    var e, rest := After(d, account, Passing(ids[0])), ids[1..];
    forall a | Missing(e, o, a)
      ensures exists i :: 0 <= i < |rest| && OpenFor(e, account, o, a, rest[i])
    {
      PassedIsNotMissing(d, account, o, ids[0], a);
      var i :| 0 <= i < |ids| && OpenFor(d, account, o, a, ids[i]);
      OthersStayOpen(d, account, o, ids[0], ids[i]);
      assert rest[i - 1] == ids[i];
    }
    if Open(d, account, o, ids[0]) {
      var first := d.challenges[ids[0]].authz;
      var b :| b in d.authzs && b != first && d.authzs[b].order == o && d.authzs[b].status != Status.Valid;
      MissingUnlessOpen(d, account, Passing(ids[0]), o, b);
      var i :| 0 <= i < |rest| && OpenFor(e, account, o, b, rest[i]);
      assert Open(e, account, o, rest[i]);
    } else {
      var i :| 0 <= i < |ids| && Open(d, account, o, ids[i]);
      OthersStayOpen(d, account, o, ids[0], ids[i]);
      assert rest[i - 1] == ids[i];
    }
  }

  lemma {:induction false} ReadyStaysForAll(d: Db, account: string, o: Id, ids: seq<Id>)
    requires IsReady(d, o)
    ensures IsReady(AfterAll(d, account, AllPassing(ids)), o)
    decreases |ids|
  {
    if ids != [] {
      ReadyStays(d, account, o, ids[0]);
      ReadyStaysForAll(After(d, account, Passing(ids[0])), account, o, ids[1..]);
      assert AllPassing(ids)[1..] == AllPassing(ids[1..]);
    }
  }

  /** When a challenge of each missing authorization passes and nothing fails, the order ends ready. */
  lemma {:induction false} EachPassedIsReady(d: Db, account: string, o: Id, ids: seq<Id>)
    requires IsPending(d, o) && Covers(d, account, o, ids)
    ensures IsReady(AfterAll(d, account, AllPassing(ids)), o)
    decreases |ids|
  {
    var e := After(d, account, Passing(ids[0]));
    assert AllPassing(ids)[1..] == AllPassing(ids[1..]);
    if Open(d, account, o, ids[0]) {
      PassedOrder(d, account, o, ids[0]);
      if LastMissing(d, d.challenges[ids[0]].authz) {
        ReadyStaysForAll(e, account, o, ids[1..]);
        return;
      }
    } else {
      IgnoredOrder(d, account, o, ids[0]);
    }
    CoveredByRest(d, account, o, ids);
    EachPassedIsReady(e, account, o, ids[1..]);
  }

  lemma {:induction false} Listing(ids: set<Id>) returns (list: seq<Id>)
    ensures forall id :: id in ids <==> id in list
    decreases |ids|
  {
    if ids == {} {
      list := [];
    } else {
      var id :| id in ids;
      list := Listing(ids - {id});
      list := list + [id];
    }
  }

  lemma TriggerableIsCovered(d: Db, account: string, o: Id) returns (ids: seq<Id>)
    requires Triggerable(d, account, o)
    ensures Covers(d, account, o, ids)
  {
    ids := Listing(d.challenges.Keys);
    var any :| Open(d, account, o, any);
    assert any in ids;
    forall a | Missing(d, o, a)
      ensures exists i :: 0 <= i < |ids| && OpenFor(d, account, o, a, ids[i])
    {
      var id :| OpenFor(d, account, o, a, id);
      assert id in ids;
    }
  }

  /**
   A pending order can be made ready by validation requests, whatever the network answers and
   whichever store calls fail, exactly when it has a challenge left to trigger, and one for each
   authorization that is not valid.
   */
  lemma ReadyReachableExactly(d: Db, account: string, o: Id)
    requires IsPending(d, o)
    ensures CanBecomeReady(d, account, o) <==> Triggerable(d, account, o)
  {
    if CanBecomeReady(d, account, o) {
      var requests :| MakeReady(d, account, o, requests);
      ReadyNeedsTrigger(d, account, requests, o);
    }
    if Triggerable(d, account, o) {
      var ids := TriggerableIsCovered(d, account, o);
      EachPassedIsReady(d, account, o, ids);
      assert MakeReady(d, account, o, AllPassing(ids));
    }
  }

  // ---- New orders ----

  ghost predicate Offered(e: Db, a: Id) {
    exists c :: FreshFor(e, a, c)
  }

  predicate FreshFor(e: Db, a: Id, c: Id) {
    && c in e.challenges && e.challenges[c].authz == a
    && e.challenges[c].status == Pending && e.challenges[c].attempts == 0
  }

  lemma OneMoreOffered(env: Env, d: Db, before: Db, o: Id, account: string, name: string, expires: int)
    requires ChallengesOnlyAdded(d, before) && Offers(env, name)
    requires forall a :: a in before.authzs ==> a < before.next
    requires forall a :: a in before.authzs && a !in d.authzs ==> Offered(before, a)
    ensures var e := WithAuthz(env, before, o, account, name, expires);
      forall a :: a in e.authzs && a !in d.authzs ==> Offered(e, a)
  {
    var authz := PendingAuthz(o, account, name, expires);
    var begun, kinds := Apply(before, InsertAuthz(authz)), ChallengeTypes(env, authz.wildcard);
    var e := WithChallenges(begun, before.next, kinds);
    ChallengesAdded(begun, before.next, kinds);
    ChallengesLeaveAuthzs(begun, before.next, kinds);
    assert FreshFor(e, before.next, begun.next);
    forall a | a in before.authzs && a !in d.authzs
      ensures Offered(e, a)
    {
      var c :| FreshFor(before, a, c);
      assert FreshFor(e, a, c);
    }
  }

  lemma {:induction false} EachOffered(env: Env, d: Db, o: Id, account: string, names: seq<string>, expires: int)
    requires FreshIds(d) && Provable(env, names)
    ensures var e := WithAuthzs(env, d, o, account, names, expires);
      forall a :: a in e.authzs && a !in d.authzs ==> Offered(e, a)
  {
    if names != [] {
      var n := |names| - 1;
      EachOffered(env, d, o, account, names[..n], expires);
      AuthzsSound(env, d, o, account, names[..n], expires);
      AuthzsOnlyAdd(env, d, o, account, names[..n], expires);
      OneMoreOffered(env, d, WithAuthzs(env, d, o, account, names[..n], expires), o, account, names[n], expires);
    }
  }

  lemma FreshIsOpen(e: Db, account: string, o: Id, a: Id)
    requires a in e.authzs && e.authzs[a].order == o && e.authzs[a].account == account && Offered(e, a)
    ensures exists c :: OpenFor(e, account, o, a, c)
  {
    var c :| FreshFor(e, a, c);
    assert OpenFor(e, account, o, a, c);
  }

  /** Every authorization of the order is the account's and has a fresh challenge, and there is one. */
  lemma OfferedIsTriggerable(e: Db, account: string, o: Id, any: Id)
    requires forall a :: a in e.authzs && e.authzs[a].order == o ==> e.authzs[a].account == account && Offered(e, a)
    requires any in e.authzs && e.authzs[any].order == o
    ensures Triggerable(e, account, o)
  {
    forall a | a in e.authzs && e.authzs[a].order == o
      ensures exists c :: OpenFor(e, account, o, a, c)
    {
      FreshIsOpen(e, account, o, a);
    }
    var c :| OpenFor(e, account, o, any, c);
    assert Open(e, account, o, c);
  }

  /** The authorizations of a new order are new ones of its account. */
  lemma OwnAuthzs(env: Env, d: Db, account: string, names: seq<string>, expires: int, a: Id)
    requires FreshIds(d) && Linked(d)
    requires var e := Opened(env, d, account, names, expires); a in e.authzs && e.authzs[a].order == d.next
    ensures a !in d.authzs && Opened(env, d, account, names, expires).authzs[a].account == account
  {
    var begun := Apply(d, InsertOrder(Order(account, Pending, names, expires, None)));
    AuthzsSound(env, begun, d.next, account, names, expires);
    assert a in d.authzs ==> AuthzLinked(d, a);
  }

  lemma FirstAuthz(env: Env, d: Db, account: string, names: seq<string>, expires: int) returns (any: Id)
    requires FreshIds(d) && names != []
    ensures var e := Opened(env, d, account, names, expires);
      any in e.authzs && e.authzs[any].order == d.next && IsPending(e, d.next)
  {
    var e := Opened(env, d, account, names, expires);
    OpenedIsComplete(env, d, account, names, expires);
    assert HasAuthzFor(e, d.next, names[0]);
    any :| any in e.authzs && e.authzs[any].order == d.next && e.authzs[any].identifier == names[0];
  }

  /** An order that was opened can become ready. */
  lemma OpenedCanBecomeReady(env: Env, d: Db, account: string, names: seq<string>, expires: int)
    requires FreshIds(d) && Linked(d) && names != [] && Provable(env, names)
    ensures var e := Opened(env, d, account, names, expires);
      IsPending(e, d.next) && CanBecomeReady(e, account, d.next)
  {
    var o, e := d.next, Opened(env, d, account, names, expires);
    var any := FirstAuthz(env, d, account, names, expires);
    EachOffered(env, Apply(d, InsertOrder(Order(account, Pending, names, expires, None))), o, account, names, expires);
    forall a | a in e.authzs && e.authzs[a].order == o
      ensures e.authzs[a].account == account && Offered(e, a)
    {
      OwnAuthzs(env, d, account, names, expires, a);
    }
    OfferedIsTriggerable(e, account, o, any);
    ReadyReachableExactly(e, account, o);
  }

  // ---- What a failed write costs ----

  /** No challenge but this one may still be triggered for its authorization. */
  ghost predicate OnlyOpenFor(d: Db, account: string, o: Id, a: Id, id: Id) {
    OpenFor(d, account, o, a, id) && forall c :: OpenFor(d, account, o, a, c) ==> c == id
  }

  /** A pass after whose challenge row the authorization was not written. */
  ghost predicate GrantLost(request: Request) {
    request.passes && request.up(0) && request.up(1) && request.up(2) && request.up(4) && !request.up(5)
  }

  lemma SettledIsShut(d: Db, account: string, request: Request, o: Id)
    requires GrantLost(request) && Open(d, account, o, request.id)
    ensures var e := After(d, account, request);
      !Open(e, account, o, request.id) && e.authzs == d.authzs && e.orders == d.orders
  {
  }

  /** The order was triggerable; it still is, unless the challenge was the only open one of a missing authorization. */
  lemma GrantLostTriggerable(d: Db, account: string, request: Request, o: Id)
    requires GrantLost(request) && Open(d, account, o, request.id) && Triggerable(d, account, o)
    requires Missing(d, o, d.challenges[request.id].authz)
    ensures Triggerable(After(d, account, request), account, o) <==>
      !OnlyOpenFor(d, account, o, d.challenges[request.id].authz, request.id)
  {
    var id := request.id;
    var a, e := d.challenges[id].authz, After(d, account, request);
    SettledIsShut(d, account, request, o);
    if Triggerable(e, account, o) {
      assert Missing(e, o, a);
      var c :| OpenFor(e, account, o, a, c);
      OpenBefore(d, account, request, o, c);
      assert OpenFor(d, account, o, a, c) && c != id;
    }
    if !OnlyOpenFor(d, account, o, a, id) {
      var c :| OpenFor(d, account, o, a, c) && c != id;
      assert OpenFor(e, account, o, a, c);
      assert Open(e, account, o, c);
      forall b | Missing(e, o, b)
        ensures exists x :: OpenFor(e, account, o, b, x)
      {
        if b != a {
          assert Missing(d, o, b);
          var x :| OpenFor(d, account, o, b, x);
          assert OpenFor(e, account, o, b, x);
        }
      }
    }
  }

  /**
   When the challenge was stored as valid and the write of its authorization lost, the order stays
   pending; it can still become ready exactly when that authorization has another open challenge.
   */
  lemma LostGrantExactly(d: Db, account: string, request: Request, o: Id)
    requires IsPending(d, o) && CanBecomeReady(d, account, o)
    requires GrantLost(request) && Open(d, account, o, request.id)
    requires Missing(d, o, d.challenges[request.id].authz)
    ensures var e := After(d, account, request);
      && IsPending(e, o)
      && (CanBecomeReady(e, account, o) <==>
          !OnlyOpenFor(d, account, o, d.challenges[request.id].authz, request.id))
  {
    SettledIsShut(d, account, request, o);
    ReadyReachableExactly(d, account, o);
    GrantLostTriggerable(d, account, request, o);
    ReadyReachableExactly(After(d, account, request), account, o);
  }

  /** A pass after whose authorization row the order was not written. */
  ghost predicate ReadyLost(request: Request) {
    && request.passes && request.up(0) && request.up(1) && request.up(2) && request.up(4) && request.up(5)
    && !(request.up(6) && request.up(7) && request.up(8))
  }

  lemma AllGranted(d: Db, account: string, request: Request, o: Id)
    requires ReadyLost(request) && Open(d, account, o, request.id) && LastMissing(d, d.challenges[request.id].authz)
    ensures var e := After(d, account, request);
      && e.orders == d.orders && !Open(e, account, o, request.id)
      && (forall a :: !Missing(e, o, a))
      && (forall c :: c != request.id && Open(d, account, o, c) ==> Open(e, account, o, c))
  {
  }

  /**
   When the last authorization was written and the write of the order lost, the order stays pending
   with all its authorizations valid; it can still become ready exactly when some other of its
   challenges is open.
   */
  lemma LostReadyExactly(d: Db, account: string, request: Request, o: Id)
    requires IsPending(d, o) && ReadyLost(request) && Open(d, account, o, request.id)
    requires LastMissing(d, d.challenges[request.id].authz)
    ensures var e := After(d, account, request);
      && IsPending(e, o) && (forall a :: !Missing(e, o, a))
      && (CanBecomeReady(e, account, o) <==> exists c :: c != request.id && Open(d, account, o, c))
  {
    var e := After(d, account, request);
    AllGranted(d, account, request, o);
    ReadyReachableExactly(e, account, o);
    if c :| Open(e, account, o, c) {
      OpenBefore(d, account, request, o, c);
    }
  }
}
