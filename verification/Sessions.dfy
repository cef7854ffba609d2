/**
 Dashboard sessions: signed access and refresh tokens that the server does not store, and
 the denylist that makes signing out mean something. Time is in whole seconds, as in the
 tokens' own claims.
 */
module Sessions {
  import opened Text

  /** How long access and refresh tokens live. */
  datatype Ttl = Ttl(access: nat, refresh: nat)

  datatype Kind = AccessToken | RefreshToken

  datatype Token = Token(kind: Kind, user: string, sid: string, issued: int, exp: int)

  /** The denylist by session id, and every token ever signed. */
  datatype Db = Db(denied: map<string, int>, minted: set<Token>)

  // ---- Tokens and the denylist ----

  /** A token signed here parses from its issue until just before its expiry. */
  predicate Parses(token: Token, now: int) {
    token.issued <= now < token.exp
  }

  function Pair(ttl: Ttl, user: string, sid: string, now: int): set<Token> {
    {Token(AccessToken, user, sid, now, now + ttl.access), Token(RefreshToken, user, sid, now, now + ttl.refresh)}
  }

  /** The entry standing for everything a user holds. */
  function AllSessionsKey(user: string): string {
    "user:" + user
  }

  predicate InForce(denied: map<string, int>, key: string, now: int) {
    key in denied && denied[key] > now
  }

  predicate IsRevoked(denied: map<string, int>, sid: string, user: string, now: int) {
    InForce(denied, sid, now) || (user != "" && InForce(denied, AllSessionsKey(user), now))
  }

  /** Denying twice keeps the first entry. */
  function Revoked(denied: map<string, int>, key: string, until: int): map<string, int> {
    if key in denied then denied else denied[key := until]
  }

  function Pruned(denied: map<string, int>, before: int): map<string, int> {
    map k | k in denied && !(denied[k] < before) :: denied[k]
  }

  // ---- What each request does ----

  datatype Event =
    | Login(user: string, sid: string, now: int)
    | Rotate(token: Token, active: bool, sid: string, now: int)
    | SignOut(token: Token, now: int)
    | RevokeAll(user: string, now: int)
    | Prune(now: int)

  predicate Rotates(d: Db, event: Event)
    requires event.Rotate?
  {
    && Parses(event.token, event.now) && event.token.kind == RefreshToken
    && !IsRevoked(d.denied, event.token.sid, event.token.user, event.now) && event.active
  }

  predicate SignsOut(event: Event) {
    && event.SignOut? && Parses(event.token, event.now) && event.token.kind == AccessToken
    && event.token.user != "" && event.token.sid != ""
  }

  function Apply(ttl: Ttl, d: Db, event: Event): Db {
    match event
    case Login(user, sid, now) => d.(minted := d.minted + Pair(ttl, user, sid, now))
    case Rotate(token, _, sid, now) =>
      if Rotates(d, event)
      then d.(minted := d.minted + Pair(ttl, token.user, if token.sid == "" then sid else token.sid, now))
      else d
    case SignOut(token, _) =>
      if SignsOut(event) then d.(denied := Revoked(d.denied, token.sid, token.exp + ttl.refresh)) else d
    case RevokeAll(user, now) => d.(denied := Revoked(d.denied, AllSessionsKey(user), now + 2 * ttl.refresh))
    case Prune(now) => d.(denied := Pruned(d.denied, now))
  }

  class Service {
    const ttl: Ttl
    var denied: map<string, int>
    /** Every token signed so far; clients hold them, the server does not. */
    ghost var minted: set<Token>

    constructor (ttl: Ttl)
      ensures Tables() == Db(map[], {}) && this.ttl == ttl
    {
      this.ttl := ttl;
      denied, minted := map[], {};
    }

    ghost function Tables(): Db
      reads this
    {
      Db(denied, minted)
    }

    method IssueForSession(user: string, sid: string, now: int) returns (access: Token, refresh: Token)
      modifies this`minted
      ensures access == Token(AccessToken, user, sid, now, now + ttl.access)
      ensures refresh == Token(RefreshToken, user, sid, now, now + ttl.refresh)
      ensures minted == old(minted) + {access, refresh}
    {
      access := Token(AccessToken, user, sid, now, now + ttl.access);
      refresh := Token(RefreshToken, user, sid, now, now + ttl.refresh);
      minted := minted + {access, refresh};
    }

    /**
     Mints a pair in the token's session, or in the new session `sid` when it belongs to none, for
     an unexpired refresh token of an active user neither whose session nor whose user is denied.
     */
    method Refresh(token: Token, active: bool, sid: string, now: int) returns (pair: Option<(Token, Token)>)
      modifies this`minted
      ensures Tables() == Apply(ttl, old(Tables()), Rotate(token, active, sid, now))
      ensures pair.Some? <==>
        && token.kind == RefreshToken && token.issued <= now < token.exp && active
        && (token.sid in denied ==> denied[token.sid] <= now)
        && (token.user != "" && "user:" + token.user in denied ==> denied["user:" + token.user] <= now)
      ensures pair.Some? ==>
        var (access, refresh), session := pair.value, if token.sid == "" then sid else token.sid;
        && access == Token(AccessToken, token.user, session, now, now + ttl.access)
        && refresh == Token(RefreshToken, token.user, session, now, now + ttl.refresh)
        && minted == old(minted) + {access, refresh}
      ensures pair.None? ==> minted == old(minted)
    {
      if !Parses(token, now) || token.kind != RefreshToken {
        return None;
      }
      if IsRevoked(denied, token.sid, token.user, now) || !active {
        return None;
      }
      var access, refresh := IssueForSession(token.user, if token.sid == "" then sid else token.sid, now);
      return Some((access, refresh));
    }

    method Revoke(key: string, until: int)
      modifies this`denied
      ensures denied == Revoked(old(denied), key, until)
    {
      if key !in denied {
        denied := denied[key := until];
      }
    }

    /** Signs out whoever holds the token, when it still reads as an access token. */
    method RevokeSession(token: Token, now: int)
      modifies this`denied
      ensures Tables() == Apply(ttl, old(Tables()), SignOut(token, now))
      ensures var denies := token.kind == AccessToken && token.issued <= now < token.exp && token.user != ""
          && token.sid != "" && token.sid !in old(denied);
        denied == if denies then old(denied)[token.sid := token.exp + ttl.refresh] else old(denied)
    {
      if !Parses(token, now) || token.kind != AccessToken || token.user == "" || token.sid == "" {
        return;
      }
      Revoke(token.sid, token.exp + ttl.refresh);
    }

    method RevokeAllSessions(user: string, now: int)
      modifies this`denied
      ensures Tables() == Apply(ttl, old(Tables()), RevokeAll(user, now))
      ensures denied == if "user:" + user in old(denied) then old(denied)
        else old(denied)["user:" + user := now + 2 * ttl.refresh]
    {
      Revoke(AllSessionsKey(user), now + 2 * ttl.refresh);
    }

    method PruneDenied(before: int) returns (removed: nat)
      modifies this`denied
      ensures Tables() == Apply(ttl, old(Tables()), Prune(before))
      ensures denied == map k | k in old(denied) && before <= old(denied)[k] :: old(denied)[k]
      ensures removed == |set k | k in old(denied) && old(denied)[k] < before|
    {
      var stale := set k | k in denied && denied[k] < before;
      denied := map k | k in denied && k !in stale :: denied[k];
      return |stale|;
    }
  }

  // ---- Runs ----

  /** A run may begin with tokens that belong to no session, from before sessions were recorded. */
  datatype History = Start(clock: int, legacy: set<Token>) | Then(past: History, event: Event)

  ghost function State(ttl: Ttl, h: History): Db {
    match h
    case Start(_, legacy) => Db(map[], legacy)
    case Then(past, event) => Apply(ttl, State(ttl, past), event)
  }

  predicate FreshSid(d: Db, sid: string) {
    sid != "" && !HasPrefix(sid, "user:") && forall t :: t in d.minted ==> t.sid != sid
  }

  /** Session ids are new, and only tokens that were really signed are presented. */
  predicate Enabled(d: Db, event: Event) {
    match event
    case Login(_, sid, _) => FreshSid(d, sid)
    case Rotate(token, _, sid, _) => token in d.minted && FreshSid(d, sid)
    case SignOut(token, _) => token in d.minted
    case RevokeAll(_, _) => true
    case Prune(_) => true
  }

  ghost predicate Legal(ttl: Ttl, h: History) {
    match h
    case Start(_, legacy) => forall t :: t in legacy ==> t.sid == ""
    case Then(past, event) => Legal(ttl, past) && Enabled(State(ttl, past), event)
  }

  predicate ClockedUntil(h: History, now: int) {
    match h
    case Start(clock, _) => clock <= now
    case Then(past, event) => event.now <= now && ClockedUntil(past, event.now)
  }

  predicate SignedOut(h: History, sid: string) {
    h.Then? && ((SignsOut(h.event) && h.event.token.sid == sid) || SignedOut(h.past, sid))
  }

  // ---- What every run keeps ----

  predicate WellDated(ttl: Ttl, t: Token, now: int) {
    t.issued <= now && t.exp == t.issued + (if t.kind == AccessToken then ttl.access else ttl.refresh)
  }

  predicate Dated(ttl: Ttl, d: Db, now: int) {
    forall t :: t in d.minted && t.sid != "" ==> WellDated(ttl, t, now) && !HasPrefix(t.sid, "user:")
  }

  lemma {:induction false} AlwaysDated(ttl: Ttl, h: History, now: int)
    requires Legal(ttl, h) && ClockedUntil(h, now)
    ensures Dated(ttl, State(ttl, h), now)
  {
    if h.Then? {
      AlwaysDated(ttl, h.past, h.event.now);
    }
  }

  /** A refresh token that lives one second can only be rotated in the second it was issued. */
  predicate OneBirth(d: Db) {
    forall t, u :: t in d.minted && u in d.minted && t.sid == u.sid != "" ==> t.issued == u.issued
  }

  lemma {:induction false} ShortRefreshOneBirth(ttl: Ttl, h: History, now: int)
    requires Legal(ttl, h) && ClockedUntil(h, now) && ttl.refresh <= 1
    ensures OneBirth(State(ttl, h))
  {
    if h.Then? {
      ShortRefreshOneBirth(ttl, h.past, h.event.now);
      AlwaysDated(ttl, h.past, h.event.now);
    }
  }

  /** Every token of the session expires by the time its entry lapses, or has expired if the entry is gone. */
  predicate Ended(d: Db, sid: string, now: int) {
    forall t :: t in d.minted && t.sid == sid ==> t.exp <= if sid in d.denied then d.denied[sid] else now
  }

  predicate Used(d: Db, sid: string) {
    exists t :: t in d.minted && t.sid == sid
  }

  /** The lifetimes for which signing out works. */
  predicate Coverable(ttl: Ttl) {
    ttl.access <= ttl.refresh + 1 || ttl.refresh <= 1
  }

  /** At the sign-out itself, the entry outlives every token of the session. */
  lemma SigningOutEnds(ttl: Ttl, h: History, event: Event, sid: string)
    requires Legal(ttl, h) && ClockedUntil(h, event.now) && Enabled(State(ttl, h), event)
    requires SignsOut(event) && event.token.sid == sid && sid !in State(ttl, h).denied
    requires Coverable(ttl)
    ensures Ended(Apply(ttl, State(ttl, h), event), sid, event.now)
  {
    var d := State(ttl, h);
    AlwaysDated(ttl, h, event.now);
    if ttl.refresh <= 1 {
      ShortRefreshOneBirth(ttl, h, event.now);
    }
    forall t | t in d.minted && t.sid == sid
      ensures t.exp <= event.token.exp + ttl.refresh
    {
      assert WellDated(ttl, t, event.now) && WellDated(ttl, event.token, event.now);
    }
  }

  lemma SessionEntryIsItsOwn(d: Db, user: string, sid: string)
    requires !HasPrefix(sid, "user:")
    ensures AllSessionsKey(user) != sid
  {
    assert HasPrefix(AllSessionsKey(user), "user:");
  }

  lemma EndedStays(ttl: Ttl, d: Db, event: Event, sid: string, now: int)
    requires Ended(d, sid, now) && now <= event.now && Enabled(d, event) && Used(d, sid)
    requires sid != "" && !HasPrefix(sid, "user:")
    ensures Ended(Apply(ttl, d, event), sid, event.now)
  {
    if event.RevokeAll? {
      SessionEntryIsItsOwn(d, event.user, sid);
    }
  }

  lemma {:induction false} SignedOutUsed(ttl: Ttl, h: History, sid: string)
    requires Legal(ttl, h) && SignedOut(h, sid)
    ensures Used(State(ttl, h), sid) && sid != ""
  {
    if SignedOut(h.past, sid) {
      SignedOutUsed(ttl, h.past, sid);
    } else {
      assert h.event.token in State(ttl, h).minted;
    }
  }

  /** No entry for a session appears but by signing it out. */
  lemma {:induction false} NoEntryWithoutSignOut(ttl: Ttl, h: History, sid: string)
    requires Legal(ttl, h) && !SignedOut(h, sid) && !HasPrefix(sid, "user:")
    ensures sid !in State(ttl, h).denied
  {
    if h.Then? {
      NoEntryWithoutSignOut(ttl, h.past, sid);
      if h.event.RevokeAll? {
        SessionEntryIsItsOwn(State(ttl, h.past), h.event.user, sid);
      }
    }
  }

  lemma {:induction false} SignedOutEnded(ttl: Ttl, h: History, sid: string, now: int)
    requires Legal(ttl, h) && ClockedUntil(h, now) && SignedOut(h, sid) && Coverable(ttl)
    ensures Ended(State(ttl, h), sid, now)
  {
    var d, at := State(ttl, h.past), h.event.now;
    SignedOutUsed(ttl, h, sid);
    AlwaysDated(ttl, h, now);
    var t :| t in State(ttl, h).minted && t.sid == sid;
    assert WellDated(ttl, t, now) && !HasPrefix(sid, "user:");
    if SignedOut(h.past, sid) {
      SignedOutEnded(ttl, h.past, sid, at);
      SignedOutUsed(ttl, h.past, sid);
      EndedStays(ttl, d, h.event, sid, at);
    } else {
      NoEntryWithoutSignOut(ttl, h.past, sid);
      SigningOutEnds(ttl, h.past, h.event, sid);
    }
  }

  /**
   Signing out with any unexpired access token of a session leaves each of its tokens, old or
   new, expired or denied at every later moment, whether or not the entry has been pruned.
   */
  lemma SignOutEndsTheLineage(ttl: Ttl, h: History, token: Token, now: int)
    requires Legal(ttl, h) && ClockedUntil(h, now) && SignedOut(h, token.sid) && Coverable(ttl)
    requires token in State(ttl, h).minted
    ensures !Parses(token, now) || IsRevoked(State(ttl, h).denied, token.sid, token.user, now)
  {
    SignedOutEnded(ttl, h, token.sid, now);
  }

  // ---- Lifetimes for which it fails ----

  /** Log in, rotate three times, then sign out with the very first access token. */
  function LateSignOut(ttl: Ttl): History {
    var r: int := ttl.refresh;
    var start := Then(Start(0, {}), Login("user", "sid", 0));
    var once := Then(start, Rotate(Token(RefreshToken, "user", "sid", 0, r), true, "other", r - 1));
    var twice := Then(once, Rotate(Token(RefreshToken, "user", "sid", r - 1, 2 * r - 1), true, "other", r));
    var thrice := Then(twice, Rotate(Token(RefreshToken, "user", "sid", r, 2 * r), true, "other", r + 1));
    Then(thrice, SignOut(Token(AccessToken, "user", "sid", 0, ttl.access), r + 1))
  }

  lemma RotationMints(ttl: Ttl, h: History, token: Token, now: int)
    requires Legal(ttl, h) && State(ttl, h).denied == map[] && token in State(ttl, h).minted
    requires token.kind == RefreshToken && token.sid == "sid" && Parses(token, now)
    requires forall t :: t in State(ttl, h).minted ==> t.sid == "sid"
    ensures var longer := Then(h, Rotate(token, true, "other", now));
      && Legal(ttl, longer)
      && State(ttl, longer) == Db(map[], State(ttl, h).minted + Pair(ttl, token.user, "sid", now))
  {
    assert "other"[..5][0] == 'o';
  }

  /** The last access token outlives the entry by at least a second. */
  lemma LateSignOutFails(ttl: Ttl)
    requires !Coverable(ttl)
    ensures var h, now := LateSignOut(ttl), ttl.access + ttl.refresh;
      var token := Token(AccessToken, "user", "sid", ttl.refresh + 1, ttl.refresh + 1 + ttl.access);
      && Legal(ttl, h) && ClockedUntil(h, now) && SignedOut(h, "sid")
      && token in State(ttl, h).minted
      && Parses(token, now) && !IsRevoked(State(ttl, h).denied, "sid", "user", now)
  {
    var r: int, h := ttl.refresh, LateSignOut(ttl);
    var thrice := h.past;
    var twice := thrice.past;
    var once := twice.past;
    var start := once.past;
    assert Legal(ttl, start) && State(ttl, start) == Db(map[], Pair(ttl, "user", "sid", 0)) by {
      assert !HasPrefix("sid", "user:");
      assert State(ttl, start.past) == Db(map[], {});
      assert Legal(ttl, start.past);
    }
    RotationMints(ttl, start, once.event.token, r - 1);
    RotationMints(ttl, once, twice.event.token, r);
    RotationMints(ttl, twice, thrice.event.token, r + 1);
    assert State(ttl, h).denied == map["sid" := ttl.access + r];
    assert AllSessionsKey("user")[0] != "sid"[0];
    assert ClockedUntil(Start(0, {}), 0) && ClockedUntil(start, r - 1);
    assert ClockedUntil(once, r) && ClockedUntil(twice, r + 1);
  }

  /** Signing out works in every run exactly for the coverable lifetimes. */
  lemma SignOutWorksExactly(ttl: Ttl)
    ensures Coverable(ttl) <==> forall h: History, token: Token, now: int ::
      Legal(ttl, h) && ClockedUntil(h, now) && SignedOut(h, token.sid) && token in State(ttl, h).minted ==>
      !Parses(token, now) || IsRevoked(State(ttl, h).denied, token.sid, token.user, now)
  {
    if Coverable(ttl) {
      forall h: History, token: Token, now: int |
        Legal(ttl, h) && ClockedUntil(h, now) && SignedOut(h, token.sid) && token in State(ttl, h).minted
        ensures !Parses(token, now) || IsRevoked(State(ttl, h).denied, token.sid, token.user, now)
      {
        SignOutEndsTheLineage(ttl, h, token, now);
      }
    } else {
      LateSignOutFails(ttl);
    }
  }

  // ---- Ending everything a user holds ----

  /**
   Denying all of a user's sessions also denies those opened later, until the first such
   entry lapses; a repeated call does not move that moment.
   */
  lemma RevokeAllDeniesUntilTheFirstLapses(ttl: Ttl, d: Db, user: string, now: int, sid: string, later: int)
    requires user != "" && !InForce(d.denied, sid, later)
    ensures var key, e := AllSessionsKey(user), Apply(ttl, d, RevokeAll(user, now));
      sid != key ==>
        (IsRevoked(e.denied, sid, user, later) <==>
          later < if key in d.denied then d.denied[key] else now + 2 * ttl.refresh)
  {
  }
}
