/**
 Pending single sign-on requests: an in-memory store of states, each redeemed at most once,
 that now and then collects what has expired. A mutex makes each call atomic.
 */
module OAuthStates {
  import opened Text

  /** Seconds a state may wait for its callback, and between two collections. */
  const STATE_TTL := 600

  datatype Entry = Entry(verifier: string, expiresAt: int)

  type Entries = map<string, Entry>

  // ---- Each call on values ----

  function Live(entries: Entries, now: int): Entries {
    map s | s in entries && !(now > entries[s].expiresAt) :: entries[s]
  }

  function WithState(entries: Entries, state: string, verifier: string, now: int): Entries {
    entries[state := Entry(verifier, now + STATE_TTL)]
  }

  function Answer(entries: Entries, state: string, now: int): Option<string> {
    if state == "" || state !in entries || now > entries[state].expiresAt then None
    else Some(entries[state].verifier)
  }

  function Redeemed(entries: Entries, state: string): Entries {
    if state == "" then entries else entries - {state}
  }

  // ---- The store ----

  class StateStore {
    var entries: Entries
    var lastGC: int

    constructor (now: int)
      ensures entries == map[] && lastGC == now
    {
      entries, lastGC := map[], now;
    }

    method Issue(state: string, verifier: string, now: int)
      modifies this
      ensures Store(entries, lastGC) == AfterIssue(old(Store(entries, lastGC)), state, verifier, now)
      ensures state in entries && entries[state] == Entry(verifier, now + 600)
      ensures forall s :: s != state ==>
        (s in entries <==> s in old(entries) && (now - old(lastGC) < 600 || now <= old(entries)[s].expiresAt))
      ensures forall s :: s in entries && s != state ==> entries[s] == old(entries)[s]
      ensures lastGC == if now - old(lastGC) < 600 then old(lastGC) else now
    {
      Collect(now);
      entries := entries[state := Entry(verifier, now + STATE_TTL)];
    }

    method Redeem(state: string, now: int) returns (r: Option<string>)
      modifies this`entries
      ensures r == Answer(old(entries), state, now) && entries == Redeemed(old(entries), state)
      ensures r.Some? <==> state != "" && state in old(entries) && now <= old(entries)[state].expiresAt
      ensures r.Some? ==> r.value == old(entries)[state].verifier
      ensures state != "" ==> entries == old(entries) - {state}
    {
      if state == "" || state !in entries {
        return None;
      }
      var pending := entries[state];
      entries := entries - {state};
      return if now > pending.expiresAt then None else Some(pending.verifier);
    }

    method Collect(now: int)
      modifies this
      ensures entries == if now - old(lastGC) < STATE_TTL then old(entries) else Live(old(entries), now)
      ensures lastGC == if now - old(lastGC) < STATE_TTL then old(lastGC) else now
    {
      if now - lastGC < STATE_TTL {
        return;
      }
      var todo := entries.Keys;
      while todo != {}
        modifies this`entries
        invariant todo <= entries.Keys
        invariant entries == map s | s in old(entries) && (s in todo || !(now > old(entries)[s].expiresAt)) ::
          old(entries)[s]
      {
        var s :| s in todo;
        if now > entries[s].expiresAt {
          entries := entries - {s};
        }
        todo := todo - {s};
      }
      lastGC := now;
    }
  }

  datatype Store = Store(entries: Entries, lastGC: int)

  function AfterIssue(store: Store, state: string, verifier: string, now: int): Store {
    if now - store.lastGC < STATE_TTL then Store(WithState(store.entries, state, verifier, now), store.lastGC)
    else Store(WithState(Live(store.entries, now), state, verifier, now), now)
  }

  // ---- Runs ----

  datatype Call = Issue(state: string, verifier: string, now: int) | Redeem(state: string, now: int)

  datatype History = Start(begun: int) | Then(past: History, call: Call)

  function Stored(h: History): Store {
    match h
    case Start(begun) => Store(map[], begun)
    case Then(past, Issue(state, verifier, now)) => AfterIssue(Stored(past), state, verifier, now)
    case Then(past, Redeem(state, now)) => Store(Redeemed(Stored(past).entries, state), Stored(past).lastGC)
  }

  /** A store that never collects. */
  function Hoarded(h: History): Entries {
    match h
    case Start(_) => map[]
    case Then(past, Issue(state, verifier, now)) => WithState(Hoarded(past), state, verifier, now)
    case Then(past, Redeem(state, now)) => Redeemed(Hoarded(past), state)
  }

  predicate ClockedUntil(h: History, now: int) {
    match h
    case Start(begun) => begun <= now
    case Then(past, call) => call.now <= now && ClockedUntil(past, call.now)
  }

  /** The hoard holds the same entries, plus some that are past their expiry. */
  predicate MoreExpired(entries: Entries, hoard: Entries, now: int) {
    && (forall s :: s in entries ==> s in hoard && hoard[s] == entries[s])
    && (forall s :: s in hoard && s !in entries ==> hoard[s].expiresAt < now)
  }

  lemma {:induction false} CollectedHadExpired(h: History, now: int)
    requires ClockedUntil(h, now)
    ensures MoreExpired(Stored(h).entries, Hoarded(h), now)
  {
    if h.Then? {
      CollectedHadExpired(h.past, h.call.now);
    }
  }

  /** Collecting never changes what a later callback is told. */
  lemma CollectingIsInvisible(h: History, state: string, now: int)
    requires ClockedUntil(h, now)
    ensures Answer(Stored(h).entries, state, now) == Answer(Hoarded(h), state, now)
  {
    CollectedHadExpired(h, now);
  }

  // ---- What a callback is told ----

  /** The last call about the state was an issue of it, with this verifier at that time. */
  predicate Waiting(h: History, state: string, verifier: string, at: int) {
    h.Then? && (h.call == Issue(state, verifier, at) || (h.call.state != state && Waiting(h.past, state, verifier, at)))
  }

  lemma {:induction false} HoardedExactly(h: History, state: string, verifier: string, at: int)
    requires state != ""
    ensures state in Hoarded(h) && Hoarded(h)[state] == Entry(verifier, at + 600) <==> Waiting(h, state, verifier, at)
  {
    if h.Then? {
      HoardedExactly(h.past, state, verifier, at);
    }
  }

  /** A callback is told a verifier exactly when it comes within ten minutes of the issue it answers, and first. */
  lemma AnsweredExactly(h: History, state: string, verifier: string, now: int)
    requires ClockedUntil(h, now)
    ensures Answer(Stored(h).entries, state, now) == Some(verifier) <==>
      state != "" && exists at :: Waiting(h, state, verifier, at) && now <= at + 600
  {
    CollectingIsInvisible(h, state, now);
    if state != "" {
      if state in Hoarded(h) {
        HoardedExactly(h, state, Hoarded(h)[state].verifier, Hoarded(h)[state].expiresAt - 600);
      }
      forall at
        ensures state in Hoarded(h) && Hoarded(h)[state] == Entry(verifier, at + 600) <==>
          Waiting(h, state, verifier, at)
      {
        HoardedExactly(h, state, verifier, at);
      }
    }
  }

  // ---- Single use, within the lifetime ----

  function Issues(h: History, state: string): nat {
    match h
    case Start(_) => 0
    case Then(past, call) => Issues(past, state) + if call.Issue? && call.state == state then 1 else 0
  }

  function Redemptions(h: History, state: string): nat {
    match h
    case Start(_) => 0
    case Then(past, call) =>
      Redemptions(past, state) +
      if call.Redeem? && call.state == state && Answer(Stored(past).entries, state, call.now).Some? then 1 else 0
  }

  lemma {:induction false} RedeemedAtMostOncePerIssue(h: History, state: string)
    ensures Redemptions(h, state) + (if state in Stored(h).entries then 1 else 0) <= Issues(h, state)
  {
    if h.Then? {
      RedeemedAtMostOncePerIssue(h.past, state);
    }
  }

  predicate IssuedAt(h: History, state: string, verifier: string, at: int) {
    h.Then? && (h.call == Issue(state, verifier, at) || IssuedAt(h.past, state, verifier, at))
  }

  lemma {:induction false} StoredWasIssued(h: History, state: string)
    requires state in Stored(h).entries
    ensures var entry := Stored(h).entries[state]; IssuedAt(h, state, entry.verifier, entry.expiresAt - STATE_TTL)
  {
    if h.call.Redeem? || h.call.state != state {
      StoredWasIssued(h.past, state);
    }
  }

  /** A callback is told the verifier issued with its state, and only within ten minutes of the issue. */
  lemma RedeemedWithinLifetime(h: History, state: string, now: int) returns (at: int)
    requires Answer(Stored(h).entries, state, now).Some?
    ensures IssuedAt(h, state, Answer(Stored(h).entries, state, now).value, at) && now <= at + 600
  {
    StoredWasIssued(h, state);
    at := Stored(h).entries[state].expiresAt - STATE_TTL;
  }
}
