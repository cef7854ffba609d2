/**
 The second factor of one account: enrolment, time-based codes (RFC 6238) that are refused
 once their step is spent, and single-use recovery codes.
 */
module TwoFactor {
  import opened Runs
  import opened Text

  const PERIOD := 30
  const DIGITS := 6
  const SKEW := 1

  /** The cryptography: the code of a secret at a counter, which secrets decode, and the digest of a recovery code. */
  datatype Otp = Otp(hotp: (string, nat) -> string, decodes: string -> bool, digest: string -> string)

  datatype User = User(enabled: bool, secret: Option<string>, lastStep: int, recovery: seq<string>)

  const NO_FACTOR := User(false, None, 0, [])

  predicate HasTwoFactor(u: User) {
    u.enabled && u.secret.Some?
  }

  predicate EnrollmentPending(u: User) {
    !u.enabled && u.secret.Some?
  }

  // ---- Time-based codes ----

  /** Only the digits of what was typed. */
  function NormalizeCode(code: string): string {
    if code == "" then ""
    else if '0' <= code[0] <= '9' then [code[0]] + NormalizeCode(code[1..])
    else NormalizeCode(code[1..])
  }

  /** Division that rounds toward zero. */
  function Counter(at: int): int {
    if at >= 0 then at / PERIOD else -((-at) / PERIOD)
  }

  predicate CodeAt(otp: Otp, secret: string, code: string, step: int) {
    step >= 0 && otp.hotp(secret, step) == code
  }

  /** The latest step from `lo` up to but not including `hi` whose code this is. */
  function LatestMatch(otp: Otp, secret: string, code: string, lo: int, hi: int): Option<int>
    decreases hi - lo
  {
    if hi <= lo then None
    else if CodeAt(otp, secret, code, hi - 1) then Some(hi - 1)
    else LatestMatch(otp, secret, code, lo, hi - 1)
  }

  function MatchedStep(otp: Otp, secret: string, code: string, at: int): Option<int> {
    var typed, now := NormalizeCode(code), Counter(at);
    if !otp.decodes(secret) || |typed| != DIGITS then None
    else LatestMatch(otp, secret, typed, now - SKEW, now + SKEW + 1)
  }

  lemma {:induction false} LatestMatchIsHighest(otp: Otp, secret: string, code: string, lo: int, hi: int, step: int)
    ensures var r := LatestMatch(otp, secret, code, lo, hi);
      && (r.Some? ==> lo <= r.value < hi && CodeAt(otp, secret, code, r.value))
      && (lo <= step < hi && CodeAt(otp, secret, code, step) ==> r.Some? && step <= r.value)
    decreases hi - lo
  {
    if lo < hi {
      LatestMatchIsHighest(otp, secret, code, lo, hi - 1, step);
    }
  }

  /** A code matches only within one step of the clock, and as the latest step it is the code of. */
  lemma MatchedStepIsNear(otp: Otp, secret: string, code: string, at: int, step: int)
    ensures var r, typed := MatchedStep(otp, secret, code, at), NormalizeCode(code);
      && (r.Some? ==> Counter(at) - SKEW <= r.value <= Counter(at) + SKEW && CodeAt(otp, secret, typed, r.value))
      && (otp.decodes(secret) && |typed| == DIGITS
          && Counter(at) - SKEW <= step <= Counter(at) + SKEW && CodeAt(otp, secret, typed, step)
          ==> r.Some? && step <= r.value)
  {
    LatestMatchIsHighest(otp, secret, NormalizeCode(code), Counter(at) - SKEW, Counter(at) + SKEW + 1, step);
  }

  /** The digits typed are kept, in order, and nothing else. */
  lemma {:induction false} NormalizedExactly(before: string, c: char, after: string)
    ensures NormalizeCode("") == ""
    ensures NormalizeCode(before + [c] + after) ==
      NormalizeCode(before) + (if c in "0123456789" then [c] else "") + NormalizeCode(after)
  {
    var whole := before + [c] + after;
    if before == "" {
      assert whole[1..] == after;
    } else {
      assert whole[1..] == before[1..] + [c] + after;
      NormalizedExactly(before[1..], c, after);
    }
  }

  /** A counter lasts thirty seconds; before 1970 it rounds toward zero. */
  lemma CounterExactly(at: int, counter: int)
    ensures at >= 0 ==> (Counter(at) == counter <==> 30 * counter <= at < 30 * counter + 30)
    ensures at < 0 ==> (Counter(at) == counter <==> 30 * counter - 30 < at <= 30 * counter)
  {
  }

  /** Six digits that are the code of this step, which is within one of the clock. */
  predicate IsCodeOf(otp: Otp, secret: string, code: string, at: int, step: int) {
    && otp.decodes(secret) && |NormalizeCode(code)| == 6
    && step >= 0 && Counter(at) - 1 <= step <= Counter(at) + 1
    && otp.hotp(secret, step) == NormalizeCode(code)
  }

  ghost predicate IsLatestCodeOf(otp: Otp, secret: string, code: string, at: int, step: int) {
    IsCodeOf(otp, secret, code, at, step) && forall s :: IsCodeOf(otp, secret, code, at, s) ==> s <= step
  }

  lemma MatchedExactly(otp: Otp, secret: string, code: string, at: int)
    ensures forall step :: MatchedStep(otp, secret, code, at) == Some(step) <==>
      IsLatestCodeOf(otp, secret, code, at, step)
    ensures MatchedStep(otp, secret, code, at) == None <==> forall step :: !IsCodeOf(otp, secret, code, at, step)
  {
    forall step
      ensures IsCodeOf(otp, secret, code, at, step) ==>
        MatchedStep(otp, secret, code, at).Some? && step <= MatchedStep(otp, secret, code, at).value
    {
      MatchedStepIsNear(otp, secret, code, at, step);
    }
    if MatchedStep(otp, secret, code, at).Some? {
      MatchedStepIsNear(otp, secret, code, at, 0);
      assert IsCodeOf(otp, secret, code, at, MatchedStep(otp, secret, code, at).value);
    }
  }

  method VerifyStep(otp: Otp, secret: string, code: string, at: int) returns (step: int, ok: bool)
    ensures (if ok then Some(step) else None) == MatchedStep(otp, secret, code, at)
    ensures ok <==> exists s :: IsCodeOf(otp, secret, code, at, s)
    ensures ok ==> IsLatestCodeOf(otp, secret, code, at, step)
    ensures !ok ==> step == 0
  {
    MatchedExactly(otp, secret, code, at);
    step, ok := 0, false;
    if !otp.decodes(secret) {
      return;
    }
    var typed := NormalizeCode(code);
    if |typed| != DIGITS {
      return;
    }
    var counter := Counter(at);
    for offset := -SKEW to SKEW + 1
      invariant (if ok then Some(step) else None) == LatestMatch(otp, secret, typed, counter - SKEW, counter + offset)
      invariant !ok ==> step == 0
    {
      var candidate := counter + offset;
      if candidate >= 0 {
        if otp.hotp(secret, candidate) == typed {
          step, ok := candidate, true;
        }
      }
    }
  }

  // ---- Recovery codes ----

  function Without(digests: seq<string>, spent: string): seq<string> {
    if digests == [] then []
    else
      var n := |digests| - 1;
      if digests[n] == spent then Without(digests[..n], spent) else Without(digests[..n], spent) + [digests[n]]
  }

  lemma {:induction false} WithoutMembers(digests: seq<string>, spent: string, digest: string)
    ensures digest in Without(digests, spent) <==> digest in digests && digest != spent
  {
    if digests != [] {
      var n := |digests| - 1;
      WithoutMembers(digests[..n], spent, digest);
      assert digests == digests[..n] + [digests[n]];
    }
  }

  /** A spent digest goes, however often it is there, and every other stays as often as it was. */
  lemma {:induction false} WithoutCounts(digests: seq<string>, spent: string)
    ensures multiset(Without(digests, spent)) == multiset(digests)[spent := 0]
  {
    if digests != [] {
      var n := |digests| - 1;
      WithoutCounts(digests[..n], spent);
      assert digests == digests[..n] + [digests[n]];
    }
  }

  method ConsumeRecoveryCode(stored: seq<string>, want: string) returns (remaining: seq<string>, found: bool)
    ensures found <==> want in stored
    ensures remaining == Without(stored, want)
  {
    remaining, found := [], false;
    for i := 0 to |stored|
      invariant remaining == Without(stored[..i], want)
      invariant found <==> want in stored[..i]
    {
      assert stored[..i + 1][..i] == stored[..i];
      if stored[i] == want {
        found := true;
      } else {
        remaining := remaining + [stored[i]];
      }
    }
    assert stored[..|stored|] == stored;
  }

  // ---- Checking a code ----

  datatype Check = Refused | TimeStep(step: int) | Recovery(digest: string)

  function CheckCode(otp: Otp, u: User, code: string, now: int): Check {
    var typed := TrimSpace(code);
    if typed == "" || u.secret == None then Refused
    else
      match MatchedStep(otp, u.secret.value, typed, now)
      case Some(step) => if step <= u.lastStep then Refused else TimeStep(step)
      case None => if otp.digest(typed) in u.recovery then Recovery(otp.digest(typed)) else Refused
  }

  /** What a code of the account is good for; a step already spent is refused even if the text is a recovery code. */
  ghost predicate GoodAs(otp: Otp, u: User, code: string, now: int, check: Check) {
    var typed := TrimSpace(code);
    && typed != "" && u.secret.Some?
    && match check
       case Refused => false
       case TimeStep(step) => IsLatestCodeOf(otp, u.secret.value, typed, now, step) && step > u.lastStep
       case Recovery(digest) =>
         && digest == otp.digest(typed) && digest in u.recovery
         && forall step :: !IsCodeOf(otp, u.secret.value, typed, now, step)
  }

  ghost predicate Proves(otp: Otp, u: User, code: string, now: int) {
    exists check :: GoodAs(otp, u, code, now, check)
  }

  lemma CheckedExactly(otp: Otp, u: User, code: string, now: int)
    ensures forall check :: check != Refused ==> (CheckCode(otp, u, code, now) == check <==>
      GoodAs(otp, u, code, now, check))
    ensures CheckCode(otp, u, code, now) != Refused <==> Proves(otp, u, code, now)
  {
    if u.secret.Some? {
      MatchedExactly(otp, u.secret.value, TrimSpace(code), now);
    }
    var r := CheckCode(otp, u, code, now);
    assert r != Refused ==> GoodAs(otp, u, code, now, r);
  }

  /** What accepting a code leaves of the account. */
  predicate UsedUp(u: User, check: Check, after: User) {
    match check
    case Refused => after == u
    case TimeStep(step) => after == u.(lastStep := step)
    case Recovery(digest) =>
      after.(recovery := u.recovery) == u && multiset(after.recovery) == multiset(u.recovery)[digest := 0]
  }

  /** What checking a code leaves of the account. */
  ghost predicate UsesUp(otp: Otp, u: User, code: string, now: int, after: User) {
    || (after == u && !Proves(otp, u, code, now))
    || exists check :: GoodAs(otp, u, code, now, check) && UsedUp(u, check, after)
  }

  lemma CheckUsesUp(otp: Otp, u: User, code: string, now: int)
    ensures UsesUp(otp, u, code, now, Spent(u, CheckCode(otp, u, code, now)))
  {
    CheckedExactly(otp, u, code, now);
    SpentIsUsedUp(u, CheckCode(otp, u, code, now));
  }

  lemma SpentIsUsedUp(u: User, check: Check)
    ensures UsedUp(u, check, Spent(u, check))
  {
    if check.Recovery? {
      WithoutCounts(u.recovery, check.digest);
    }
  }

  function Spent(u: User, check: Check): User {
    match check
    case Refused => u
    case TimeStep(step) => u.(lastStep := step)
    case Recovery(digest) => u.(recovery := Without(u.recovery, digest))
  }

  // ---- The operations ----

  /** `saved` says whether a write of the row succeeds; operations that write twice have two. */
  datatype Event =
    | Begin(secret: string, saved: bool)
    | Confirm(code: string, now: int, digests: seq<string>, saved: bool)
    | SignIn(code: string, now: int, saved: bool)
    | Disable(password: bool, code: string, now: int, saved: bool, cleared: bool)
    | Reset(cleared: bool)
    | Regenerate(code: string, now: int, digests: seq<string>, saved: bool, renewed: bool)

  /** What the event's code was accepted as; codes are looked at only when a factor is required or being confirmed. */
  function Accepted(otp: Otp, u: User, event: Event): Check {
    match event
    case Begin(_, _) => Refused
    case Reset(_) => Refused
    case Confirm(code, now, _, saved) =>
      if EnrollmentPending(u) && saved && MatchedStep(otp, u.secret.value, code, now).Some?
      then TimeStep(MatchedStep(otp, u.secret.value, code, now).value) else Refused
    case SignIn(code, now, saved) => if HasTwoFactor(u) && saved then CheckCode(otp, u, code, now) else Refused
    case Disable(password, code, now, saved, _) =>
      if HasTwoFactor(u) && password && saved then CheckCode(otp, u, code, now) else Refused
    case Regenerate(code, now, _, saved, _) =>
      if HasTwoFactor(u) && saved then CheckCode(otp, u, code, now) else Refused
  }

  function Apply(otp: Otp, u: User, event: Event): User {
    match event
    case Begin(secret, saved) => if HasTwoFactor(u) || !saved then u else User(false, Some(secret), 0, [])
    case Confirm(_, _, digests, _) =>
      match Accepted(otp, u, event) {
        case TimeStep(step) => User(true, u.secret, step, digests)
        case _ => u
      }
    case SignIn(_, _, _) => Spent(u, Accepted(otp, u, event))
    case Disable(password, _, _, _, cleared) =>
      if !password || (HasTwoFactor(u) && Accepted(otp, u, event) == Refused) || u.secret == None then u
      else if cleared then NO_FACTOR
      else Spent(u, Accepted(otp, u, event))
    case Reset(cleared) => if u.secret.Some? && cleared then NO_FACTOR else u
    case Regenerate(_, _, digests, _, renewed) =>
      var spent := Spent(u, Accepted(otp, u, event));
      if Accepted(otp, u, event) != Refused && renewed then spent.(recovery := digests) else spent
  }

  /** The stored row; each method works on a copy and stores it with one write at a time. */
  class Account {
    const otp: Otp
    var user: User

    constructor (otp: Otp)
      ensures user == NO_FACTOR && this.otp == otp
    {
      this.otp, user := otp, NO_FACTOR;
    }

    method BeginEnrollment(secret: string, saved: bool) returns (ok: bool)
      modifies this
      ensures user == Apply(otp, old(user), Begin(secret, saved))
      ensures ok <==> !(old(user).enabled && old(user).secret.Some?) && saved
      ensures user == if ok then User(false, Some(secret), 0, []) else old(user)
    {
      if HasTwoFactor(user) || !saved {
        return false;
      }
      user := user.(secret := Some(secret), enabled := false, lastStep := 0, recovery := []);
      return true;
    }

    method ConfirmEnrollment(code: string, now: int, digests: seq<string>, saved: bool) returns (ok: bool)
      modifies this
      ensures user == Apply(otp, old(user), Confirm(code, now, digests, saved))
      ensures ok <==> Accepted(otp, old(user), Confirm(code, now, digests, saved)) != Refused
      ensures ok <==>
        && !old(user).enabled && old(user).secret.Some? && saved
        && exists step :: IsCodeOf(otp, old(user).secret.value, code, now, step)
      ensures ok ==>
        && user == User(true, old(user).secret, user.lastStep, digests)
        && IsLatestCodeOf(otp, user.secret.value, code, now, user.lastStep)
      ensures !ok ==> user == old(user)
    {
      if HasTwoFactor(user) || !EnrollmentPending(user) {
        return false;
      }
      var step, matched := VerifyStep(otp, user.secret.value, code, now);
      if !matched || !saved {
        return false;
      }
      user := user.(enabled := true, lastStep := step, recovery := digests);
      return true;
    }

    /** Checks a code and stores what accepting it uses up. */
    method VerifySecondFactor(code: string, now: int, saved: bool) returns (check: Check)
      requires HasTwoFactor(user)
      modifies this
      ensures check == if saved then CheckCode(otp, old(user), code, now) else Refused
      ensures user == Spent(old(user), check)
      ensures forall c :: c != Refused ==> (check == c <==> saved && GoodAs(otp, old(user), code, now, c))
      ensures UsedUp(old(user), check, user)
      ensures check != Refused <==> saved && Proves(otp, old(user), code, now)
      ensures saved ==> UsesUp(otp, old(user), code, now, user)
    {
      CheckedExactly(otp, user, code, now);
      CheckUsesUp(otp, user, code, now);
      SpentIsUsedUp(user, if saved then CheckCode(otp, user, code, now) else Refused);
      var typed := TrimSpace(code);
      if typed == "" {
        return Refused;
      }
      var step, matched := VerifyStep(otp, user.secret.value, typed, now);
      if matched {
        if step <= user.lastStep || !saved {
          return Refused;
        }
        user := user.(lastStep := step);
        return TimeStep(step);
      }
      var remaining, found := ConsumeRecoveryCode(user.recovery, otp.digest(typed));
      if !found || !saved {
        return Refused;
      }
      user := user.(recovery := remaining);
      return Recovery(otp.digest(typed));
    }

    method DisableTwoFactor(password: bool, code: string, now: int, saved: bool, cleared: bool) returns (ok: bool)
      modifies this
      ensures user == Apply(otp, old(user), Disable(password, code, now, saved, cleared))
      ensures ok <==>
        && old(user).secret.Some? && password && cleared
        && (old(user).enabled ==> saved && Proves(otp, old(user), code, now))
      ensures ok ==> user == User(false, None, 0, [])
      ensures !ok && !(old(user).enabled && password && saved) ==> user == old(user)
      ensures !ok && old(user).enabled && password && saved ==> UsesUp(otp, old(user), code, now, user)
    {
      if !HasTwoFactor(user) && !EnrollmentPending(user) {
        return false;
      }
      if !password {
        return false;
      }
      if HasTwoFactor(user) {
        var check := VerifySecondFactor(code, now, saved);
        if check == Refused {
          return false;
        }
      }
      if !cleared {
        return false;
      }
      user := NO_FACTOR;
      return true;
    }

    method ResetTwoFactor(cleared: bool) returns (ok: bool)
      modifies this
      ensures user == Apply(otp, old(user), Reset(cleared))
      ensures ok <==> old(user).secret.Some? && cleared
      ensures user == if ok then User(false, None, 0, []) else old(user)
    {
      if user.secret == None || !cleared {
        return false;
      }
      user := NO_FACTOR;
      return true;
    }

    method RegenerateRecoveryCodes(code: string, now: int, digests: seq<string>, saved: bool, renewed: bool)
      returns (ok: bool)
      modifies this
      ensures user == Apply(otp, old(user), Regenerate(code, now, digests, saved, renewed))
      ensures ok <==>
        && old(user).enabled && old(user).secret.Some? && saved && renewed
        && Proves(otp, old(user), code, now)
      ensures !(old(user).enabled && saved) ==> user == old(user)
      ensures !ok && old(user).enabled && saved ==> UsesUp(otp, old(user), code, now, user)
      ensures ok ==> exists after :: UsesUp(otp, old(user), code, now, after) && user == after.(recovery := digests)
    {
      if !HasTwoFactor(user) {
        return false;
      }
      var check := VerifySecondFactor(code, now, saved);
      if check == Refused || !renewed {
        return false;
      }
      user := user.(recovery := digests);
      return true;
    }
  }

  // ---- Runs ----

  type History = Run<Event>

  function State(otp: Otp, h: History): User {
    match h
    case Start => NO_FACTOR
    case Then(past, event) => Apply(otp, State(otp, past), event)
  }

  /** The event took the secret away or replaced it. */
  predicate Clears(otp: Otp, u: User, event: Event) {
    Apply(otp, u, event).secret != u.secret || (event.Begin? && !HasTwoFactor(u) && event.saved)
      || ((event.Disable? || event.Reset?) && Apply(otp, u, event) == NO_FACTOR)
  }

  predicate Confirms(otp: Otp, u: User, event: Event) {
    event.Confirm? && Accepted(otp, u, event) != Refused
  }

  /** Since the secret was last set or removed, a code for it was confirmed. */
  predicate Confirmed(otp: Otp, h: History) {
    && h.Then?
    && (Confirms(otp, State(otp, h.past), h.step) ||
        (!Clears(otp, State(otp, h.past), h.step) && Confirmed(otp, h.past)))
  }

  /** A factor is required exactly when its secret has been confirmed. */
  lemma {:induction false} RequiredExactlyWhenConfirmed(otp: Otp, h: History)
    ensures HasTwoFactor(State(otp, h)) <==> Confirmed(otp, h)
  {
    if h.Then? {
      RequiredExactlyWhenConfirmed(otp, h.past);
    }
  }

  /** The step was accepted since the secret was last set or removed. */
  predicate StepAccepted(otp: Otp, h: History, step: int) {
    && h.Then?
    && !Clears(otp, State(otp, h.past), h.step)
    && (Accepted(otp, State(otp, h.past), h.step) == TimeStep(step) || StepAccepted(otp, h.past, step))
  }

  lemma {:induction false} LastStepIsHighest(otp: Otp, h: History, step: int)
    requires StepAccepted(otp, h, step)
    ensures HasTwoFactor(State(otp, h)) && step <= State(otp, h).lastStep
  {
    if StepAccepted(otp, h.past, step) {
      LastStepIsHighest(otp, h.past, step);
    }
  }

  /** From its confirmation on, a factor accepts only ever later steps, each within one step of the clock. */
  lemma AcceptedStepsIncrease(otp: Otp, h: History, event: Event, earlier: int)
    requires Accepted(otp, State(otp, h), event).TimeStep?
    ensures StepAccepted(otp, h, earlier) ==> earlier < Accepted(otp, State(otp, h), event).step
    ensures Counter(event.now) - 1 <= Accepted(otp, State(otp, h), event).step <= Counter(event.now) + 1
  {
    MatchedStepIsNear(otp, State(otp, h).secret.value, event.code, event.now, 0);
    MatchedStepIsNear(otp, State(otp, h).secret.value, TrimSpace(event.code), event.now, 0);
    if StepAccepted(otp, h, earlier) {
      LastStepIsHighest(otp, h, earlier);
    }
  }

  /** The event put a new set of recovery codes in place, or took them all away. */
  predicate NewSet(otp: Otp, u: User, event: Event) {
    || Clears(otp, u, event) || Confirms(otp, u, event)
    || (event.Regenerate? && event.renewed && Accepted(otp, u, event) != Refused)
  }

  /** The digest was accepted since the current set was generated. */
  predicate DigestAccepted(otp: Otp, h: History, digest: string) {
    && h.Then?
    && !NewSet(otp, State(otp, h.past), h.step)
    && (Accepted(otp, State(otp, h.past), h.step) == Recovery(digest) || DigestAccepted(otp, h.past, digest))
  }

  lemma {:induction false} SpentDigestIsGone(otp: Otp, h: History, digest: string)
    requires DigestAccepted(otp, h, digest)
    ensures digest !in State(otp, h).recovery
  {
    var u, check := State(otp, h.past), Accepted(otp, State(otp, h.past), h.step);
    if check == Recovery(digest) {
      WithoutMembers(u.recovery, digest, digest);
    } else {
      SpentDigestIsGone(otp, h.past, digest);
      if check.Recovery? {
        WithoutMembers(u.recovery, check.digest, digest);
      }
    }
  }

  /** No recovery code of a set is accepted twice. */
  lemma RecoveryCodesAreSingleUse(otp: Otp, h: History, event: Event, digest: string)
    requires Accepted(otp, State(otp, h), event) == Recovery(digest)
    ensures digest in State(otp, h).recovery && !DigestAccepted(otp, h, digest)
  {
    if DigestAccepted(otp, h, digest) {
      SpentDigestIsGone(otp, h, digest);
    }
  }

  /** The digest is one of the set that was last put in place. */
  predicate InCurrentSet(otp: Otp, h: History, digest: string) {
    && h.Then?
    && if !NewSet(otp, State(otp, h.past), h.step) then InCurrentSet(otp, h.past, digest)
       else (h.step.Confirm? || h.step.Regenerate?) && digest in h.step.digests
  }

  /** The codes left are exactly those of the current set that were not accepted since. */
  lemma {:induction false} RecoveryExactly(otp: Otp, h: History, digest: string)
    ensures digest in State(otp, h).recovery <==> InCurrentSet(otp, h, digest) && !DigestAccepted(otp, h, digest)
  {
    if h.Then? {
      var u, check := State(otp, h.past), Accepted(otp, State(otp, h.past), h.step);
      RecoveryExactly(otp, h.past, digest);
      if check.Recovery? {
        WithoutMembers(u.recovery, check.digest, digest);
      }
    }
  }

  lemma {:induction false} LastStepAccepted(otp: Otp, h: History)
    requires HasTwoFactor(State(otp, h))
    ensures StepAccepted(otp, h, State(otp, h).lastStep)
  {
    if !Accepted(otp, State(otp, h.past), h.step).TimeStep? {
      LastStepAccepted(otp, h.past);
    }
  }

  ghost predicate LaterThanAll(otp: Otp, h: History, step: int) {
    forall earlier :: StepAccepted(otp, h, earlier) ==> earlier < step
  }

  /** The code of a later step than any accepted before, or an unspent code of the current set. */
  ghost predicate NeverUsed(otp: Otp, h: History, secret: string, code: string, now: int, check: Check) {
    var typed := TrimSpace(code);
    && typed != ""
    && match check
       case Refused => false
       case TimeStep(step) =>
         IsLatestCodeOf(otp, secret, typed, now, step) && LaterThanAll(otp, h, step)
       case Recovery(digest) =>
         && digest == otp.digest(typed) && (forall step :: !IsCodeOf(otp, secret, typed, now, step))
         && InCurrentSet(otp, h, digest) && !DigestAccepted(otp, h, digest)
  }

  /** In every run, a sign-in's code is accepted exactly as what it has never been used as. */
  lemma SignInExactly(otp: Otp, h: History, code: string, now: int, check: Check)
    requires HasTwoFactor(State(otp, h)) && check != Refused
    ensures Accepted(otp, State(otp, h), SignIn(code, now, true)) == check <==>
      NeverUsed(otp, h, State(otp, h).secret.value, code, now, check)
  {
    var u := State(otp, h);
    CheckedExactly(otp, u, code, now);
    assert Accepted(otp, u, SignIn(code, now, true)) == check <==> GoodAs(otp, u, code, now, check);
    match check
    case TimeStep(step) => LaterThanLast(otp, h, step);
    case Recovery(digest) => RecoveryExactly(otp, h, digest);
  }

  lemma LaterThanLast(otp: Otp, h: History, step: int)
    requires HasTwoFactor(State(otp, h))
    ensures State(otp, h).lastStep < step <==> LaterThanAll(otp, h, step)
  {
    var last := State(otp, h).lastStep;
    LastStepAccepted(otp, h);
    assert LaterThanAll(otp, h, step) && StepAccepted(otp, h, last) ==> last < step;
    forall earlier | StepAccepted(otp, h, earlier)
      ensures earlier <= last
    {
      LastStepIsHighest(otp, h, earlier);
    }
  }
}
