/**
 Which names an ACME client may order (RFC 8555, section 7.1.3 and 7.4): the checks as the server
 makes them, one after another, and what they come to.
 */
module AcmeNames {
  import opened Text
  import San
  import opened NameConstraints

  const MAX_IDENTIFIERS := 100

  /** What does not change while the server runs. */
  datatype Env = Env(lib: San.Library, isIp: string -> bool, constraints: Constraints, http01: bool, dns01: bool)

  datatype Problem =
    | Malformed
    | RateLimited
    | UnsupportedIdentifier
    | RejectedIdentifier
    | ServerInternal
    | Unauthorized
    | OrderNotReady
    | BadCsr

  datatype Outcome<+T> = Ok(value: T) | Fail(problem: Problem)

  datatype Identifier = Identifier(kind: string, value: string)

  // ---- The checks ----

  predicate Unconstrained(c: Constraints) {
    c.permittedDns == [] && c.excludedDns == []
  }

  predicate WellPlacedWildcard(name: string) {
    multiset(name)['*'] <= 1 && ('*' in name ==> HasPrefix(name, "*."))
  }

  /**
   Why the server refuses an order for a name, for a credential limited to `allowed`; `ca`
   says whether the issuing CA could be read.
   */
  function IdentifierProblem(env: Env, allowed: seq<string>, ca: bool, name: string): Option<Problem> {
    if name == "" then Some(Malformed)
    else if env.isIp(TrimPrefix(name, "*.")) then Some(UnsupportedIdentifier)
    else if !WellPlacedWildcard(name) then Some(Malformed)
    else if allowed != [] && !PermitsDns(Constraints(allowed, []), name) then Some(RejectedIdentifier)
    else if !ca then Some(ServerInternal)
    else if !Unconstrained(env.constraints) && !PermitsDns(env.constraints, name) then Some(RejectedIdentifier)
    else None
  }

  predicate Accepts(env: Env, name: string) {
    IdentifierProblem(env, [], true, name) == None
  }

  function Names(requested: seq<Identifier>): seq<string> {
    if requested == [] then []
    else Names(requested[..|requested| - 1]) + [Lower(TrimSpace(requested[|requested| - 1].value))]
  }

  function RequestProblem(env: Env, allowed: seq<string>, ca: bool, identifier: Identifier): Option<Problem> {
    if identifier.kind != "dns" then Some(UnsupportedIdentifier)
    else IdentifierProblem(env, allowed, ca, Lower(TrimSpace(identifier.value)))
  }

  /** The first problem, in the order the names were given. */
  function FirstProblem(env: Env, allowed: seq<string>, ca: bool, requested: seq<Identifier>): Option<Problem> {
    if requested == [] then None
    else
      var earlier := FirstProblem(env, allowed, ca, requested[..|requested| - 1]);
      if earlier.Some? then earlier else RequestProblem(env, allowed, ca, requested[|requested| - 1])
  }

  predicate AllAccepted(env: Env, names: seq<string>) {
    forall i :: 0 <= i < |names| ==> Accepts(env, names[i])
  }

  lemma NextName(env: Env, allowed: seq<string>, ca: bool, requested: seq<Identifier>, i: nat)
    requires i < |requested| && FirstProblem(env, allowed, ca, requested[..i]) == None
    requires AllAccepted(env, Names(requested[..i]))
    ensures FirstProblem(env, allowed, ca, requested[..i + 1]) == RequestProblem(env, allowed, ca, requested[i])
    ensures Names(requested[..i + 1]) == Names(requested[..i]) + [Lower(TrimSpace(requested[i].value))]
    ensures RequestProblem(env, allowed, ca, requested[i]) == None ==> AllAccepted(env, Names(requested[..i + 1]))
  {
    assert requested[..i + 1][..i] == requested[..i];
    NoProblemBefore(env, allowed, ca, requested[..i], requested[i], requested[..i + 1]);
    OneMoreName(requested[..i], requested[i], requested[..i + 1]);
    if RequestProblem(env, allowed, ca, requested[i]) == None {
      RequestedIsAccepted(env, allowed, ca, requested[i]);
      OneMoreAccepted(env, Names(requested[..i]), Lower(TrimSpace(requested[i].value)));
    }
  }

  lemma OneMoreName(shorter: seq<Identifier>, last: Identifier, requested: seq<Identifier>)
    requires requested != [] && shorter == requested[..|requested| - 1] && last == requested[|requested| - 1]
    ensures Names(requested) == Names(shorter) + [Lower(TrimSpace(last.value))]
  {
  }

  /** What a limited credential may request, any may. */
  lemma RequestedIsAccepted(env: Env, allowed: seq<string>, ca: bool, identifier: Identifier)
    requires RequestProblem(env, allowed, ca, identifier) == None
    ensures Accepts(env, Lower(TrimSpace(identifier.value)))
  {
  }

  lemma OneMoreAccepted(env: Env, names: seq<string>, name: string)
    requires AllAccepted(env, names) && Accepts(env, name)
    ensures AllAccepted(env, names + [name])
  {
  }

  lemma {:induction false} FirstProblemStays(env: Env, allowed: seq<string>, ca: bool, requested: seq<Identifier>,
      n: nat)
    requires n <= |requested| && FirstProblem(env, allowed, ca, requested[..n]).Some?
    ensures FirstProblem(env, allowed, ca, requested) == FirstProblem(env, allowed, ca, requested[..n])
    decreases |requested|
  {
    if n == |requested| {
      assert requested[..n] == requested;
    } else {
      var shorter := requested[..|requested| - 1];
      assert shorter[..n] == requested[..n];
      FirstProblemStays(env, allowed, ca, shorter, n);
    }
  }

  // ---- What the checks come to ----

  /** A star stands only at the front, before a dot. */
  predicate StarsInFront(name: string) {
    forall i :: 0 <= i < |name| && name[i] == '*' ==> i == 0 && |name| >= 2 && name[1] == '.'
  }

  function WithoutStar(name: string): string {
    if |name| >= 2 && name[0] == '*' && name[1] == '.' then name[2..] else name
  }

  lemma {:induction false} StarCounted(s: string)
    ensures multiset(s)['*'] == 0 <==> '*' !in s
  {
  }

  lemma StarsInFrontExactly(name: string)
    ensures WellPlacedWildcard(name) <==> StarsInFront(name)
  {
    if '*' !in name {
      StarCounted(name);
    } else if HasPrefix(name, "*.") {
      var rest := name[1..];
      assert name[0] == "*."[0] && name[1] == "*."[1];
      assert name == ['*'] + rest;
      StarCounted(rest);
      assert forall j :: 0 <= j < |rest| ==> rest[j] == name[j + 1];
      assert WellPlacedWildcard(name) <==> '*' !in rest;
      if '*' in rest {
        var j :| 0 <= j < |rest| && rest[j] == '*';
        assert name[j + 1] == '*';
      }
    } else {
      if |name| >= 2 {
        assert name[..2] == [name[0], name[1]];
      }
    }
  }

  lemma WithoutStarIsTrimmed(name: string)
    ensures TrimPrefix(name, "*.") == WithoutStar(name)
  {
    if |name| >= 2 {
      assert name[..2] == [name[0], name[1]];
    }
  }

  /** Under no exclusion, and under some permission if there are any, label by label. */
  ghost predicate PermittedByLabels(c: Constraints, name: string) {
    && Canonical(name) != "" && !UnderSome(Canonical(name), c.excludedDns)
    && (c.permittedDns != [] ==> UnderSome(Canonical(name), c.permittedDns))
  }

  /** The credential's list, if it has one, has an entry the name lies under. */
  ghost predicate OnList(allowed: seq<string>, name: string) {
    allowed != [] ==> Canonical(name) != "" && UnderSome(Canonical(name), allowed)
  }

  ghost predicate WithinCa(env: Env, name: string) {
    env.constraints.permittedDns != [] || env.constraints.excludedDns != [] ==> PermittedByLabels(env.constraints, name)
  }

  /** The names a credential may order. */
  ghost predicate MayOrder(env: Env, allowed: seq<string>, ca: bool, name: string) {
    && name != "" && !env.isIp(WithoutStar(name)) && StarsInFront(name)
    && OnList(allowed, name) && ca && WithinCa(env, name)
  }

  /** The problem reported for a name is that of the first thing wrong with it. */
  ghost predicate RefusedWith(env: Env, allowed: seq<string>, ca: bool, name: string, problem: Problem) {
    && (name == "" ==> problem == Malformed)
    && (name != "" && env.isIp(WithoutStar(name)) ==> problem == UnsupportedIdentifier)
    && (name != "" && !env.isIp(WithoutStar(name)) ==>
        && (!StarsInFront(name) ==> problem == Malformed)
        && (StarsInFront(name) && !OnList(allowed, name) ==> problem == RejectedIdentifier)
        && (StarsInFront(name) && OnList(allowed, name) && !ca ==> problem == ServerInternal)
        && (StarsInFront(name) && OnList(allowed, name) && ca ==> problem == RejectedIdentifier))
  }

  /** A name passes the checks exactly when it may be ordered, and else gets the problem it should. */
  lemma MayOrderExactly(env: Env, allowed: seq<string>, ca: bool, name: string)
    ensures IdentifierProblem(env, allowed, ca, name) == None <==> MayOrder(env, allowed, ca, name)
    ensures var problem := IdentifierProblem(env, allowed, ca, name);
      problem.Some? ==> RefusedWith(env, allowed, ca, name, problem.value)
  {
    StarsInFrontExactly(name);
    WithoutStarIsTrimmed(name);
    PermitsByLabels(Constraints(allowed, []), name);
    PermitsByLabels(env.constraints, name);
  }

  function Cleaned(identifier: Identifier): string {
    Lower(TrimSpace(identifier.value))
  }

  ghost predicate MayRequest(env: Env, allowed: seq<string>, ca: bool, identifier: Identifier) {
    identifier.kind == "dns" && MayOrder(env, allowed, ca, Cleaned(identifier))
  }

  /** The identifiers before `i` may be requested and it may not, for the reason given. */
  ghost predicate RefusedAt(env: Env, allowed: seq<string>, ca: bool, requested: seq<Identifier>, i: int,
      problem: Problem)
  {
    && 0 <= i < |requested| && !MayRequest(env, allowed, ca, requested[i])
    && (forall j :: 0 <= j < i ==> MayRequest(env, allowed, ca, requested[j]))
    && if requested[i].kind != "dns" then problem == UnsupportedIdentifier
       else RefusedWith(env, allowed, ca, Cleaned(requested[i]), problem)
  }

  lemma MayRequestExactly(env: Env, allowed: seq<string>, ca: bool, identifier: Identifier)
    ensures RequestProblem(env, allowed, ca, identifier) == None <==> MayRequest(env, allowed, ca, identifier)
    ensures var problem := RequestProblem(env, allowed, ca, identifier);
      problem.Some? ==>
        if identifier.kind != "dns" then problem.value == UnsupportedIdentifier
        else RefusedWith(env, allowed, ca, Cleaned(identifier), problem.value)
  {
    MayOrderExactly(env, allowed, ca, Cleaned(identifier));
  }

  lemma NoProblemAt(env: Env, allowed: seq<string>, ca: bool, requested: seq<Identifier>, i: nat)
    requires i < |requested| && FirstProblem(env, allowed, ca, requested) == None
    ensures RequestProblem(env, allowed, ca, requested[i]) == None
  {
    NoProblemUpTo(env, allowed, ca, requested, i);
    NoProblemUpTo(env, allowed, ca, requested, i + 1);
    assert requested[..i + 1][..i] == requested[..i];
    NoProblemBefore(env, allowed, ca, requested[..i], requested[i], requested[..i + 1]);
  }

  lemma NoProblemUpTo(env: Env, allowed: seq<string>, ca: bool, requested: seq<Identifier>, n: nat)
    requires n <= |requested| && FirstProblem(env, allowed, ca, requested) == None
    ensures FirstProblem(env, allowed, ca, requested[..n]) == None
  {
    if FirstProblem(env, allowed, ca, requested[..n]).Some? {
      FirstProblemStays(env, allowed, ca, requested, n);
    }
  }

  lemma NoProblemBefore(env: Env, allowed: seq<string>, ca: bool, shorter: seq<Identifier>, last: Identifier,
      requested: seq<Identifier>)
    requires requested != [] && shorter == requested[..|requested| - 1] && last == requested[|requested| - 1]
    ensures FirstProblem(env, allowed, ca, requested) ==
      if FirstProblem(env, allowed, ca, shorter).Some? then FirstProblem(env, allowed, ca, shorter)
      else RequestProblem(env, allowed, ca, last)
  {
  }

  lemma {:induction false} ProblemAt(env: Env, allowed: seq<string>, ca: bool, requested: seq<Identifier>)
    returns (i: nat)
    requires FirstProblem(env, allowed, ca, requested).Some?
    ensures i < |requested|
    ensures RequestProblem(env, allowed, ca, requested[i]) == FirstProblem(env, allowed, ca, requested)
    ensures FirstProblem(env, allowed, ca, requested[..i]) == None
  {
    var n := |requested| - 1;
    var shorter := requested[..n];
    if FirstProblem(env, allowed, ca, shorter).Some? {
      i := ProblemAt(env, allowed, ca, shorter);
      assert shorter[i] == requested[i] && shorter[..i] == requested[..i];
    } else {
      i := n;
    }
  }

  /** Every identifier passes, or the first that does not is refused for what is wrong with it. */
  lemma FirstProblemExactly(env: Env, allowed: seq<string>, ca: bool, requested: seq<Identifier>)
    ensures FirstProblem(env, allowed, ca, requested) == None <==> AllRequestable(env, allowed, ca, requested)
    ensures var problem := FirstProblem(env, allowed, ca, requested);
      problem.Some? ==> Refused(env, allowed, ca, requested, problem.value)
  {
    if FirstProblem(env, allowed, ca, requested) == None {
      forall i | 0 <= i < |requested|
        ensures MayRequest(env, allowed, ca, requested[i])
      {
        NoProblemAt(env, allowed, ca, requested, i);
        MayRequestExactly(env, allowed, ca, requested[i]);
      }
    } else {
      var i := ProblemAt(env, allowed, ca, requested);
      MayRequestExactly(env, allowed, ca, requested[i]);
      forall j | 0 <= j < i
        ensures MayRequest(env, allowed, ca, requested[j])
      {
        NoProblemAt(env, allowed, ca, requested[..i], j);
        MayRequestExactly(env, allowed, ca, requested[j]);
      }
      assert RefusedAt(env, allowed, ca, requested, i, FirstProblem(env, allowed, ca, requested).value);
    }
  }

  ghost predicate AllRequestable(env: Env, allowed: seq<string>, ca: bool, requested: seq<Identifier>) {
    forall i :: 0 <= i < |requested| ==> MayRequest(env, allowed, ca, requested[i])
  }

  ghost predicate Refused(env: Env, allowed: seq<string>, ca: bool, requested: seq<Identifier>, problem: Problem) {
    exists i :: RefusedAt(env, allowed, ca, requested, i, problem)
  }

  lemma {:induction false} NamesCounted(requested: seq<Identifier>)
    ensures |Names(requested)| == |requested|
  {
    if requested != [] {
      NamesCounted(requested[..|requested| - 1]);
    }
  }

  lemma {:induction false} NameAt(requested: seq<Identifier>, i: nat)
    requires i < |requested|
    ensures i < |Names(requested)| && Names(requested)[i] == Cleaned(requested[i])
  {
    var n := |requested| - 1;
    var shorter := requested[..n];
    NamesCounted(shorter);
    if i < n {
      NameAt(shorter, i);
      assert shorter[i] == requested[i];
    }
  }

  lemma NamesExactly(requested: seq<Identifier>)
    ensures |Names(requested)| == |requested|
    ensures forall i :: 0 <= i < |requested| ==> Names(requested)[i] == Cleaned(requested[i])
  {
    NamesCounted(requested);
    forall i | 0 <= i < |requested|
      ensures Names(requested)[i] == Cleaned(requested[i])
    {
      NameAt(requested, i);
    }
  }
}
