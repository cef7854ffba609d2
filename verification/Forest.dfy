/** The forest of certificate authorities, over every run of the operations. */
module Forest {
  import opened Text
  import opened PkiTables

  // ---- Ancestors ----

  predicate SameParent(d: Db, e: Db, a: Id) {
    && (a in d.authorities <==> a in e.authorities)
    && (a in d.authorities ==> d.authorities[a].parent == e.authorities[a].parent)
  }

  lemma {:induction false} AncestorsOlder(d: Db, id: Id)
    ensures forall x :: x in Ancestors(d, id) ==> x < id
  {
    if Ancestors(d, id) != [] {
      AncestorsOlder(d, d.authorities[id].parent.value);
    }
  }

  /** An authority's ancestors depend only on it and on them. */
  lemma {:induction false} AncestorsFramed(d: Db, e: Db, id: Id)
    requires SameParent(d, e, id) && forall x :: x in Ancestors(d, id) ==> SameParent(d, e, x)
    ensures Ancestors(e, id) == Ancestors(d, id)
  {
    if Ancestors(d, id) != [] {
      AncestorsFramed(d, e, d.authorities[id].parent.value);
    }
  }

  // ---- The invariant ----

  predicate Rooted(d: Db) {
    && (forall a :: a in d.authorities ==> a < d.next && ParentStored(d, a))
    && (forall c :: c in d.certificates ==> c < d.next && d.certificates[c].authority in d.authorities)
  }

  predicate ParentStored(d: Db, a: Id)
    requires a in d.authorities
  {
    match d.authorities[a].parent
    case None => true
    case Some(p) => p in d.authorities && p < a
  }

  /** Nothing outlives its issuer. */
  predicate Nested(d: Db) {
    && (forall a :: a in d.authorities ==> WithinParent(d, a))
    && (forall c :: c in d.certificates ==> WithinIssuer(d, c))
  }

  predicate WithinParent(d: Db, a: Id)
    requires a in d.authorities
  {
    match d.authorities[a].parent
    case None => true
    case Some(p) => p in d.authorities ==> d.authorities[a].notAfter <= d.authorities[p].notAfter
  }

  predicate WithinIssuer(d: Db, c: Id)
    requires c in d.certificates
  {
    var issuer := d.certificates[c].authority;
    issuer in d.authorities ==> d.certificates[c].notAfter <= d.authorities[issuer].notAfter
  }

  predicate Shallow(d: Db) {
    forall a :: a in d.authorities ==> |Ancestors(d, a)| <= CHAIN_LIMIT
  }

  /** An authority too deep to load has never signed anything. */
  predicate DeepIsBarren(d: Db) {
    forall a :: a in d.authorities && |Ancestors(d, a)| >= CHAIN_LIMIT ==> !HasChild(d, a) && !HasCertificate(d, a)
  }

  predicate Inv(d: Db) {
    Rooted(d) && Nested(d) && Shallow(d) && DeepIsBarren(d)
  }

  lemma ParentKept(warnDays: int, d: Db, step: Step, a: Id)
    requires Rooted(d) && Enabled(d, step) && a in Apply(warnDays, d, step).authorities
    ensures a < Apply(warnDays, d, step).next && ParentStored(Apply(warnDays, d, step), a)
  {
    if step.DeleteAuthority? {
      ParentOutlivesDeletion(d, step, a);
    } else {
      assert a in d.authorities ==> ParentStored(d, a);
    }
  }

  lemma IssuerKept(warnDays: int, d: Db, step: Step, c: Id)
    requires Rooted(d) && Enabled(d, step) && c in Apply(warnDays, d, step).certificates
    ensures var e := Apply(warnDays, d, step); c < e.next && e.certificates[c].authority in e.authorities
  {
    if step.DeleteAuthority? && !step.force {
      assert HasCertificate(d, d.certificates[c].authority);
    } else if step.DeleteAuthority? {
      IssuerOutlivesDeletion(d, step.id, c);
    }
  }

  lemma IssuerOutlivesDeletion(d: Db, id: Id, c: Id)
    requires Rooted(d) && id in d.authorities && c in Felled(d, id).certificates
    requires forall a :: a in d.authorities && d.authorities[a].parent == Some(id) ==> !HasCertificate(d, a)
    ensures d.certificates[c].authority in Felled(d, id).authorities
  {
    assert HasCertificate(d, d.certificates[c].authority);
  }

  lemma RootedKept(warnDays: int, d: Db, step: Step)
    requires Rooted(d) && Enabled(d, step)
    ensures Rooted(Apply(warnDays, d, step))
  {
    var e := Apply(warnDays, d, step);
    forall a | a in e.authorities
      ensures a < e.next && ParentStored(e, a)
    {
      ParentKept(warnDays, d, step, a);
    }
    forall c | c in e.certificates
      ensures c < e.next && e.certificates[c].authority in e.authorities
    {
      IssuerKept(warnDays, d, step, c);
    }
  }

  /** Whatever deletion leaves behind still has its parent. */
  lemma ParentOutlivesDeletion(d: Db, step: Step, a: Id)
    requires Rooted(d) && step.DeleteAuthority? && Enabled(d, step)
    requires a in Apply(0, d, step).authorities
    ensures ParentStored(Apply(0, d, step), a)
  {
    assert ParentStored(d, a);
    var parent := d.authorities[a].parent;
    if parent.Some? {
      assert HasChild(d, parent.value);
    }
  }

  lemma WithinParentKept(warnDays: int, d: Db, step: Step, a: Id)
    requires Rooted(d) && Nested(d) && Enabled(d, step) && a in Apply(warnDays, d, step).authorities
    ensures WithinParent(Apply(warnDays, d, step), a)
  {
    assert a in d.authorities ==> WithinParent(d, a) && ParentStored(d, a);
  }

  lemma WithinIssuerKept(warnDays: int, d: Db, step: Step, c: Id)
    requires Rooted(d) && Nested(d) && Enabled(d, step) && c in Apply(warnDays, d, step).certificates
    ensures WithinIssuer(Apply(warnDays, d, step), c)
  {
    assert c in d.certificates ==> WithinIssuer(d, c);
  }

  lemma NestedKept(warnDays: int, d: Db, step: Step)
    requires Rooted(d) && Nested(d) && Enabled(d, step)
    ensures Nested(Apply(warnDays, d, step))
  {
    var e := Apply(warnDays, d, step);
    forall a | a in e.authorities
      ensures WithinParent(e, a)
    {
      WithinParentKept(warnDays, d, step, a);
    }
    forall c | c in e.certificates
      ensures WithinIssuer(e, c)
    {
      WithinIssuerKept(warnDays, d, step, c);
    }
  }

  /** Authorities still stored keep their ancestors. */
  lemma AncestorsKept(warnDays: int, d: Db, step: Step, a: Id)
    requires Rooted(d) && Enabled(d, step) && a in d.authorities && a in Apply(warnDays, d, step).authorities
    ensures Ancestors(Apply(warnDays, d, step), a) == Ancestors(d, a)
  {
    var e := Apply(warnDays, d, step);
    AncestorsStored(d, a);
    if step.DeleteAuthority? {
      AncestorsOutliveDeletion(d, step, a);
    }
    AncestorsFramed(d, e, a);
  }

  lemma {:induction false} AncestorsStored(d: Db, a: Id)
    requires Rooted(d)
    ensures forall x :: x in Ancestors(d, a) ==> x in d.authorities
  {
    if Ancestors(d, a) != [] {
      assert ParentStored(d, a);
      AncestorsStored(d, d.authorities[a].parent.value);
    }
  }

  lemma {:induction false} AncestorsOutliveDeletion(d: Db, step: Step, a: Id)
    requires Rooted(d) && step.DeleteAuthority? && Enabled(d, step)
    requires a in Apply(0, d, step).authorities
    ensures forall x :: x in Ancestors(d, a) ==> x in Apply(0, d, step).authorities
  {
    if Ancestors(d, a) != [] {
      ParentOutlivesDeletion(d, step, a);
      AncestorsOutliveDeletion(d, step, d.authorities[a].parent.value);
    }
  }

  lemma NewAuthorityAncestors(warnDays: int, d: Db, step: Step)
    requires Rooted(d) && step.CreateAuthority? && Enabled(d, step)
    ensures Ancestors(Apply(warnDays, d, step), d.next) ==
      match step.authority.parent
      case None => []
      case Some(p) => [p] + Ancestors(d, p)
  {
    if step.authority.parent.Some? {
      AncestorsKept(warnDays, d, step, step.authority.parent.value);
    }
  }

  lemma ShallowKept(warnDays: int, d: Db, step: Step)
    requires Rooted(d) && Shallow(d) && Enabled(d, step)
    ensures Shallow(Apply(warnDays, d, step))
  {
    var e := Apply(warnDays, d, step);
    forall a | a in e.authorities
      ensures |Ancestors(e, a)| <= CHAIN_LIMIT
    {
      if a in d.authorities {
        AncestorsKept(warnDays, d, step, a);
      } else {
        NewAuthorityAncestors(warnDays, d, step);
      }
    }
  }

  lemma DeepIsBarrenKept(warnDays: int, d: Db, step: Step)
    requires Rooted(d) && DeepIsBarren(d) && Enabled(d, step)
    ensures DeepIsBarren(Apply(warnDays, d, step))
  {
    var e := Apply(warnDays, d, step);
    forall a | a in e.authorities && |Ancestors(e, a)| >= CHAIN_LIMIT
      ensures !HasChild(e, a) && !HasCertificate(e, a)
    {
      if a in d.authorities {
        AncestorsKept(warnDays, d, step, a);
        BarrenStays(warnDays, d, step, a);
      } else {
        NothingPointsAhead(d);
      }
    }
  }

  lemma BarrenStays(warnDays: int, d: Db, step: Step, a: Id)
    requires Rooted(d) && Enabled(d, step) && a in d.authorities && !Loads(d, a)
    requires !HasChild(d, a) && !HasCertificate(d, a)
    ensures !HasChild(Apply(warnDays, d, step), a) && !HasCertificate(Apply(warnDays, d, step), a)
  {
  }

  lemma NothingPointsAhead(d: Db)
    requires Rooted(d)
    ensures !HasChild(d, d.next) && !HasCertificate(d, d.next)
  {
  }

  lemma {:induction false} AlwaysInv(warnDays: int, h: History)
    requires Legal(warnDays, h)
    ensures Inv(State(warnDays, h))
  {
    if h.Then? {
      var d := State(warnDays, h.past);
      AlwaysInv(warnDays, h.past);
      RootedKept(warnDays, d, h.step);
      NestedKept(warnDays, d, h.step);
      ShallowKept(warnDays, d, h.step);
      DeepIsBarrenKept(warnDays, d, h.step);
    }
  }

  // ---- What holds of every stored authority ----

  /** Each ancestor issued the one before it, and the last is a root. */
  predicate IsChain(d: Db, id: Id, above: seq<Id>)
    decreases |above|
  {
    && id in d.authorities
    && if above == [] then d.authorities[id].parent == None
       else d.authorities[id].parent == Some(above[0]) && IsChain(d, above[0], above[1..])
  }

  lemma AncestorsStep(d: Db, id: Id)
    requires Rooted(d) && id in d.authorities
    ensures match d.authorities[id].parent
      case None => Ancestors(d, id) == []
      case Some(p) => p in d.authorities && Ancestors(d, id) == [p] + Ancestors(d, p)
  {
    assert ParentStored(d, id);
  }

  lemma {:induction false} AncestorsAreTheChain(d: Db, id: Id)
    requires Rooted(d) && id in d.authorities
    ensures IsChain(d, id, Ancestors(d, id))
  {
    assert ParentStored(d, id);
    if Ancestors(d, id) != [] {
      AncestorsAreTheChain(d, d.authorities[id].parent.value);
      assert Ancestors(d, id)[1..] == Ancestors(d, d.authorities[id].parent.value);
    }
  }

  /** There is no other way to walk from an authority to a root. */
  lemma {:induction false} ChainIsUnique(d: Db, id: Id, above: seq<Id>)
    requires Rooted(d) && IsChain(d, id, above)
    ensures above == Ancestors(d, id)
    decreases |above|
  {
    assert ParentStored(d, id);
    if above != [] {
      ChainIsUnique(d, above[0], above[1..]);
      assert above == [above[0]] + above[1..];
    }
  }

  lemma {:induction false} ExpiresFirst(d: Db, id: Id, x: Id)
    requires Rooted(d) && Nested(d) && id in d.authorities && x in Ancestors(d, id)
    ensures x in d.authorities && d.authorities[id].notAfter <= d.authorities[x].notAfter
  {
    assert ParentStored(d, id) && WithinParent(d, id);
    var parent := d.authorities[id].parent.value;
    if x != parent {
      ExpiresFirst(d, parent, x);
    }
  }

  /**
   In every reachable state, an authority's ancestors form a chain of stored issuers that
   ends in a root, does not come back to it, is at most sixteen long and expires no sooner.
   */
  lemma EveryAuthorityIsRooted(warnDays: int, h: History, id: Id)
    requires Legal(warnDays, h) && id in State(warnDays, h).authorities
    ensures var d := State(warnDays, h);
      && IsChain(d, id, Ancestors(d, id))
      && id !in Ancestors(d, id)
      && |Ancestors(d, id)| <= 16
      && forall x :: x in Ancestors(d, id) ==>
           x in d.authorities && d.authorities[id].notAfter <= d.authorities[x].notAfter
  {
    var d := State(warnDays, h);
    AlwaysInv(warnDays, h);
    AncestorsAreTheChain(d, id);
    AncestorsOlder(d, id);
    forall x | x in Ancestors(d, id)
      ensures x in d.authorities && d.authorities[id].notAfter <= d.authorities[x].notAfter
    {
      ExpiresFirst(d, id, x);
    }
  }

  /** Nor does a certificate outlive any authority above it. */
  lemma CertificateExpiresFirst(warnDays: int, h: History, c: Id, x: Id)
    requires Legal(warnDays, h) && c in State(warnDays, h).certificates
    requires var d := State(warnDays, h);
      x == d.certificates[c].authority || x in Ancestors(d, d.certificates[c].authority)
    ensures var d := State(warnDays, h); x in d.authorities && d.certificates[c].notAfter <= d.authorities[x].notAfter
  {
    AlwaysInv(warnDays, h);
    var d := State(warnDays, h);
    if x != d.certificates[c].authority {
      ExpiresFirst(d, d.certificates[c].authority, x);
    }
  }

  /** An authority with sixteen ancestors has never issued anything. */
  lemma DeepestNeverSigns(warnDays: int, h: History, id: Id)
    requires Legal(warnDays, h) && id in State(warnDays, h).authorities
    requires |Ancestors(State(warnDays, h), id)| == 16
    ensures !HasChild(State(warnDays, h), id) && !HasCertificate(State(warnDays, h), id)
  {
    AlwaysInv(warnDays, h);
  }

  /** The parent may have authorities below it. */
  predicate ParentMayHaveAuthorities(d: Db, a: Id)
    requires a in d.authorities
  {
    match d.authorities[a].parent
    case None => true
    case Some(p) => p in d.authorities ==> !d.authorities[p].pathLenZero
  }

  lemma ParentMayStill(warnDays: int, d: Db, step: Step, a: Id)
    requires Rooted(d) && Enabled(d, step) && a in Apply(warnDays, d, step).authorities
    requires a in d.authorities ==> ParentMayHaveAuthorities(d, a)
    ensures ParentMayHaveAuthorities(Apply(warnDays, d, step), a)
  {
    assert a in d.authorities ==> ParentStored(d, a);
  }

  lemma {:induction false} AlwaysMay(warnDays: int, h: History, a: Id)
    requires Legal(warnDays, h) && a in State(warnDays, h).authorities
    ensures ParentMayHaveAuthorities(State(warnDays, h), a)
  {
    var d := State(warnDays, h.past);
    AlwaysInv(warnDays, h.past);
    if a in d.authorities {
      AlwaysMay(warnDays, h.past, a);
    }
    ParentMayStill(warnDays, d, h.step, a);
  }

  /** In every reachable state, an authority of path length zero has no authority below it, at any remove. */
  lemma {:induction false} NoneBelowPathLengthZero(warnDays: int, h: History, id: Id, x: Id)
    requires Legal(warnDays, h) && id in State(warnDays, h).authorities && x in Ancestors(State(warnDays, h), id)
    ensures x in State(warnDays, h).authorities && !State(warnDays, h).authorities[x].pathLenZero
    decreases id
  {
    var d := State(warnDays, h);
    AlwaysInv(warnDays, h);
    AlwaysMay(warnDays, h, id);
    AncestorsStep(d, id);
    var parent := d.authorities[id].parent.value;
    if x != parent {
      NoneBelowPathLengthZero(warnDays, h, parent, x);
    }
  }
}
