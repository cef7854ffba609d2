/**
 Which DNS names a signed server certificate carries, starting from a certificate
 signing request, and the check that ties a request to an ACME order.
 */
module Signing {
  import opened Text
  import opened San

  datatype Csr = Csr(commonName: string, names: Names)

  function PrimaryName(sans: seq<Entry>): string {
    var dns := ByKind(sans, Dns);
    if dns != [] then dns[0].value
    else if sans != [] then sans[0].value
    else ""
  }

  predicate AllValid(lib: Library, sans: seq<Entry>) {
    forall i :: 0 <= i < |sans| ==> Valid(lib, sans[i])
  }

  /** The common name that reaches the certificate: the CSR's own, or its first name. */
  function CertificateCommonName(csr: Csr): string {
    TrimSpace(if csr.commonName == "" then PrimaryName(Collected(csr.names)) else csr.commonName)
  }

  /**
   The DNS names of the certificate signed for a CSR under the server profile, with no
   overriding names, or None when the request is refused before the issuer is asked.
   */
  function SignedDnsNames(lib: Library, csr: Csr): Option<seq<string>> {
    var sans := Collected(csr.names);
    var cn := CertificateCommonName(csr);
    var folded := AddDns(sans, cn);
    if (csr.commonName == "" && sans == []) || !AllValid(lib, sans) then None
    else if cn == "" || |cn| > 64 then None
    else if folded == [] || !AllValid(lib, folded) then None
    else
      match NamesOf(lib, folded)
      case None => None
      case Some(names) => Some(names.dns)
  }

  // ---- The check against an order ----

  predicate Authorised(name: string, identifiers: seq<string>) {
    exists i :: 0 <= i < |identifiers| && EqualFold(name, identifiers[i])
  }

  /** A common name counts as a requested name only when it contains a dot. */
  predicate CommonNameCounts(csr: Csr) {
    '.' in TrimSpace(csr.commonName)
  }

  /** Every name asked for is one of the identifiers, there is at least one, and no other kind of name. */
  predicate CsrMatches(csr: Csr, identifiers: seq<string>) {
    && csr.names.ips == csr.names.emails == csr.names.uris == []
    && (forall i :: 0 <= i < |csr.names.dns| ==> Authorised(csr.names.dns[i], identifiers))
    && (CommonNameCounts(csr) ==> Authorised(TrimSpace(csr.commonName), identifiers))
    && (csr.names.dns != [] || CommonNameCounts(csr))
  }

  function LowerAll(names: seq<string>): set<string> {
    set i | 0 <= i < |names| :: Lower(names[i])
  }

  /** The check as the code makes it, on sets of lower-cased names. */
  predicate CsrMatchesAsSets(csr: Csr, identifiers: seq<string>) {
    var cn := Lower(TrimSpace(csr.commonName));
    var requested := LowerAll(csr.names.dns) + if '.' in cn then {cn} else {};
    && csr.names.ips == csr.names.emails == csr.names.uris == []
    && requested <= LowerAll(identifiers)
    && requested != {}
  }

  lemma AuthorisedAsSet(name: string, identifiers: seq<string>)
    ensures Authorised(name, identifiers) <==> Lower(name) in LowerAll(identifiers)
  {
    if Lower(name) in LowerAll(identifiers) {
      var i :| 0 <= i < |identifiers| && Lower(identifiers[i]) == Lower(name);
      assert EqualFold(name, identifiers[i]);
    }
  }

  lemma NamesAsSet(names: seq<string>, identifiers: seq<string>)
    ensures (forall i :: 0 <= i < |names| ==> Authorised(names[i], identifiers)) <==>
      LowerAll(names) <= LowerAll(identifiers)
    ensures names == [] <==> LowerAll(names) == {}
  {
    forall i | 0 <= i < |names|
      ensures Authorised(names[i], identifiers) <==> Lower(names[i]) in LowerAll(identifiers)
      ensures Lower(names[i]) in LowerAll(names)
    {
      AuthorisedAsSet(names[i], identifiers);
    }
    if names != [] {
      assert Lower(names[0]) in LowerAll(names);
    }
  }

  lemma MatchesAsSets(csr: Csr, identifiers: seq<string>)
    ensures CsrMatches(csr, identifiers) <==> CsrMatchesAsSets(csr, identifiers)
  {
    NamesAsSet(csr.names.dns, identifiers);
    AuthorisedAsSet(TrimSpace(csr.commonName), identifiers);
    LowerDots(TrimSpace(csr.commonName));
  }

  method LoweredSet(names: seq<string>) returns (lowered: set<string>)
    ensures lowered == LowerAll(names)
  {
    lowered := {};
    for n := 0 to |names|
      invariant lowered == set i | 0 <= i < n :: Lower(names[i])
    {
      lowered := lowered + {Lower(names[n])};
    }
  }

  method CheckCsrAgainstOrder(csr: Csr, identifiers: seq<string>) returns (ok: bool)
    ensures ok <==> CsrMatches(csr, identifiers)
  {
    var authorised := LoweredSet(identifiers);
    var requested := LoweredSet(csr.names.dns);
    var cn := Lower(TrimSpace(csr.commonName));
    if cn != "" && '.' in cn {
      requested := requested + {cn};
    }
    MatchesAsSets(csr, identifiers);
    if csr.names.ips != [] || csr.names.emails != [] || csr.names.uris != [] {
      return false;
    }
    ok := requested <= authorised && requested != {};
  }

  lemma LowerDots(s: string)
    ensures '.' in Lower(s) <==> '.' in s
  {
    if '.' in s {
      var i :| 0 <= i < |s| && s[i] == '.';
      assert Lower(s)[i] == '.';
    }
    if '.' in Lower(s) {
      var i :| 0 <= i < |s| && Lower(s)[i] == '.';
      assert s[i] == '.';
    }
  }

  // ---- What the check guarantees about the certificate ----

  /**
   A caller can see this before finalizing: the common name is absent, or was checked
   because it has a dot, or cannot become a DNS name, or is itself authorised.
   */
  predicate CommonNameCovered(csr: Csr, identifiers: seq<string>) {
    var cn := TrimSpace(csr.commonName);
    csr.commonName == "" || '.' in cn || !ValidDnsName(cn) || Authorised(cn, identifiers)
  }

  predicate AllAuthorised(names: seq<string>, identifiers: seq<string>) {
    forall i :: 0 <= i < |names| ==> Authorised(names[i], identifiers)
  }

  predicate DnsValuesAuthorised(sans: seq<Entry>, identifiers: seq<string>) {
    forall i :: 0 <= i < |sans| ==> sans[i].kind == Dns ==> Authorised(sans[i].value, identifiers)
  }

  lemma {:induction false} AddAllAuthorised(sans: seq<Entry>, values: seq<string>, identifiers: seq<string>)
    requires DnsValuesAuthorised(sans, identifiers) && AllAuthorised(values, identifiers)
    ensures DnsValuesAuthorised(AddAll(sans, Dns, values), identifiers)
    decreases values
  {
    if values != [] {
      assert forall i :: 0 <= i < |values[1..]| ==> values[1..][i] == values[i + 1];
      AddAllAuthorised(Add(sans, Entry(Dns, values[0])), values[1..], identifiers);
    }
  }

  lemma {:induction false} TextsAuthorised(lib: Library, sans: seq<Entry>, identifiers: seq<string>)
    requires AllParse(lib, sans)
    ensures AllAuthorised(TextsOfKind(lib, sans, Dns), identifiers) <==> DnsValuesAuthorised(sans, identifiers)
  {
    if sans != [] {
      TailParses(lib, sans);
      var head, rest := sans[0], sans[1..];
      TextsAuthorised(lib, rest, identifiers);
      DnsValuesSplit(sans, identifiers);
      if head.kind == Dns {
        AllAuthorisedSplit(head.value, TextsOfKind(lib, rest, Dns), identifiers);
      }
    }
  }

  lemma DnsValuesSplit(sans: seq<Entry>, identifiers: seq<string>)
    requires sans != []
    ensures DnsValuesAuthorised(sans, identifiers) <==>
      (sans[0].kind == Dns ==> Authorised(sans[0].value, identifiers)) && DnsValuesAuthorised(sans[1..], identifiers)
  {
    var rest := sans[1..];
    assert forall i :: 0 <= i < |rest| ==> rest[i] == sans[i + 1];
    forall i | 1 <= i < |sans| && sans[i].kind == Dns && DnsValuesAuthorised(rest, identifiers)
      ensures Authorised(sans[i].value, identifiers)
    {
      assert sans[i] == rest[i - 1];
    }
  }

  lemma AllAuthorisedSplit(first: string, rest: seq<string>, identifiers: seq<string>)
    ensures AllAuthorised([first] + rest, identifiers) <==>
      Authorised(first, identifiers) && AllAuthorised(rest, identifiers)
  {
    var all := [first] + rest;
    assert all[0] == first;
    assert forall i :: 0 <= i < |rest| ==> rest[i] == all[i + 1];
    if Authorised(first, identifiers) && AllAuthorised(rest, identifiers) {
      forall i | 0 <= i < |all|
        ensures Authorised(all[i], identifiers)
      {
        assert i > 0 ==> all[i] == rest[i - 1];
      }
    }
  }

  lemma {:induction false} HasDnsAuthorised(sans: seq<Entry>, name: string, identifiers: seq<string>)
    requires DnsValuesAuthorised(sans, identifiers) && Has(sans, Entry(Dns, name))
    ensures Authorised(name, identifiers)
  {
    DnsValuesSplit(sans, identifiers);
    if Same(sans[0], Entry(Dns, name)) {
      var i :| 0 <= i < |identifiers| && EqualFold(sans[0].value, identifiers[i]);
      assert EqualFold(name, identifiers[i]);
    } else {
      HasDnsAuthorised(sans[1..], name, identifiers);
    }
  }

  lemma AddDnsAuthorised(sans: seq<Entry>, name: string, identifiers: seq<string>)
    requires DnsValuesAuthorised(sans, identifiers) && name != ""
    ensures DnsValuesAuthorised(AddDns(sans, name), identifiers) <==>
      !ValidDnsName(name) || Authorised(name, identifiers)
  {
    var e, folded := Entry(Dns, name), AddDns(sans, name);
    if ValidDnsName(name) {
      if Has(sans, e) {
        HasDnsAuthorised(sans, name, identifiers);
      } else {
        assert folded[|sans|] == e;
        assert forall i :: 0 <= i < |sans| ==> folded[i] == sans[i];
      }
    }
  }

  lemma {:induction false} FirstOfKind(sans: seq<Entry>, k: Kind)
    ensures ByKind(sans, k) != [] ==> exists i :: 0 <= i < |sans| && sans[i] == ByKind(sans, k)[0] && sans[i].kind == k
    ensures ByKind(sans, k) == [] ==> forall i :: 0 <= i < |sans| ==> sans[i].kind != k
  {
    if sans != [] {
      assert forall i :: 0 <= i < |sans[1..]| ==> sans[1..][i] == sans[i + 1];
      FirstOfKind(sans[1..], k);
      if sans[0].kind != k {
        assert forall i :: 1 <= i < |sans| ==> sans[i] == sans[1..][i - 1];
      }
    }
  }

  lemma MatchedSansAuthorised(csr: Csr, identifiers: seq<string>)
    requires CsrMatches(csr, identifiers)
    ensures Collected(csr.names) == AddAll([], Dns, csr.names.dns)
    ensures DnsValuesAuthorised(Collected(csr.names), identifiers)
    ensures AllOfKind(Collected(csr.names), Dns)
  {
    AddAllAuthorised([], csr.names.dns, identifiers);
    var block := AddAllBlock([], Dns, csr.names.dns);
    assert [] + block == block;
  }

  lemma PrimaryNameAuthorised(csr: Csr, identifiers: seq<string>)
    requires CsrMatches(csr, identifiers) && PrimaryName(Collected(csr.names)) != ""
    ensures Authorised(PrimaryName(Collected(csr.names)), identifiers)
  {
    MatchedSansAuthorised(csr, identifiers);
    FirstOfKind(Collected(csr.names), Dns);
  }

  lemma FoldedNameAuthorised(lib: Library, csr: Csr, identifiers: seq<string>)
    requires CsrMatches(csr, identifiers) && SignedDnsNames(lib, csr).Some? && csr.commonName == ""
    ensures Authorised(CertificateCommonName(csr), identifiers)
  {
    var sans := Collected(csr.names);
    MatchedSansAuthorised(csr, identifiers);
    FirstOfKind(sans, Dns);
    PrimaryNameAuthorised(csr, identifiers);
    ValidDnsNameTrimmed(PrimaryName(sans));
  }

  lemma {:induction false} LastChar(s: string)
    requires s != "" && s[|s| - 1] != '.'
    ensures var parts := Split(s, '.');
      parts[|parts| - 1] != "" && parts[|parts| - 1][|parts[|parts| - 1]| - 1] == s[|s| - 1]
  {
    if |s| > 1 {
      LastChar(s[1..]);
    } else {
      assert s[1..] == "";
    }
  }

  /** Valid names carry no white space at their ends, so trimming one changes nothing. */
  lemma ValidDnsNameTrimmed(name: string)
    requires ValidDnsName(name)
    ensures TrimSpace(name) == name
  {
    if name != "" {
      var parts := Split(name, '.');
      if name[0] != '.' {
        assert parts[0][0] == name[0];
      }
      if name[|name| - 1] != '.' {
        LastChar(name);
        var c := name[|name| - 1];
        assert ValidLabelChar(c) || c == '*';
      }
    }
    TrimSpaceFixed(name);
  }

  /**
   The names on the certificate are among the order's identifiers exactly when the common
   name is covered: a common name without a dot is skipped by the check and still folded in.
   */
  lemma SignedNamesAuthorisedExactly(lib: Library, csr: Csr, identifiers: seq<string>)
    requires CsrMatches(csr, identifiers) && SignedDnsNames(lib, csr).Some?
    ensures AllAuthorised(SignedDnsNames(lib, csr).value, identifiers) <==> CommonNameCovered(csr, identifiers)
  {
    var sans, cn := Collected(csr.names), CertificateCommonName(csr);
    MatchedSansAuthorised(csr, identifiers);
    if csr.commonName == "" {
      FoldedNameAuthorised(lib, csr, identifiers);
    }
    AddDnsAuthorised(sans, cn, identifiers);
    TextsAuthorised(lib, AddDns(sans, cn), identifiers);
  }

  // ---- Which requests can be signed, and for which names ----

  /** The first name of a CSR: a DNS name if it has any, else an address, an email or a URI. */
  function FirstName(names: Names): string {
    if names.dns != [] then names.dns[0]
    else if names.ips != [] then names.ips[0]
    else if names.emails != [] then names.emails[0]
    else if names.uris != [] then names.uris[0]
    else ""
  }

  /** The common name, or without one the first name, trimmed. */
  function NameOnCertificate(csr: Csr): string {
    TrimSpace(if csr.commonName != "" then csr.commonName else FirstName(csr.names))
  }

  /** Each name of the list that is not a repetition is valid. */
  ghost predicate AllNew(values: seq<string>, valid: string -> bool) {
    forall i :: 0 <= i < |values| ==> SeenOrValid(values, i, valid)
  }

  ghost predicate SeenOrValid(values: seq<string>, i: nat, valid: string -> bool)
    requires i < |values|
  {
    SeenBefore(values, i) || valid(values[i])
  }

  ghost predicate NamesValid(lib: Library, names: Names) {
    && AllNew(names.dns, ValidDnsName)
    && AllNew(names.ips, text => text != "" && lib.ip(text).Some?)
    && AllNew(names.emails, text => text != "" && lib.email(text) && multiset(text)['@'] == 1)
    && AllNew(names.uris, text => text != "" && lib.uri(text).Some? && lib.absolute(text))
  }

  /**
   The CSRs that can be signed: every name is valid for its kind, the common name (or the first
   name) is neither blank nor longer than 64 characters, and it or something else is a name.
   */
  ghost predicate CanBeSigned(lib: Library, csr: Csr) {
    && NamesValid(lib, csr.names)
    && 1 <= |NameOnCertificate(csr)| <= 64
    && (csr.names == Names([], [], [], []) ==> ValidDnsName(NameOnCertificate(csr)))
  }

  /** The CSR's DNS names without repetitions, and the common name if it is a DNS name not among them. */
  function CarriedNames(csr: Csr): seq<string> {
    var cn := NameOnCertificate(csr);
    Distinct(csr.names.dns) + if ValidDnsName(cn) && !Mentions(csr.names.dns, cn) then [cn] else []
  }

  lemma {:induction false} DistinctValid(values: seq<string>, valid: string -> bool)
    ensures AllNew(values, valid) <==> forall i :: 0 <= i < |Distinct(values)| ==> valid(Distinct(values)[i])
  {
    if values != [] {
      var n := |values| - 1;
      var rest := values[..n];
      DistinctValid(rest, valid);
      AllNewSnoc(values, valid);
      if !SeenBefore(values, n) {
        assert Distinct(values)[|Distinct(rest)|] == values[n];
        assert forall i :: 0 <= i < |Distinct(rest)| ==> Distinct(values)[i] == Distinct(rest)[i];
      }
    }
  }

  lemma SeenInPrefix(values: seq<string>, n: nat, i: nat)
    requires i < n <= |values|
    ensures SeenBefore(values, i) <==> SeenBefore(values[..n], i)
  {
    var prefix := values[..n];
    assert prefix[i] == values[i];
    if SeenBefore(values, i) {
      var j :| 0 <= j < i && EqualFold(values[j], values[i]);
      assert EqualFold(prefix[j], prefix[i]);
    }
    if SeenBefore(prefix, i) {
      var j :| 0 <= j < i && EqualFold(prefix[j], prefix[i]);
      assert EqualFold(values[j], values[i]);
    }
  }

  lemma AllNewSnoc(values: seq<string>, valid: string -> bool)
    requires values != []
    ensures var n := |values| - 1;
      AllNew(values, valid) <==> AllNew(values[..n], valid) && SeenOrValid(values, n, valid)
  {
    var n := |values| - 1;
    var rest := values[..n];
    forall i | 0 <= i < n
      ensures SeenOrValid(values, i, valid) <==> SeenOrValid(rest, i, valid)
    {
      SeenInPrefix(values, n, i);
    }
  }

  lemma EntriesValid(lib: Library, k: Kind, values: seq<string>)
    ensures AllValid(lib, Entries(k, values)) <==>
      forall i :: 0 <= i < |values| ==> Valid(lib, Entry(k, values[i]))
  {
    assert forall i :: 0 <= i < |values| ==> Entries(k, values)[i] == Entry(k, values[i]);
  }

  lemma AllValidConcat(lib: Library, a: seq<Entry>, b: seq<Entry>)
    ensures AllValid(lib, a + b) <==> AllValid(lib, a) && AllValid(lib, b)
  {
    assert forall i :: 0 <= i < |a| ==> (a + b)[i] == a[i];
    assert forall i :: 0 <= i < |b| ==> (a + b)[|a| + i] == b[i];
  }

  lemma KindValid(lib: Library, k: Kind, values: seq<string>, valid: string -> bool)
    requires forall text :: Valid(lib, Entry(k, text)) <==> valid(text)
    ensures AllValid(lib, Entries(k, Distinct(values))) <==> AllNew(values, valid)
  {
    EntriesValid(lib, k, Distinct(values));
    DistinctValid(values, valid);
  }

  lemma BlankIsNoDnsName()
    ensures !ValidDnsName("")
  {
    assert Split("", '.') == [""] && Split("", '.')[0] == "";
  }

  lemma FourValid(lib: Library, d: seq<Entry>, i: seq<Entry>, e: seq<Entry>, u: seq<Entry>)
    ensures AllValid(lib, d + i + e + u) <==>
      AllValid(lib, d) && AllValid(lib, i) && AllValid(lib, e) && AllValid(lib, u)
  {
    AllValidConcat(lib, d + i + e, u);
    AllValidConcat(lib, d + i, e);
    AllValidConcat(lib, d, i);
  }

  lemma DnsValid(lib: Library, values: seq<string>)
    ensures AllValid(lib, Entries(Dns, Distinct(values))) <==> AllNew(values, ValidDnsName)
  {
    BlankIsNoDnsName();
    KindValid(lib, Dns, values, ValidDnsName);
  }

  lemma CollectedValid(lib: Library, names: Names)
    ensures AllValid(lib, Collected(names)) <==> NamesValid(lib, names)
  {
    CollectedExactly(names);
    FourValid(lib, Entries(Dns, Distinct(names.dns)), Entries(Ip, Distinct(names.ips)),
      Entries(Email, Distinct(names.emails)), Entries(Uri, Distinct(names.uris)));
    DnsValid(lib, names.dns);
    KindValid(lib, Ip, names.ips, text => text != "" && lib.ip(text).Some?);
    KindValid(lib, Email, names.emails, text => text != "" && lib.email(text) && multiset(text)['@'] == 1);
    KindValid(lib, Uri, names.uris, text => text != "" && lib.uri(text).Some? && lib.absolute(text));
  }

  lemma {:induction false} DistinctStarts(values: seq<string>)
    requires values != []
    ensures Distinct(values) != [] && Distinct(values)[0] == values[0]
  {
    var n := |values| - 1;
    if n > 0 {
      DistinctStarts(values[..n]);
    } else {
      assert values[..0] == [] && !SeenBefore(values, 0);
    }
  }

  lemma {:induction false} ByKindOfEntries(j: Kind, k: Kind, values: seq<string>)
    ensures ByKind(Entries(j, values), k) == if j == k then Entries(j, values) else []
  {
    if values != [] {
      ByKindOfEntries(j, k, values[1..]);
      assert Entries(j, values)[1..] == Entries(j, values[1..]);
      assert Entries(j, values) == [Entries(j, values)[0]] + Entries(j, values[1..]);
    }
  }

  lemma DnsOfCollected(names: Names)
    ensures ByKind(Collected(names), Dns) == Entries(Dns, Distinct(names.dns))
  {
    var d, i := Entries(Dns, Distinct(names.dns)), Entries(Ip, Distinct(names.ips));
    var e, u := Entries(Email, Distinct(names.emails)), Entries(Uri, Distinct(names.uris));
    CollectedExactly(names);
    ByKindConcat(d + i + e, u, Dns);
    ByKindConcat(d + i, e, Dns);
    ByKindConcat(d, i, Dns);
    ByKindOfEntries(Dns, Dns, Distinct(names.dns));
    ByKindOfEntries(Ip, Dns, Distinct(names.ips));
    ByKindOfEntries(Email, Dns, Distinct(names.emails));
    ByKindOfEntries(Uri, Dns, Distinct(names.uris));
  }

  lemma NonEmptyDistinct(values: seq<string>)
    ensures Distinct(values) == [] <==> values == []
  {
    if values != [] {
      DistinctStarts(values);
    }
  }

  lemma CollectedStarts(names: Names)
    ensures Collected(names) == [] <==> names == Names([], [], [], [])
    ensures names.dns == [] && Collected(names) != [] ==> Collected(names)[0].value == FirstName(names)
  {
    CollectedExactly(names);
    NonEmptyDistinct(names.dns);
    NonEmptyDistinct(names.ips);
    NonEmptyDistinct(names.emails);
    NonEmptyDistinct(names.uris);
    if names.ips != [] {
      DistinctStarts(names.ips);
    }
    if names.emails != [] {
      DistinctStarts(names.emails);
    }
    if names.uris != [] {
      DistinctStarts(names.uris);
    }
  }

  lemma PrimaryIsFirst(csr: Csr)
    ensures PrimaryName(Collected(csr.names)) == FirstName(csr.names)
    ensures CertificateCommonName(csr) == NameOnCertificate(csr)
  {
    DnsOfCollected(csr.names);
    CollectedStarts(csr.names);
    NonEmptyDistinct(csr.names.dns);
    if csr.names.dns != [] {
      DistinctStarts(csr.names.dns);
    }
  }

  lemma DnsIsCollected(names: Names, name: string)
    ensures Has(Collected(names), Entry(Dns, name)) <==> Mentions(names.dns, name)
  {
    ByKindSubset(Collected(names), Dns, Entry(Dns, name));
    DnsOfCollected(names);
    EntriesHave(Dns, Distinct(names.dns), Entry(Dns, name));
    DistinctMentions(names.dns, name);
  }

  lemma {:induction false} DnsTexts(lib: Library, sans: seq<Entry>)
    requires AllParse(lib, sans)
    ensures TextsOfKind(lib, sans, Dns) == Values(ByKind(sans, Dns))
  {
    if sans != [] {
      TailParses(lib, sans);
      DnsTexts(lib, sans[1..]);
      if sans[0].kind == Dns {
        assert ([sans[0]] + ByKind(sans[1..], Dns))[1..] == ByKind(sans[1..], Dns);
      }
    }
  }

  lemma {:induction false} ValuesOfEntries(k: Kind, values: seq<string>)
    ensures Values(Entries(k, values)) == values
  {
    if values != [] {
      ValuesOfEntries(k, values[1..]);
      assert Entries(k, values)[1..] == Entries(k, values[1..]);
    }
  }

  lemma ValidParses(lib: Library, sans: seq<Entry>)
    requires AllValid(lib, sans)
    ensures AllParse(lib, sans)
  {
    forall i | 0 <= i < |sans|
      ensures Canonical(lib, sans[i]).Some?
    {
      assert Valid(lib, sans[i]);
    }
  }

  lemma FoldedTexts(lib: Library, csr: Csr)
    requires AllValid(lib, AddDns(Collected(csr.names), NameOnCertificate(csr)))
    ensures var names := NamesOf(lib, AddDns(Collected(csr.names), NameOnCertificate(csr)));
      names.Some? && names.value.dns == CarriedNames(csr)
  {
    var cn, sans := NameOnCertificate(csr), Collected(csr.names);
    var folded, own := AddDns(sans, cn), Entries(Dns, Distinct(csr.names.dns));
    ValidParses(lib, folded);
    DnsTexts(lib, folded);
    DnsOfCollected(csr.names);
    DnsIsCollected(csr.names, cn);
    BlankIsNoDnsName();
    if folded == sans {
      ValuesOfEntries(Dns, Distinct(csr.names.dns));
    } else {
      ByKindConcat(sans, [Entry(Dns, cn)], Dns);
      assert [Entry(Dns, cn)][1..] == [] && ByKind([Entry(Dns, cn)], Dns) == [Entry(Dns, cn)];
      assert own + [Entry(Dns, cn)] == Entries(Dns, Distinct(csr.names.dns) + [cn]);
      ValuesOfEntries(Dns, Distinct(csr.names.dns) + [cn]);
    }
  }

  lemma FoldedValid(lib: Library, sans: seq<Entry>, cn: string)
    ensures AllValid(lib, AddDns(sans, cn)) <==> AllValid(lib, sans)
  {
    if AddDns(sans, cn) != sans {
      AllValidConcat(lib, sans, [Entry(Dns, cn)]);
    }
  }

  /**
   A CSR is signed exactly when it can be, and its certificate then carries its DNS names and the
   common name, each once.
   */
  lemma SignedExactly(lib: Library, csr: Csr)
    ensures SignedDnsNames(lib, csr) == if CanBeSigned(lib, csr) then Some(CarriedNames(csr)) else None
  {
    var cn, sans := NameOnCertificate(csr), Collected(csr.names);
    PrimaryIsFirst(csr);
    CollectedValid(lib, csr.names);
    CollectedStarts(csr.names);
    FoldedValid(lib, sans, cn);
    BlankIsNoDnsName();
    if AllValid(lib, sans) {
      FoldedTexts(lib, csr);
    }
    if csr.commonName == "" && sans == [] {
      assert cn == "";
    }
  }

  // ---- A request for two names ----

  /** A CSR with two DNS names and no common name. */
  function TwoNames(first: string, second: string): Csr {
    Csr("", Names([first, second], [], [], []))
  }

  lemma TwoNamesCollected(first: string, second: string)
    requires !EqualFold(first, second)
    ensures Collected(TwoNames(first, second).names) == [Entry(Dns, first), Entry(Dns, second)]
  {
    var one := [Entry(Dns, first)];
    assert Add([], Entry(Dns, first)) == one && one[1..] == [] && ["", second][1..] == [second];
    assert [first, second][1..] == [second] && [second][1..] == [];
    assert !Same(one[0], Entry(Dns, second)) && !Has(one[1..], Entry(Dns, second));
    assert !Has(one, Entry(Dns, second));
    assert AddAll(one, Dns, [second]) == AddAll(one + [Entry(Dns, second)], Dns, []);
  }

  lemma TwoTexts(lib: Library, first: string, second: string, k: Kind)
    ensures var sans := [Entry(Dns, first), Entry(Dns, second)];
      AllParse(lib, sans) && TextsOfKind(lib, sans, k) == if k == Dns then [first, second] else []
  {
    var sans := [Entry(Dns, first), Entry(Dns, second)];
    assert AllParse(lib, sans) && AllParse(lib, [Entry(Dns, second)]);
    assert sans[1..] == [Entry(Dns, second)] && [Entry(Dns, second)][1..] == [];
    assert TextsOfKind(lib, [Entry(Dns, second)], k) == if k == Dns then [second] else [];
  }

  lemma TwoNamesPrinted(lib: Library, first: string, second: string)
    ensures NamesOf(lib, [Entry(Dns, first), Entry(Dns, second)]) == Some(Names([first, second], [], [], []))
  {
    TwoTexts(lib, first, second, Dns);
    TwoTexts(lib, first, second, Ip);
    TwoTexts(lib, first, second, Email);
    TwoTexts(lib, first, second, Uri);
  }

  /** Its certificate carries the two names. */
  lemma TwoNamesSigned(lib: Library, first: string, second: string)
    requires ValidDnsName(first) && ValidDnsName(second) && !EqualFold(first, second)
    requires TrimSpace(first) == first && first != "" && second != "" && |first| <= 64
    ensures SignedDnsNames(lib, TwoNames(first, second)) == Some([first, second])
  {
    var csr, sans := TwoNames(first, second), [Entry(Dns, first), Entry(Dns, second)];
    TwoNamesCollected(first, second);
    assert ByKind(sans, Dns) == [sans[0]] + ByKind(sans[1..], Dns);
    assert CertificateCommonName(csr) == first;
    assert Same(sans[0], Entry(Dns, first)) && Has(sans, Entry(Dns, first));
    assert AllValid(lib, sans);
    TwoNamesPrinted(lib, first, second);
  }

  lemma TwoNamesMatch(first: string, second: string)
    ensures CsrMatches(TwoNames(first, second), [first, second])
  {
    var csr, names := TwoNames(first, second), [first, second];
    forall i | 0 <= i < |csr.names.dns|
      ensures Authorised(csr.names.dns[i], names)
    {
      assert EqualFold(csr.names.dns[i], names[i]);
    }
    assert TrimSpace(csr.commonName) == "";
  }
}
