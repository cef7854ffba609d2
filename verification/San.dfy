/**
 Subject Alternative Names: parsing and printing one entry, the duplicate-free set, and
 the fan-out into four typed lists that a certificate carries and back again.
 */
module San {
  import opened Text

  datatype Kind = Dns | Ip | Email | Uri | Other(name: string)

  datatype Entry = Entry(kind: Kind, value: string)

  /**
   The library parsers, left abstract. `ip` and `uri` give the canonical text of what
   was parsed, which is what printing it again produces.
   */
  datatype Library = Library(ip: string -> Option<string>, email: string -> bool, uri: string -> Option<string>,
    absolute: string -> bool)

  function KindName(k: Kind): string {
    match k
    case Dns => "dns"
    case Ip => "ip"
    case Email => "email"
    case Uri => "uri"
    case Other(name) => name
  }

  function Print(e: Entry): string {
    KindName(e.kind) + ":" + e.value
  }

  // ---- DNS names ----

  predicate ValidLabelChar(c: char) {
    'a' <= c <= 'z' || 'A' <= c <= 'Z' || '0' <= c <= '9' || c == '-' || c == '_'
  }

  predicate ValidLabel(part: string) {
    && 0 < |part| <= 63
    && part[0] != '-' && part[|part| - 1] != '-'
    && forall i :: 0 <= i < |part| ==> ValidLabelChar(part[i])
  }

  /** At most one wildcard, as the whole leftmost label, with two more labels under it. */
  predicate ValidDnsName(name: string) {
    var labels := Split(name, '.');
    && |name| <= 253
    && forall i :: 0 <= i < |labels| ==>
      ValidLabel(labels[i]) || (i == 0 && labels[0] == "*" && |labels| >= 3)
  }

  predicate IsLabel(part: string) {
    && 1 <= |part| <= 63 && part[0] != '-' && part[|part| - 1] != '-'
    && forall i :: 0 <= i < |part| ==> IsLabelChar(part[i])
  }

  /** A letter, a digit, a dash or an underscore. */
  predicate IsLabelChar(c: char) {
    c in "-_" || 0 <= c as int - 48 < 10 || 0 <= c as int - 65 < 26 || 0 <= c as int - 97 < 26
  }

  /** The text is these labels with dots between them; a star may be the first of three or more. */
  predicate IsDnsName(name: string, labels: seq<string>) {
    && |name| <= 253 && |labels| >= 1 && name == Join(labels, '.')
    && forall i :: 0 <= i < |labels| ==> IsLabel(labels[i]) || (i == 0 && labels[0] == "*" && |labels| >= 3)
  }

  lemma LabelExactly(part: string)
    ensures ValidLabel(part) <==> IsLabel(part)
    ensures IsLabel(part) ==> '.' !in part
  {
    assert forall i :: 0 <= i < |part| ==> (ValidLabelChar(part[i]) <==> IsLabelChar(part[i]));
  }

  /** A name is valid exactly when it is made of labels as RFC 1035 allows them, and underscores. */
  lemma ValidDnsNameExactly(name: string)
    ensures ValidDnsName(name) <==> exists labels :: IsDnsName(name, labels)
  {
    SplitJoins(name, '.');
    forall part
      ensures ValidLabel(part) <==> IsLabel(part)
      ensures IsLabel(part) ==> '.' !in part
    {
      LabelExactly(part);
    }
    if ValidDnsName(name) {
      assert IsDnsName(name, Split(name, '.'));
    }
    if labels :| IsDnsName(name, labels) {
      JoinSplits(labels, '.');
    }
  }

  // ---- One entry ----

  predicate Valid(lib: Library, e: Entry) {
    e.value != "" &&
    match e.kind
    case Dns => ValidDnsName(e.value)
    case Ip => lib.ip(e.value).Some?
    case Email => lib.email(e.value) && multiset(e.value)['@'] == 1
    case Uri => lib.uri(e.value).Some? && lib.absolute(e.value)
    case Other(_) => false
  }

  function NamedKind(name: string): Option<Kind> {
    if name == "dns" then Some(Dns)
    else if name == "ip" then Some(Ip)
    else if name == "email" then Some(Email)
    else if name == "uri" then Some(Uri)
    else None
  }

  /** A leading "type:" label, in any case; "https://" and IPv6 text are left alone. */
  function SplitPrefix(value: string): Option<(Kind, string)> {
    var i := Index(value, ':');
    if i <= 0 then None
    else
      match NamedKind(Lower(value[..i]))
      case None => None
      case Some(kind) => Some((kind, value[i + 1..]))
  }

  function DetectKind(lib: Library, value: string): Kind {
    if lib.ip(value).Some? then Ip
    else if Contains(value, "://") then Uri
    else if '@' in value then Email
    else Dns
  }

  function ParseSan(lib: Library, raw: string): Option<Entry> {
    var value := TrimSpace(raw);
    if value == "" then None
    else
      var e := match SplitPrefix(value)
        case Some(p) => Entry(p.0, TrimSpace(p.1))
        case None => Entry(DetectKind(lib, value), value);
      if Valid(lib, e) then Some(e) else None
  }

  // ---- What a text is read as ----

  /** A label in any case comes first; without one the text speaks for itself. */
  function ReadAs(lib: Library, text: string): Entry {
    if Labelled(text, "dns") then Entry(Dns, TrimSpace(text[4..]))
    else if Labelled(text, "ip") then Entry(Ip, TrimSpace(text[3..]))
    else if Labelled(text, "email") then Entry(Email, TrimSpace(text[6..]))
    else if Labelled(text, "uri") then Entry(Uri, TrimSpace(text[4..]))
    else if lib.ip(text).Some? then Entry(Ip, text)
    else if exists i {:trigger text[i..i + 3]} :: 0 <= i <= |text| - 3 && text[i..i + 3] == "://" then Entry(Uri, text)
    else if exists i :: 0 <= i < |text| && text[i] == '@' then Entry(Email, text)
    else Entry(Dns, text)
  }

  /** The rule of each kind. */
  ghost predicate Meets(lib: Library, e: Entry) {
    || (e.kind == Dns && exists labels :: IsDnsName(e.value, labels))
    || (e.kind == Ip && e.value != "" && lib.ip(e.value).Some?)
    || (e.kind == Email && lib.email(e.value) && multiset(e.value)['@'] == 1)
    || (e.kind == Uri && e.value != "" && lib.uri(e.value).Some? && lib.absolute(e.value))
  }

  lemma EmptyIsNoName()
    ensures forall labels :: !IsDnsName("", labels)
  {
    forall labels | |labels| >= 1 && Join(labels, '.') == ""
      ensures labels == [""]
    {
    }
  }

  lemma ValidExactly(lib: Library, e: Entry)
    ensures Valid(lib, e) <==> Meets(lib, e)
  {
    ValidDnsNameExactly(e.value);
    EmptyIsNoName();
  }

  /** The name comes first, in any case, and then a colon. */
  predicate Labelled(text: string, name: string) {
    |name| < |text| && text[|name|] == ':' && Lower(text[..|name|]) == name
  }

  lemma LabelledBy(text: string, name: string)
    requires ':' !in name
    ensures Labelled(text, name) <==> Index(text, ':') == |name| && Lower(text[..|name|]) == name
  {
    if Labelled(text, name) {
      forall j | 0 <= j < |name|
        ensures text[j] != ':'
      {
        assert Lower(text[..|name|])[j] == name[j];
      }
    }
  }

  /** An entry is read from a text exactly when the trimmed text is read as it and it meets its rule. */
  lemma ParsedExactly(lib: Library, raw: string, e: Entry)
    ensures ParseSan(lib, raw) == Some(e) <==>
      TrimSpace(raw) != "" && e == ReadAs(lib, TrimSpace(raw)) && Meets(lib, e)
  {
    ReadExactly(lib, TrimSpace(raw));
    ValidExactly(lib, e);
  }

  lemma ReadExactly(lib: Library, text: string)
    ensures ReadAs(lib, text) == match SplitPrefix(text)
      case Some(p) => Entry(p.0, TrimSpace(p.1))
      case None => Entry(DetectKind(lib, text), text)
  {
    LabelledBy(text, "dns");
    LabelledBy(text, "ip");
    LabelledBy(text, "email");
    LabelledBy(text, "uri");
    ContainsExactly(text);
  }

  lemma ContainsExactly(text: string)
    ensures Contains(text, "://") <==>
      exists i {:trigger text[i..i + 3]} :: 0 <= i <= |text| - 3 && text[i..i + 3] == "://"
  {
    if i :| 0 <= i <= |text| && OccursAt(text, "://", i) {
      assert text[i..i + 3] == "://";
    }
    if i {:trigger text[i..i + 3]} :| 0 <= i <= |text| - 3 && text[i..i + 3] == "://" {
      assert OccursAt(text, "://", i);
    }
  }

  lemma IndexAfter(name: string, rest: string)
    requires ':' !in name
    ensures Index(name + ":" + rest, ':') == |name|
  {
    var s := name + ":" + rest;
    assert s[|name|] == ':';
    assert forall j :: 0 <= j < |name| ==> s[j] == name[j];
  }

  lemma PrefixOfPrinted(kind: Kind, value: string)
    requires !kind.Other?
    ensures SplitPrefix(KindName(kind) + ":" + value) == Some((kind, value))
  {
    var name := KindName(kind);
    IndexAfter(name, value);
    assert (name + ":" + value)[..|name|] == name;
    assert (name + ":" + value)[|name| + 1..] == value;
    assert Lower(name) == name;
  }

  lemma TrimPrinted(kind: Kind, value: string)
    requires !kind.Other?
    ensures Trimmed(KindName(kind) + ":" + value) <==> value == "" || !IsSpace(value[|value| - 1])
  {
    var s := KindName(kind) + ":" + value;
    assert s[0] == KindName(kind)[0];
    if value != "" {
      assert s[|s| - 1] == value[|value| - 1];
    }
  }

  /** Printing then parsing gives an entry back exactly when it is valid and trimmed. */
  lemma PrintedParsesBackExactly(lib: Library, e: Entry)
    requires !e.kind.Other?
    ensures ParseSan(lib, Print(e)) == Some(e) <==> Valid(lib, e) && Trimmed(e.value)
  {
    if Valid(lib, e) && Trimmed(e.value) {
      TrimPrinted(e.kind, e.value);
      TrimSpaceFixed(Print(e));
      PrefixOfPrinted(e.kind, e.value);
      TrimSpaceFixed(e.value);
    } else if ParseSan(lib, Print(e)) == Some(e) {
      ParsedIsValidAndTrimmed(lib, Print(e));
    }
  }

  lemma ParsedIsValidAndTrimmed(lib: Library, raw: string)
    requires ParseSan(lib, raw).Some?
    ensures var e := ParseSan(lib, raw).value;
      Valid(lib, e) && Trimmed(e.value) && !e.kind.Other?
  {
  }

  /** Whatever ParseSan accepts survives being printed and parsed again. */
  lemma RoundTrip(lib: Library, raw: string)
    requires ParseSan(lib, raw).Some?
    ensures ParseSan(lib, Print(ParseSan(lib, raw).value)) == ParseSan(lib, raw)
  {
    ParsedIsValidAndTrimmed(lib, raw);
    PrintedParsesBackExactly(lib, ParseSan(lib, raw).value);
  }

  // ---- The duplicate-free set ----

  predicate Same(a: Entry, b: Entry) {
    a.kind == b.kind && EqualFold(a.value, b.value)
  }

  predicate Has(sans: seq<Entry>, e: Entry) {
    sans != [] && (Same(sans[0], e) || Has(sans[1..], e))
  }

  predicate NoDuplicates(sans: seq<Entry>) {
    sans == [] || (!Has(sans[1..], sans[0]) && NoDuplicates(sans[1..]))
  }

  function Add(sans: seq<Entry>, e: Entry): seq<Entry> {
    if Has(sans, e) then sans else sans + [e]
  }

  function AddDns(sans: seq<Entry>, name: string): seq<Entry> {
    if name == "" || !ValidDnsName(name) then sans else Add(sans, Entry(Dns, name))
  }

  lemma {:induction false} HasConcat(a: seq<Entry>, b: seq<Entry>, e: Entry)
    ensures Has(a + b, e) <==> Has(a, e) || Has(b, e)
  {
    if a == [] {
      assert a + b == b;
    } else {
      assert (a + b)[1..] == a[1..] + b;
      HasConcat(a[1..], b, e);
    }
  }

  lemma HasOne(x: Entry, e: Entry)
    ensures Has([x], e) <==> Same(x, e)
  {
    assert [x][1..] == [];
  }

  lemma {:induction false} NoDuplicatesSnoc(sans: seq<Entry>, e: Entry)
    requires NoDuplicates(sans)
    ensures NoDuplicates(sans + [e]) <==> !Has(sans, e)
  {
    if sans == [] {
      assert sans + [e] == [e];
      assert [e][1..] == [];
    } else {
      assert (sans + [e])[1..] == sans[1..] + [e];
      HasConcat(sans[1..], [e], sans[0]);
      HasOne(e, sans[0]);
      NoDuplicatesSnoc(sans[1..], e);
    }
  }

  /** Add keeps a set free of entries equal up to case, and an equal entry is then present. */
  lemma AddKeepsSet(sans: seq<Entry>, e: Entry, other: Entry)
    requires NoDuplicates(sans)
    ensures NoDuplicates(Add(sans, e))
    ensures Has(Add(sans, e), other) <==> Has(sans, other) || Same(e, other)
  {
    NoDuplicatesSnoc(sans, e);
    HasConcat(sans, [e], other);
    HasOne(e, other);
    if Has(sans, e) && Same(e, other) {
      HasSame(sans, e, other);
    }
  }

  lemma {:induction false} HasSame(sans: seq<Entry>, a: Entry, b: Entry)
    requires Same(a, b)
    ensures Has(sans, a) <==> Has(sans, b)
  {
    if sans != [] {
      HasSame(sans[1..], a, b);
    }
  }

  // ---- Fanning out and collecting ----

  /** The text one entry becomes in the typed list of its kind. */
  function Canonical(lib: Library, e: Entry): Option<string> {
    match e.kind
    case Dns => Some(e.value)
    case Ip => lib.ip(e.value)
    case Email => Some(e.value)
    case Uri => lib.uri(e.value)
    case Other(_) => None
  }

  predicate AllParse(lib: Library, sans: seq<Entry>) {
    forall i :: 0 <= i < |sans| ==> Canonical(lib, sans[i]).Some?
  }

  function ByKind(sans: seq<Entry>, k: Kind): seq<Entry> {
    if sans == [] then []
    else if sans[0].kind == k then [sans[0]] + ByKind(sans[1..], k)
    else ByKind(sans[1..], k)
  }

  /** Adding a list of values of one kind, one by one. */
  function AddAll(sans: seq<Entry>, k: Kind, values: seq<string>): seq<Entry>
    decreases values
  {
    if values == [] then sans else AddAll(Add(sans, Entry(k, values[0])), k, values[1..])
  }

  /** The four typed lists of a certificate or a CSR. */
  datatype Names = Names(dns: seq<string>, ips: seq<string>, emails: seq<string>, uris: seq<string>)

  function NamesOf(lib: Library, sans: seq<Entry>): Option<Names> {
    if AllParse(lib, sans) then
      Some(Names(
        TextsOfKind(lib, sans, Dns), TextsOfKind(lib, sans, Ip),
        TextsOfKind(lib, sans, Email), TextsOfKind(lib, sans, Uri)))
    else None
  }

  function TextsOfKind(lib: Library, sans: seq<Entry>, k: Kind): seq<string>
    requires AllParse(lib, sans)
  {
    if sans == [] then []
    else
      TailParses(lib, sans);
      var rest := TextsOfKind(lib, sans[1..], k);
      if sans[0].kind == k then [Canonical(lib, sans[0]).value] + rest else rest
  }

  lemma TailParses(lib: Library, sans: seq<Entry>)
    requires AllParse(lib, sans) && sans != []
    ensures AllParse(lib, sans[1..])
  {
    assert forall i :: 0 <= i < |sans[1..]| ==> sans[1..][i] == sans[i + 1];
  }

  lemma TextsOfKindSnoc(lib: Library, sans: seq<Entry>, n: nat, k: Kind)
    requires n < |sans| && AllParse(lib, sans[..n + 1])
    ensures AllParse(lib, sans[..n])
    ensures Canonical(lib, sans[n]).Some?
    ensures TextsOfKind(lib, sans[..n + 1], k) ==
      TextsOfKind(lib, sans[..n], k) + (if sans[n].kind == k then [Canonical(lib, sans[n]).value] else [])
  {
    var longer, shorter := sans[..n + 1], sans[..n];
    assert longer[n] == sans[n];
    assert forall i :: 0 <= i < n ==> shorter[i] == longer[i];
    if n > 0 {
      assert longer[1..] == sans[1..][..n] && shorter[1..] == sans[1..][..n - 1];
      TailParses(lib, longer);
      TextsOfKindSnoc(lib, sans[1..], n - 1, k);
    }
  }

  method FanOut(lib: Library, sans: seq<Entry>) returns (names: Option<Names>)
    ensures names == NamesOf(lib, sans)
  {
    var dns, ips, emails, uris: seq<string> := [], [], [], [];
    for n := 0 to |sans|
      invariant AllParse(lib, sans[..n])
      invariant dns == TextsOfKind(lib, sans[..n], Dns) && ips == TextsOfKind(lib, sans[..n], Ip)
      invariant emails == TextsOfKind(lib, sans[..n], Email) && uris == TextsOfKind(lib, sans[..n], Uri)
    {
      var text := Canonical(lib, sans[n]);
      if text == None {
        return None;
      }
      assert AllParse(lib, sans[..n + 1]);
      TextsOfKindSnoc(lib, sans, n, Dns);
      TextsOfKindSnoc(lib, sans, n, Ip);
      TextsOfKindSnoc(lib, sans, n, Email);
      TextsOfKindSnoc(lib, sans, n, Uri);
      match sans[n].kind {
        case Dns => dns := dns + [text.value];
        case Ip => ips := ips + [text.value];
        case Email => emails := emails + [text.value];
        case Uri => uris := uris + [text.value];
      }
    }
    assert sans[..|sans|] == sans;
    return Some(Names(dns, ips, emails, uris));
  }

  /** SANsFromCertificateLike: the set read back from the four lists, in the order of the lists. */
  function Collected(names: Names): seq<Entry> {
    AddAll(AddAll(AddAll(AddAll([], Dns, names.dns), Ip, names.ips), Email, names.emails), Uri, names.uris)
  }

  // ---- What the collected set holds ----

  /** An equal name, up to case, stands earlier in the list. */
  predicate SeenBefore(values: seq<string>, n: int) {
    0 <= n < |values| && exists j :: 0 <= j < n && EqualFold(values[j], values[n])
  }

  predicate Mentions(values: seq<string>, value: string) {
    exists j :: 0 <= j < |values| && EqualFold(values[j], value)
  }

  /** The list without the names seen before, in order. */
  function Distinct(values: seq<string>): seq<string> {
    if values == [] then []
    else
      var n := |values| - 1;
      if SeenBefore(values, n) then Distinct(values[..n]) else Distinct(values[..n]) + [values[n]]
  }

  function Entries(k: Kind, values: seq<string>): (entries: seq<Entry>)
    ensures |entries| == |values|
  {
    seq(|values|, i requires 0 <= i < |values| => Entry(k, values[i]))
  }

  lemma {:induction false} AddAllSnoc(sans: seq<Entry>, k: Kind, values: seq<string>, value: string)
    ensures AddAll(sans, k, values + [value]) == Add(AddAll(sans, k, values), Entry(k, value))
    decreases values
  {
    if values == [] {
      assert values + [value] == [value] && [value][1..] == [];
    } else {
      assert (values + [value])[1..] == values[1..] + [value];
      AddAllSnoc(Add(sans, Entry(k, values[0])), k, values[1..], value);
    }
  }

  /** Some entry of the set is the same. */
  lemma {:induction false} HasIsSome(sans: seq<Entry>, e: Entry)
    ensures Has(sans, e) <==> exists i :: 0 <= i < |sans| && Same(sans[i], e)
  {
    if sans != [] {
      HasIsSome(sans[1..], e);
      assert forall i :: 1 <= i < |sans| ==> sans[i] == sans[1..][i - 1];
      assert forall i :: 0 <= i < |sans[1..]| ==> sans[1..][i] == sans[i + 1];
    }
  }

  lemma {:induction false} DistinctMentions(values: seq<string>, value: string)
    ensures Mentions(Distinct(values), value) <==> Mentions(values, value)
  {
    if values != [] {
      var n := |values| - 1;
      var rest := values[..n];
      DistinctMentions(rest, value);
      MentionsSnoc(rest, values[n], value);
      MentionsSnoc(Distinct(rest), values[n], value);
      assert values == rest + [values[n]];
      if SeenBefore(values, n) && EqualFold(values[n], value) {
        var j :| 0 <= j < n && EqualFold(values[j], values[n]);
        assert EqualFold(rest[j], value);
      }
    }
  }

  lemma MentionsSnoc(values: seq<string>, last: string, value: string)
    ensures Mentions(values + [last], value) <==> Mentions(values, value) || EqualFold(last, value)
  {
    var all := values + [last];
    assert all[|values|] == last;
    assert forall j :: 0 <= j < |values| ==> all[j] == values[j];
  }

  lemma EntriesHave(k: Kind, values: seq<string>, e: Entry)
    ensures Has(Entries(k, values), e) <==> e.kind == k && Mentions(values, e.value)
  {
    HasIsSome(Entries(k, values), e);
    if e.kind == k && Mentions(values, e.value) {
      var j :| 0 <= j < |values| && EqualFold(values[j], e.value);
      assert Same(Entries(k, values)[j], e);
    }
  }

  /** Adding a list of a new kind appends its distinct names. */
  lemma {:induction false} AddAllDistinct(sans: seq<Entry>, k: Kind, values: seq<string>)
    requires forall e: Entry :: e.kind == k ==> !Has(sans, e)
    ensures AddAll(sans, k, values) == sans + Entries(k, Distinct(values))
  {
    if values == [] {
      assert sans + Entries(k, []) == sans;
    } else {
      var n := |values| - 1;
      var rest, e := values[..n], Entry(k, values[n]);
      AddAllDistinct(sans, k, rest);
      assert values == rest + [values[n]];
      AddAllSnoc(sans, k, rest, values[n]);
      HasConcat(sans, Entries(k, Distinct(rest)), e);
      EntriesHave(k, Distinct(rest), e);
      DistinctMentions(rest, values[n]);
      SeenIsMentioned(values, n);
      if !SeenBefore(values, n) {
        assert Entries(k, Distinct(rest) + [values[n]]) == Entries(k, Distinct(rest)) + [e];
        assert sans + Entries(k, Distinct(rest)) + [e] == sans + (Entries(k, Distinct(rest)) + [e]);
      }
    }
  }

  lemma SeenIsMentioned(values: seq<string>, n: nat)
    requires n < |values|
    ensures SeenBefore(values, n) <==> Mentions(values[..n], values[n])
  {
    if SeenBefore(values, n) {
      var j :| 0 <= j < n && EqualFold(values[j], values[n]);
      assert EqualFold(values[..n][j], values[n]);
    }
  }

  lemma OtherKindsAbsent(sans: seq<Entry>, more: seq<Entry>, j: Kind, k: Kind, values: seq<string>)
    requires j != k && more == Entries(j, values) && forall e: Entry :: e.kind == k ==> !Has(sans, e)
    ensures forall e: Entry :: e.kind == k ==> !Has(sans + more, e)
  {
    forall e: Entry | e.kind == k
      ensures !Has(sans + more, e)
    {
      HasConcat(sans, more, e);
      EntriesHave(j, values, e);
    }
  }

  /** The set read back holds each list's distinct names, in the order of the lists. */
  lemma CollectedExactly(names: Names)
    ensures Collected(names) == Entries(Dns, Distinct(names.dns)) + Entries(Ip, Distinct(names.ips))
      + Entries(Email, Distinct(names.emails)) + Entries(Uri, Distinct(names.uris))
  {
    var d, i := Entries(Dns, Distinct(names.dns)), Entries(Ip, Distinct(names.ips));
    var e := Entries(Email, Distinct(names.emails));
    assert [] + d == d;
    AddAllDistinct([], Dns, names.dns);
    OtherKindsAbsent([], d, Dns, Ip, Distinct(names.dns));
    OtherKindsAbsent([], d, Dns, Email, Distinct(names.dns));
    OtherKindsAbsent([], d, Dns, Uri, Distinct(names.dns));
    AddAllDistinct(d, Ip, names.ips);
    OtherKindsAbsent(d, i, Ip, Email, Distinct(names.ips));
    OtherKindsAbsent(d, i, Ip, Uri, Distinct(names.ips));
    AddAllDistinct(d + i, Email, names.emails);
    OtherKindsAbsent(d + i, e, Email, Uri, Distinct(names.emails));
    AddAllDistinct(d + i + e, Uri, names.uris);
  }

  method AddEach(sans: seq<Entry>, k: Kind, values: seq<string>) returns (r: seq<Entry>)
    ensures r == AddAll(sans, k, values)
  {
    r := sans;
    for n := 0 to |values|
      invariant AddAll(r, k, values[n..]) == AddAll(sans, k, values)
    {
      assert values[n..][1..] == values[n + 1..];
      r := Add(r, Entry(k, values[n]));
    }
  }

  method Collect(names: Names) returns (sans: seq<Entry>)
    ensures sans == Collected(names)
  {
    sans := AddEach([], Dns, names.dns);
    sans := AddEach(sans, Ip, names.ips);
    sans := AddEach(sans, Email, names.emails);
    sans := AddEach(sans, Uri, names.uris);
  }

  /** A certificate's view of a set: fanned out and collected again. */
  function Regrouped(lib: Library, sans: seq<Entry>): Option<seq<Entry>> {
    match NamesOf(lib, sans)
    case None => None
    case Some(names) => Some(Collected(names))
  }

  /** A stable sort by kind: each kind's entries in their order. */
  function Grouped(sans: seq<Entry>): seq<Entry> {
    ByKind(sans, Dns) + ByKind(sans, Ip) + ByKind(sans, Email) + ByKind(sans, Uri)
  }

  predicate CanonicalTexts(lib: Library, sans: seq<Entry>) {
    forall i :: 0 <= i < |sans| ==> Canonical(lib, sans[i]) == Some(sans[i].value)
  }

  predicate AllOfKind(sans: seq<Entry>, k: Kind) {
    forall i :: 0 <= i < |sans| ==> sans[i].kind == k
  }

  function Values(sans: seq<Entry>): seq<string> {
    if sans == [] then [] else [sans[0].value] + Values(sans[1..])
  }

  lemma {:induction false} TextsAreValues(lib: Library, sans: seq<Entry>, k: Kind)
    requires CanonicalTexts(lib, sans)
    ensures AllParse(lib, sans) && TextsOfKind(lib, sans, k) == Values(ByKind(sans, k))
    ensures AllOfKind(ByKind(sans, k), k)
  {
    if sans != [] {
      assert forall i :: 0 <= i < |sans[1..]| ==> sans[1..][i] == sans[i + 1];
      TextsAreValues(lib, sans[1..], k);
      var rest := ByKind(sans[1..], k);
      assert Canonical(lib, sans[0]) == Some(sans[0].value);
      if sans[0].kind == k {
        assert ([sans[0]] + rest)[1..] == rest;
      }
    }
  }

  lemma {:induction false} ByKindSubset(sans: seq<Entry>, k: Kind, e: Entry)
    ensures Has(ByKind(sans, k), e) <==> e.kind == k && Has(sans, e)
  {
    if sans != [] {
      ByKindSubset(sans[1..], k, e);
      HasConcat([sans[0]], ByKind(sans[1..], k), e);
      HasOne(sans[0], e);
    }
  }

  lemma {:induction false} ByKindNoDuplicates(sans: seq<Entry>, k: Kind)
    requires NoDuplicates(sans)
    ensures NoDuplicates(ByKind(sans, k))
  {
    if sans != [] {
      ByKindNoDuplicates(sans[1..], k);
      ByKindSubset(sans[1..], k, sans[0]);
      var rest := ByKind(sans[1..], k);
      assert ([sans[0]] + rest)[1..] == rest;
    }
  }

  predicate AllAbsent(sans: seq<Entry>, added: seq<Entry>) {
    forall i :: 0 <= i < |added| ==> !Has(sans, added[i])
  }

  lemma AllAbsentStep(sans: seq<Entry>, first: Entry, rest: seq<Entry>)
    requires AllAbsent(sans, [first] + rest) && !Has(rest, first)
    ensures AllAbsent(sans + [first], rest)
  {
    forall i | 0 <= i < |rest|
      ensures !Has(sans + [first], rest[i])
    {
      assert rest[i] == ([first] + rest)[i + 1];
      HasConcat(sans, [first], rest[i]);
      HasOne(first, rest[i]);
      NotSameAsLater(rest, first, i);
    }
  }

  lemma {:induction false} AddAllNew(sans: seq<Entry>, k: Kind, added: seq<Entry>)
    requires AllOfKind(added, k) && NoDuplicates(added) && AllAbsent(sans, added)
    ensures AddAll(sans, k, Values(added)) == sans + added
    decreases added
  {
    if added != [] {
      var first, rest := added[0], added[1..];
      assert added == [first] + rest;
      assert first == Entry(k, first.value);
      AllAbsentStep(sans, first, rest);
      AddAllNew(sans + [first], k, rest);
      assert sans + [first] + rest == sans + added;
      AddAllFirst(sans, k, first.value, Values(rest));
    }
  }

  lemma AddAllFirst(sans: seq<Entry>, k: Kind, value: string, values: seq<string>)
    ensures AddAll(sans, k, [value] + values) == AddAll(Add(sans, Entry(k, value)), k, values)
  {
    assert ([value] + values)[1..] == values;
  }

  lemma {:induction false} NotSameAsLater(sans: seq<Entry>, e: Entry, i: nat)
    requires i < |sans| && !Has(sans, e)
    ensures !Same(e, sans[i])
  {
    if i > 0 {
      NotSameAsLater(sans[1..], e, i - 1);
    }
  }

  lemma AddGroup(lib: Library, sans: seq<Entry>, k: Kind, groups: seq<Entry>)
    requires CanonicalTexts(lib, sans) && NoDuplicates(sans) && AllParse(lib, sans)
    requires forall e: Entry :: e.kind == k ==> !Has(groups, e)
    ensures AddAll(groups, k, TextsOfKind(lib, sans, k)) == groups + ByKind(sans, k)
    ensures forall e: Entry :: Has(groups + ByKind(sans, k), e) ==> e.kind == k || Has(groups, e)
  {
    TextsAreValues(lib, sans, k);
    ByKindNoDuplicates(sans, k);
    AddAllNew(groups, k, ByKind(sans, k));
    forall e: Entry | Has(groups + ByKind(sans, k), e)
      ensures e.kind == k || Has(groups, e)
    {
      HasConcat(groups, ByKind(sans, k), e);
      ByKindSubset(sans, k, e);
    }
  }

  /** With canonical texts, going through a certificate is a stable sort by kind. */
  lemma RegroupedIsGrouped(lib: Library, sans: seq<Entry>)
    requires CanonicalTexts(lib, sans) && NoDuplicates(sans)
    ensures Regrouped(lib, sans) == Some(Grouped(sans))
  {
    TextsAreValues(lib, sans, Dns);
    AddGroup(lib, sans, Dns, []);
    var g := [] + ByKind(sans, Dns);
    AddGroup(lib, sans, Ip, g);
    AddGroup(lib, sans, Email, g + ByKind(sans, Ip));
    AddGroup(lib, sans, Uri, g + ByKind(sans, Ip) + ByKind(sans, Email));
    assert g == ByKind(sans, Dns);
  }

  // ---- Nothing lost, nothing invented, and stable ----

  predicate NoOther(sans: seq<Entry>) {
    forall i :: 0 <= i < |sans| ==> !sans[i].kind.Other?
  }

  ghost function Pooled(sans: seq<Entry>): multiset<Entry> {
    multiset(ByKind(sans, Dns)) + multiset(ByKind(sans, Ip))
    + multiset(ByKind(sans, Email)) + multiset(ByKind(sans, Uri))
  }

  lemma ByKindHead(sans: seq<Entry>, k: Kind)
    requires sans != []
    ensures multiset(ByKind(sans, k)) ==
      (if sans[0].kind == k then multiset{sans[0]} else multiset{}) + multiset(ByKind(sans[1..], k))
  {
  }

  lemma {:induction false} PooledIsAll(sans: seq<Entry>)
    requires NoOther(sans)
    ensures Pooled(sans) == multiset(sans)
  {
    if sans != [] {
      var rest := sans[1..];
      assert forall i :: 0 <= i < |rest| ==> rest[i] == sans[i + 1];
      PooledIsAll(rest);
      PooledHead(sans);
      assert sans == [sans[0]] + rest;
    }
  }

  lemma PooledHead(sans: seq<Entry>)
    requires sans != [] && !sans[0].kind.Other?
    ensures Pooled(sans) == multiset{sans[0]} + Pooled(sans[1..])
  {
    ByKindHead(sans, Dns);
    ByKindHead(sans, Ip);
    ByKindHead(sans, Email);
    ByKindHead(sans, Uri);
  }

  lemma GroupedIsPermutation(sans: seq<Entry>)
    requires NoOther(sans)
    ensures multiset(Grouped(sans)) == multiset(sans)
  {
    PooledIsAll(sans);
  }

  /** Parsing a printed IP address or URI prints the same text again. */
  ghost predicate Stable(lib: Library) {
    && (forall t :: lib.ip(t).Some? ==> lib.ip(lib.ip(t).value) == lib.ip(t))
    && (forall t :: lib.uri(t).Some? ==> lib.uri(lib.uri(t).value) == lib.uri(t))
  }

  predicate CanonicalList(lib: Library, k: Kind, values: seq<string>) {
    forall i :: 0 <= i < |values| ==> Canonical(lib, Entry(k, values[i])) == Some(values[i])
  }

  lemma {:induction false} TextsAreCanonical(lib: Library, sans: seq<Entry>, k: Kind)
    requires Stable(lib) && AllParse(lib, sans)
    ensures CanonicalList(lib, k, TextsOfKind(lib, sans, k))
  {
    if sans != [] {
      TailParses(lib, sans);
      TextsAreCanonical(lib, sans[1..], k);
    }
  }

  /** Adding values of one kind appends a block of that kind. */
  lemma {:induction false} AddAllBlock(sans: seq<Entry>, k: Kind, values: seq<string>) returns (block: seq<Entry>)
    ensures AddAll(sans, k, values) == sans + block && AllOfKind(block, k)
    decreases values
  {
    if values == [] {
      block := [];
      assert sans + block == sans;
    } else {
      var e := Entry(k, values[0]);
      var later := AddAllBlock(Add(sans, e), k, values[1..]);
      if Has(sans, e) {
        block := later;
      } else {
        block := [e] + later;
        assert sans + [e] + later == sans + block;
      }
    }
  }

  lemma {:induction false} AddAllKeepsSet(lib: Library, sans: seq<Entry>, k: Kind, values: seq<string>)
    requires CanonicalTexts(lib, sans) && NoDuplicates(sans) && CanonicalList(lib, k, values)
    ensures CanonicalTexts(lib, AddAll(sans, k, values)) && NoDuplicates(AddAll(sans, k, values))
    decreases values
  {
    if values != [] {
      var e, rest := Entry(k, values[0]), values[1..];
      assert forall i :: 0 <= i < |rest| ==> rest[i] == values[i + 1];
      AddKeepsSet(sans, e, e);
      AddKeepsCanonical(lib, sans, e);
      AddAllKeepsSet(lib, Add(sans, e), k, rest);
    }
  }

  lemma AddKeepsCanonical(lib: Library, sans: seq<Entry>, e: Entry)
    requires CanonicalTexts(lib, sans) && Canonical(lib, e) == Some(e.value)
    ensures CanonicalTexts(lib, Add(sans, e))
  {
  }

  lemma {:induction false} ByKindOfBlock(sans: seq<Entry>, j: Kind, k: Kind)
    requires AllOfKind(sans, j)
    ensures ByKind(sans, k) == if j == k then sans else []
  {
    if sans != [] {
      assert forall i :: 0 <= i < |sans[1..]| ==> sans[1..][i] == sans[i + 1];
      ByKindOfBlock(sans[1..], j, k);
    }
  }

  lemma {:induction false} ByKindConcat(a: seq<Entry>, b: seq<Entry>, k: Kind)
    ensures ByKind(a + b, k) == ByKind(a, k) + ByKind(b, k)
  {
    if a == [] {
      assert a + b == b;
    } else {
      assert (a + b)[1..] == a[1..] + b;
      ByKindConcat(a[1..], b, k);
    }
  }

  lemma ByKindOfBlocks(d: seq<Entry>, i: seq<Entry>, e: seq<Entry>, u: seq<Entry>, k: Kind)
    requires AllOfKind(d, Dns) && AllOfKind(i, Ip) && AllOfKind(e, Email) && AllOfKind(u, Uri)
    ensures ByKind(d + i + e + u, k) ==
      match k case Dns => d case Ip => i case Email => e case Uri => u case Other(_) => []
  {
    ByKindConcat(d + i + e, u, k);
    ByKindConcat(d + i, e, k);
    ByKindConcat(d, i, k);
    ByKindOfBlock(d, Dns, k);
    ByKindOfBlock(i, Ip, k);
    ByKindOfBlock(e, Email, k);
    ByKindOfBlock(u, Uri, k);
  }

  /** What comes back from a certificate is canonical, duplicate-free and already grouped. */
  lemma RegroupedShape(lib: Library, sans: seq<Entry>, r: seq<Entry>)
    requires Stable(lib) && Regrouped(lib, sans) == Some(r)
    ensures CanonicalTexts(lib, r) && NoDuplicates(r) && Grouped(r) == r
  {
    TextsAreCanonical(lib, sans, Dns);
    TextsAreCanonical(lib, sans, Ip);
    TextsAreCanonical(lib, sans, Email);
    TextsAreCanonical(lib, sans, Uri);
    var names := NamesOf(lib, sans).value;
    var d := AddAllBlock([], Dns, names.dns);
    assert [] + d == d;
    var i := AddAllBlock(d, Ip, names.ips);
    var e := AddAllBlock(d + i, Email, names.emails);
    var u := AddAllBlock(d + i + e, Uri, names.uris);
    AddAllKeepsSet(lib, [], Dns, names.dns);
    AddAllKeepsSet(lib, d, Ip, names.ips);
    AddAllKeepsSet(lib, d + i, Email, names.emails);
    AddAllKeepsSet(lib, d + i + e, Uri, names.uris);
    ByKindOfBlocks(d, i, e, u, Dns);
    ByKindOfBlocks(d, i, e, u, Ip);
    ByKindOfBlocks(d, i, e, u, Email);
    ByKindOfBlocks(d, i, e, u, Uri);
  }

  /** Going through a second certificate changes nothing more. */
  lemma RegroupingTwice(lib: Library, sans: seq<Entry>, r: seq<Entry>)
    requires Stable(lib) && Regrouped(lib, sans) == Some(r)
    ensures Regrouped(lib, r) == Some(r)
  {
    RegroupedShape(lib, sans, r);
    RegroupedIsGrouped(lib, r);
  }

  /** A set keeps exactly its entries through a certificate exactly when its texts were canonical. */
  lemma RegroupingLosesNothingExactly(lib: Library, sans: seq<Entry>)
    requires Stable(lib) && NoDuplicates(sans) && AllParse(lib, sans)
    ensures multiset(Regrouped(lib, sans).value) == multiset(sans) <==> CanonicalTexts(lib, sans)
  {
    var r := Regrouped(lib, sans).value;
    assert NoOther(sans);
    if CanonicalTexts(lib, sans) {
      RegroupedIsGrouped(lib, sans);
      GroupedIsPermutation(sans);
    } else if multiset(r) == multiset(sans) {
      RegroupedShape(lib, sans, r);
      forall i | 0 <= i < |sans|
        ensures Canonical(lib, sans[i]) == Some(sans[i].value)
      {
        assert sans[i] in multiset(r);
      }
    }
  }
}
