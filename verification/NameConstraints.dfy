/**
 DNS name constraints of a CA (RFC 5280, section 4.2.1.10): string matching as the
 issuing code does it, and the label-wise meaning it is meant to have.
 */
module NameConstraints {
  import opened Text

  datatype Constraints = Constraints(permittedDns: seq<string>, excludedDns: seq<string>)

  /** The form a requested name is compared in. */
  function Canonical(name: string): string {
    TrimPrefix(Lower(TrimSuffix(TrimSpace(name), ".")), "*.")
  }

  /** The form a constraint entry is compared in; a leading dot is optional. */
  function CanonicalConstraint(constraint: string): string {
    TrimPrefix(Lower(TrimSuffix(TrimSpace(constraint), ".")), ".")
  }

  predicate DnsWithin(name: string, constraint: string) {
    var c := CanonicalConstraint(constraint);
    c != "" && (name == c || HasSuffix(name, "." + c))
  }

  predicate AnyWithin(name: string, constraints: seq<string>) {
    constraints != [] && (DnsWithin(name, constraints[0]) || AnyWithin(name, constraints[1..]))
  }

  predicate PermitsDns(n: Constraints, name: string) {
    PermitsCanonical(n, Canonical(name))
  }

  predicate PermitsCanonical(n: Constraints, name: string) {
    if name == "" then false
    else if AnyWithin(name, n.excludedDns) then false
    else if n.permittedDns == [] then true
    else AnyWithin(name, n.permittedDns)
  }

  /** Trim, lower and drop empty entries. */
  function CleanList(values: seq<string>): seq<string> {
    if values == [] then []
    else
      var v := Lower(TrimSpace(values[0]));
      (if v == "" then [] else [v]) + CleanList(values[1..])
  }

  function Normalize(n: Constraints): Constraints {
    Constraints(CleanList(n.permittedDns), CleanList(n.excludedDns))
  }

  // ---- The forms names and entries are compared in ----

  /** The text is the core, maybe with the prefix in front, maybe with a dot behind, neither left on the core. */
  predicate Spells(text: string, prefix: string, core: string) {
    || (text == core && !EndsInDot(text) && !HasPrefix(text, prefix))
    || (text == core + "." && !HasPrefix(core, prefix))
    || (text == prefix + core && !EndsInDot(text))
    || text == prefix + core + "."
  }

  predicate EndsInDot(text: string) {
    text != "" && text[|text| - 1] == '.'
  }

  lemma LowerWithoutDot(text: string)
    ensures var bare := Lower(TrimSuffix(text, "."));
      Lower(text) == if EndsInDot(text) then bare + "." else bare
    ensures EndsInDot(Lower(text)) <==> EndsInDot(text)
  {
    if EndsInDot(text) {
      assert text[|text| - 1..] == ".";
      LowerConcat(text[..|text| - 1], ".");
      assert text == text[..|text| - 1] + "." && Lower(".") == ".";
    } else if text != "" {
      assert text[|text| - 1..] == [text[|text| - 1]];
    }
  }

  lemma SpellsExactly(text: string, prefix: string, core: string)
    ensures TrimPrefix(Lower(TrimSuffix(text, ".")), prefix) == core <==> Spells(Lower(text), prefix, core)
  {
    LowerWithoutDot(text);
    PrefixExactly(Lower(text), Lower(TrimSuffix(text, ".")), prefix, core);
  }

  lemma PrefixExactly(text: string, bare: string, prefix: string, core: string)
    requires text == if EndsInDot(text) then bare + "." else bare
    ensures TrimPrefix(bare, prefix) == core <==> Spells(text, prefix, core)
  {
    if HasPrefix(bare, prefix) {
      assert bare == prefix + bare[|prefix|..];
    }
    assert HasPrefix(prefix + core, prefix) && (prefix + core)[|prefix|..] == core;
    assert EndsInDot(core + ".") && (core + ".")[..|core|] == core;
    assert EndsInDot(prefix + core + ".") && (prefix + core + ".")[..|prefix + core|] == prefix + core;
    assert EndsInDot(text) ==> text[..|bare|] == bare;
  }

  /** A name is compared in lower case, without white space around it, a last dot and a wildcard in front. */
  lemma CanonicalExactly(name: string, core: string)
    ensures Canonical(name) == core <==> Spells(Lower(TrimSpace(name)), "*.", core)
  {
    SpellsExactly(TrimSpace(name), "*.", core);
  }

  /** And an entry of a list likewise, without a dot in front. */
  lemma CanonicalConstraintExactly(constraint: string, core: string)
    ensures CanonicalConstraint(constraint) == core <==> Spells(Lower(TrimSpace(constraint)), ".", core)
  {
    SpellsExactly(TrimSpace(constraint), ".", core);
  }

  // ---- The label-wise meaning ----

  function Labels(name: string): seq<string> {
    Split(name, '.')
  }

  predicate LabelSuffix(labels: seq<string>, tail: seq<string>) {
    |tail| <= |labels| && labels[|labels| - |tail|..] == tail
  }

  /** A name lies under a constraint when the constraint's labels end the name's. */
  predicate Under(name: string, constraint: string) {
    var c := CanonicalConstraint(constraint);
    c != "" && LabelSuffix(Labels(name), Labels(c))
  }

  lemma {:induction false} CutAtLabel(s: string, k: int) returns (a: string, b: string)
    requires 0 < k < |Labels(s)|
    ensures s == a + "." + b
    ensures Labels(b) == Labels(s)[k..]
  {
    var rest := Labels(s[1..]);
    assert s == [s[0]] + s[1..];
    if s[0] == '.' && k == 1 {
      a, b := "", s[1..];
    } else {
      a, b := CutAtLabel(s[1..], if s[0] == '.' then k - 1 else k);
      a := [s[0]] + a;
    }
  }

  /** The boundary of a match always falls on a label. */
  lemma SuffixIsLabelSuffix(name: string, c: string)
    ensures name == c || HasSuffix(name, "." + c) <==> LabelSuffix(Labels(name), Labels(c))
  {
    var n, m := |Labels(name)|, |Labels(c)|;
    if name != c && HasSuffix(name, "." + c) {
      var a := name[..|name| - |c| - 1];
      assert name == a + "." + c;
      SplitConcat(a, c, '.');
    } else if LabelSuffix(Labels(name), Labels(c)) {
      if m == n {
        assert Labels(name)[0..] == Labels(name);
        SplitInjective(name, c, '.');
      } else {
        var a, b := CutAtLabel(name, n - m);
        SplitInjective(b, c, '.');
      }
    }
  }

  lemma WithinIsUnder(name: string, constraint: string)
    ensures DnsWithin(name, constraint) <==> Under(name, constraint)
  {
    SuffixIsLabelSuffix(name, CanonicalConstraint(constraint));
  }

  ghost predicate UnderSome(name: string, constraints: seq<string>) {
    exists i :: 0 <= i < |constraints| && Under(name, constraints[i])
  }

  lemma {:induction false} AnyWithinIsUnderSome(name: string, constraints: seq<string>)
    ensures AnyWithin(name, constraints) <==> UnderSome(name, constraints)
  {
    if constraints != [] {
      var rest := constraints[1..];
      AnyWithinIsUnderSome(name, rest);
      WithinIsUnder(name, constraints[0]);
      if UnderSome(name, rest) {
        var i :| 0 <= i < |rest| && Under(name, rest[i]);
        assert Under(name, constraints[i + 1]);
      }
      if UnderSome(name, constraints) && !Under(name, constraints[0]) {
        var i :| 0 <= i < |constraints| && Under(name, constraints[i]);
        assert Under(name, rest[i - 1]);
      }
    }
  }

  /** The whole verdict, read label by label. */
  lemma PermitsByLabels(n: Constraints, name: string)
    ensures PermitsDns(n, name) <==>
      && Canonical(name) != ""
      && !UnderSome(Canonical(name), n.excludedDns)
      && (n.permittedDns == [] || UnderSome(Canonical(name), n.permittedDns))
  {
    AnyWithinIsUnderSome(Canonical(name), n.excludedDns);
    AnyWithinIsUnderSome(Canonical(name), n.permittedDns);
  }

  // ---- What the canonical form forgets, and nothing else ----

  /** Any non-empty lower-case text can be spelled as a constraint. */
  lemma Expressible(w: string, name: string)
    requires w != "" && Lower(w) == w
    ensures DnsWithin(name, "." + w + ".") <==> name == w || HasSuffix(name, "." + w)
  {
    var c := "." + w + ".";
    TrimSpaceFixed(c);
    assert TrimSuffix(c, ".") == "." + w;
    LowerConcat(".", w);
    assert Lower(".") == ".";
    assert TrimPrefix("." + w, ".") == w;
  }

  lemma CanonicalIsLower(name: string)
    ensures Lower(Canonical(name)) == Canonical(name)
  {
    TrimPrefixIsLower(TrimSuffix(TrimSpace(name), "."));
  }

  lemma TrimPrefixIsLower(t: string)
    ensures Lower(TrimPrefix(Lower(t), "*.")) == TrimPrefix(Lower(t), "*.")
  {
    var l := Lower(t);
    LowerLower(t);
    if HasPrefix(l, "*.") {
      LowerSlice(l, 2, |l|);
    }
  }

  /** Two spellings get the same verdict from every CA exactly when their canonical forms agree. */
  lemma SameVerdictsExactly(a: string, b: string)
    ensures (forall n :: PermitsDns(n, a) == PermitsDns(n, b)) <==> Canonical(a) == Canonical(b)
  {
    if Canonical(a) != Canonical(b) {
      CanonicalIsLower(a);
      CanonicalIsLower(b);
      var n := Distinguish(Canonical(a), Canonical(b));
      assert PermitsDns(n, a) != PermitsDns(n, b);
    }
  }

  lemma Distinguish(a: string, b: string) returns (n: Constraints)
    requires Lower(a) == a != b == Lower(b)
    ensures PermitsCanonical(n, a) != PermitsCanonical(n, b)
  {
    if a == "" || b == "" {
      n := Constraints([], []);
    } else if HasSuffix(b, "." + a) {
      n := Excluding(b, b, a);
    } else {
      n := Excluding(a, a, b);
    }
  }

  lemma Excluding(w: string, name: string, other: string) returns (n: Constraints)
    requires w != "" && Lower(w) == w && other != ""
    requires name == w && other != w && !HasSuffix(other, "." + w)
    ensures !PermitsCanonical(n, name) && PermitsCanonical(n, other)
  {
    var e := "." + w + ".";
    n := Constraints([], [e]);
    Expressible(w, name);
    Expressible(w, other);
    Alone(name, e);
    Alone(other, e);
  }

  lemma Alone(name: string, e: string)
    ensures AnyWithin(name, [e]) <==> DnsWithin(name, e)
  {
    assert [e][1..] == [];
  }

  /** When prefixing a wildcard label changes nothing; blank names and doubled wildcards are out. */
  predicate WildcardNeutral(x: string) {
    TrimSpace(x) != "" && !IsSpace(x[0]) && !HasPrefix(TrimSuffix(TrimSpace(x), "."), "*.")
  }

  lemma {:induction false} TrimRightAfter(p: string, x: string)
    requires TrimRight(x) != ""
    ensures TrimRight(p + x) == p + TrimRight(x)
    decreases |x|
  {
    if IsSpace(x[|x| - 1]) {
      assert (p + x)[..|p + x| - 1] == p + x[..|x| - 1];
      TrimRightAfter(p, x[..|x| - 1]);
    }
  }

  lemma {:induction false} TrimRightBlank(p: string, x: string)
    requires TrimRight(x) == ""
    ensures TrimRight(p + x) == TrimRight(p)
    decreases |x|
  {
    if x == "" {
      assert p + x == p;
    } else {
      assert (p + x)[..|p + x| - 1] == p + x[..|x| - 1];
      TrimRightBlank(p, x[..|x| - 1]);
    }
  }

  /** PermitsDns("*." + x) == PermitsDns(x) for every CA, exactly for the neutral x. */
  lemma WildcardVerdict(x: string)
    ensures (forall n :: PermitsDns(n, "*." + x) == PermitsDns(n, x)) <==> WildcardNeutral(x)
  {
    SameVerdictsExactly("*." + x, x);
    WildcardCanonical(x);
  }

  lemma WildcardCanonical(x: string)
    ensures Canonical("*." + x) == Canonical(x) <==> WildcardNeutral(x)
  {
    if TrimRight(x) == "" {
      WildcardBlank(x);
    } else {
      WildcardCanonicalForm(x);
      TrimBothSides(x);
      var r, t := TrimRight(x), TrimSpace(x);
      if IsSpace(x[0]) {
        ShorterCanonical(r, t);
      } else {
        LowerPrefix(TrimSuffix(r, "."));
        StrippedOrNot(Lower(TrimSuffix(r, ".")));
      }
    }
  }

  lemma WildcardBlank(x: string)
    requires TrimRight(x) == ""
    ensures Canonical("*." + x) == "*" && TrimSpace(x) == "" == Canonical(x)
  {
    TrimmedWildcard(x);
    BlankTrims(x);
    CanonicalOfTwo();
  }

  lemma TrimmedWildcard(x: string)
    requires TrimRight(x) == ""
    ensures TrimSpace("*." + x) == "*."
  {
    TrimRightBlank("*.", x);
    TrimLeftFixed("*." + x);
  }

  lemma TrimLeftFixed(s: string)
    requires s != "" && !IsSpace(s[0])
    ensures TrimLeft(s) == s
  {
  }

  lemma CanonicalOfTwo()
    ensures TrimPrefix(Lower(TrimSuffix("*.", ".")), "*.") == "*"
  {
    assert TrimSuffix("*.", ".") == "*";
    assert Lower("*") == "*";
  }

  lemma WildcardCanonicalForm(x: string)
    requires TrimRight(x) != ""
    ensures Canonical("*." + x) == Lower(TrimSuffix(TrimRight(x), "."))
  {
    assert TrimLeft("*." + x) == "*." + x;
    TrimRightAfter("*.", x);
    WildcardStripped(TrimRight(x));
  }

  lemma StrippedOrNot(l: string)
    ensures TrimPrefix(l, "*.") == l <==> !HasPrefix(l, "*.")
  {
  }

  lemma WildcardStripped(r: string)
    requires r != ""
    ensures TrimPrefix(Lower(TrimSuffix("*." + r, ".")), "*.") == Lower(TrimSuffix(r, "."))
  {
    var y := TrimSuffix(r, ".");
    assert ("*." + r)[|r| + 1] == r[|r| - 1];
    assert TrimSuffix("*." + r, ".") == "*." + y;
    LowerConcat("*.", y);
    assert Lower("*.") == "*.";
  }

  lemma ShorterCanonical(r: string, t: string)
    requires t != "" && HasSuffix(r, t) && |t| < |r|
    ensures TrimPrefix(Lower(TrimSuffix(t, ".")), "*.") != Lower(TrimSuffix(r, "."))
  {
    assert t[|t| - 1] == r[|r| - 1];
    assert HasSuffix(t, ".") <==> t[|t| - 1] == '.';
    assert HasSuffix(r, ".") <==> r[|r| - 1] == '.';
  }

  lemma LowerPrefix(y: string)
    ensures HasPrefix(Lower(y), "*.") <==> HasPrefix(y, "*.")
  {
    if |y| >= 2 {
      assert Lower(y)[0] == '*' <==> y[0] == '*';
      assert Lower(y)[1] == '.' <==> y[1] == '.';
    }
  }

  lemma {:induction false} BlankTrims(x: string)
    requires TrimRight(x) == ""
    ensures TrimLeft(x) == ""
  {
    if x != "" {
      var tail := x[1..];
      assert x == [x[0]] + tail;
      if TrimRight(tail) == "" {
        TrimRightBlank([x[0]], tail);
        BlankTrims(tail);
      } else {
        TrimRightAfter([x[0]], tail);
      }
    }
  }

  /** Trimming is the same from either end first. */
  lemma {:induction false} TrimBothSides(x: string)
    requires TrimRight(x) != ""
    ensures !IsSpace(x[0]) ==> TrimSpace(x) == TrimRight(x)
    ensures IsSpace(x[0]) ==>
      TrimSpace(x) != "" && HasSuffix(TrimRight(x), TrimSpace(x)) && |TrimSpace(x)| < |TrimRight(x)|
    decreases |x|
  {
    if IsSpace(x[0]) {
      var tail := x[1..];
      assert x == [x[0]] + tail;
      NotBlankTail(x[0], tail);
      TrimRightAfter([x[0]], tail);
      TrimBothSides(tail);
      SuffixAfter([x[0]], TrimRight(tail), TrimSpace(tail));
    }
  }

  lemma SuffixAfter(a: string, b: string, tail: string)
    requires HasSuffix(b, tail)
    ensures HasSuffix(a + b, tail)
  {
    assert (a + b)[|a + b| - |tail|..] == b[|b| - |tail|..];
  }

  lemma NotBlankTail(space: char, tail: string)
    requires IsSpace(space) && TrimRight([space] + tail) != ""
    ensures TrimRight(tail) != ""
  {
    if TrimRight(tail) == "" {
      TrimRightBlank([space], tail);
    }
  }

  // ---- How the lists act ----

  lemma {:induction false} AnyWithinConcat(name: string, a: seq<string>, b: seq<string>)
    ensures AnyWithin(name, a + b) <==> AnyWithin(name, a) || AnyWithin(name, b)
  {
    if a == [] {
      assert a + b == b;
    } else {
      assert (a + b)[1..] == a[1..] + b;
      AnyWithinConcat(name, a[1..], b);
    }
  }

  /** Adding an exclusion removes exactly the names under it. */
  lemma AddingExclusion(n: Constraints, e: string, name: string)
    ensures PermitsDns(n.(excludedDns := n.excludedDns + [e]), name) <==>
      PermitsDns(n, name) && !Under(Canonical(name), e)
  {
    WithinIsUnder(Canonical(name), e);
    AnyWithinConcat(Canonical(name), n.excludedDns, [e]);
    Alone(Canonical(name), e);
  }

  /** A name below a permitted one is refused exactly when some exclusion covers it. */
  lemma SubdomainRefusedOnlyByExclusion(n: Constraints, name: string, sub: string)
    requires PermitsDns(n, name)
    requires LabelSuffix(Labels(Canonical(sub)), Labels(Canonical(name)))
    ensures PermitsDns(n, sub) <==> !UnderSome(Canonical(sub), n.excludedDns)
  {
    var cn, cs := Canonical(name), Canonical(sub);
    PermitsByLabels(n, name);
    PermitsByLabels(n, sub);
    NonEmptyBelow(cn, cs);
    if n.permittedDns != [] {
      var i :| 0 <= i < |n.permittedDns| && Under(cn, n.permittedDns[i]);
      UnderIsTransitive(cs, cn, n.permittedDns[i]);
    }
  }

  lemma NonEmptyBelow(name: string, sub: string)
    requires name != "" && LabelSuffix(Labels(sub), Labels(name))
    ensures sub != ""
  {
    SuffixIsLabelSuffix(sub, name);
  }

  lemma UnderIsTransitive(sub: string, name: string, constraint: string)
    requires LabelSuffix(Labels(sub), Labels(name)) && Under(name, constraint)
    ensures Under(sub, constraint)
  {
    var s, n, c := Labels(sub), Labels(name), Labels(CanonicalConstraint(constraint));
    assert s[|s| - |c|..] == s[|s| - |n|..][|n| - |c|..];
  }

  // ---- Normalisation ----

  predicate AllBlank(values: seq<string>) {
    values == [] || (TrimSpace(values[0]) == "" && AllBlank(values[1..]))
  }

  lemma LowerKeepsTrimmed(s: string)
    requires Trimmed(s)
    ensures Trimmed(Lower(s))
  {
  }

  lemma CleanEntry(v: string)
    ensures CanonicalConstraint(Lower(TrimSpace(v))) == CanonicalConstraint(v)
  {
    LowerKeepsTrimmed(TrimSpace(v));
    TrimSpaceFixed(Lower(TrimSpace(v)));
    SuffixLower(TrimSpace(v));
  }

  lemma SuffixLower(s: string)
    ensures Lower(TrimSuffix(Lower(s), ".")) == Lower(TrimSuffix(s, "."))
  {
    var l := Lower(s);
    LowerLower(s);
    if s != "" {
      assert HasSuffix(s, ".") <==> s[|s| - 1] == '.';
      assert HasSuffix(l, ".") <==> l[|s| - 1] == '.';
      LowerSlice(s, 0, |s| - 1);
      LowerSlice(l, 0, |s| - 1);
    }
  }

  lemma {:induction false} CleanKeepsMatches(values: seq<string>, name: string)
    ensures AnyWithin(name, CleanList(values)) <==> AnyWithin(name, values)
    ensures CleanList(values) == [] <==> AllBlank(values)
  {
    if values != [] {
      var v := Lower(TrimSpace(values[0]));
      CleanKeepsMatches(values[1..], name);
      CleanEntry(values[0]);
      if v != "" {
        assert ([v] + CleanList(values[1..]))[1..] == CleanList(values[1..]);
      } else {
        assert TrimSpace(values[0]) == "";
        assert [] + CleanList(values[1..]) == CleanList(values[1..]);
      }
    }
  }

  function Repeat(n: nat): (s: string)
    ensures |s| == n
  {
    seq(n, i => 'a')
  }

  lemma RepeatIsCanonical(n: nat)
    requires n > 0
    ensures Canonical(Repeat(n)) == Repeat(n)
    ensures Labels(Repeat(n)) == [Repeat(n)]
  {
    var s := Repeat(n);
    TrimSpaceFixed(s);
    assert s[n - 1] == 'a' && s[0] == 'a';
    assert TrimSuffix(s, ".") == s;
    assert Lower(s) == s;
    RepeatOneLabel(n);
  }

  lemma {:induction false} RepeatOneLabel(n: nat)
    requires n > 0
    ensures Labels(Repeat(n)) == [Repeat(n)]
  {
    var s := Repeat(n);
    assert s[0] == 'a';
    assert s[1..] == Repeat(n - 1);
    if n > 1 {
      RepeatOneLabel(n - 1);
    }
    assert Labels(s[1..]) == [s[1..]];
    assert Labels(s) == [[s[0]] + s[1..]];
    assert [s[0]] + s[1..] == s;
  }

  lemma ConstraintNotLonger(v: string)
    ensures |CanonicalConstraint(v)| <= |v|
  {
    TrimLeftNotLonger(v);
  }

  lemma {:induction false} TrimLeftNotLonger(v: string)
    ensures |TrimLeft(v)| <= |v|
  {
    if v != "" {
      TrimLeftNotLonger(v[1..]);
    }
  }

  /** Some name lies under no entry of a given list. */
  lemma {:induction false} Unmatched(values: seq<string>, n: nat)
    requires n > 0 && forall i :: 0 <= i < |values| ==> |values[i]| < n
    ensures !AnyWithin(Repeat(n), values)
  {
    if values != [] {
      var name, c := Repeat(n), CanonicalConstraint(values[0]);
      ConstraintNotLonger(values[0]);
      SuffixIsLabelSuffix(name, c);
      RepeatIsCanonical(n);
      if c != "" && LabelSuffix(Labels(name), Labels(c)) {
        assert Labels(name)[0..] == Labels(name);
        SplitInjective(name, c, '.');
      }
      Unmatched(values[1..], n);
    }
  }

  function Longest(values: seq<string>): (n: nat)
    ensures forall i :: 0 <= i < |values| ==> |values[i]| <= n
  {
    if values == [] then 0
    else
      var rest := Longest(values[1..]);
      assert forall i :: 1 <= i < |values| ==> values[i] == values[1..][i - 1];
      if |values[0]| > rest then |values[0]| else rest
  }

  /** Normalising keeps every verdict, except for a permitted list holding only blank entries. */
  lemma NormalizeKeepsVerdictsExactly(n: Constraints)
    ensures (forall name :: PermitsDns(Normalize(n), name) == PermitsDns(n, name)) <==>
      n.permittedDns == [] || !AllBlank(n.permittedDns)
  {
    forall name: string
      ensures n.permittedDns == [] || !AllBlank(n.permittedDns) ==>
        PermitsDns(Normalize(n), name) == PermitsDns(n, name)
    {
      CleanKeepsMatches(n.permittedDns, Canonical(name));
      CleanKeepsMatches(n.excludedDns, Canonical(name));
    }
    if n.permittedDns != [] && AllBlank(n.permittedDns) {
      var length := Longest(n.excludedDns) + 1;
      var name := Repeat(length);
      RepeatIsCanonical(length);
      Unmatched(n.excludedDns, length);
      CleanKeepsMatches(n.permittedDns, name);
      CleanKeepsMatches(n.excludedDns, name);
      assert PermitsDns(Normalize(n), name) != PermitsDns(n, name);
    }
  }
}
