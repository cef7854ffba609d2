/**
 Label filtering: labels are stored as encoded JSON text, and a filter looks for the
 encoded pair inside that text with LIKE.
 */
module Labels {
  import opened Text
  import opened Serial

  /** A label map in the order its keys are written; keys are distinct. */
  type Pairs = seq<(string, string)>

  // ---- The encoding ----

  function EscapeChar(c: char): string {
    if c == '"' then "\\\""
    else if c == '\\' then "\\\\"
    else if c == '\n' then "\\n"
    else if c == '\r' then "\\r"
    else if c == '\t' then "\\t"
    else if c == '\U{8}' then "\\b"
    else if c == '\U{C}' then "\\f"
    else if c < ' ' || c == '<' || c == '>' || c == '&' then "\\u00" + [DigitOf(c as int / 16), DigitOf(c as int % 16)]
    else [c]
  }

  function Escape(s: string): string {
    if s == "" then "" else EscapeChar(s[0]) + Escape(s[1..])
  }

  /** One pair as it stands inside the braces. */
  function JsonPair(key: string, value: string): string {
    ['"'] + (Escape(key) + (['"'] + (":" + (['"'] + (Escape(value) + ['"'])))))
  }

  /** What follows the opening brace, or the comma after a pair. */
  function EncodedTail(pairs: Pairs): string
    requires pairs != []
  {
    JsonPair(pairs[0].0, pairs[0].1) + if |pairs| == 1 then "}" else "," + EncodedTail(pairs[1..])
  }

  function Encoded(pairs: Pairs): string {
    if pairs == [] then "{}" else "{" + EncodedTail(pairs)
  }

  // ---- LIKE ----

  predicate Like(s: string, pattern: string)
    decreases |s| + |pattern|
  {
    if pattern == "" then s == ""
    else if pattern[0] == '%' then Like(s, pattern[1..]) || (s != "" && Like(s[1..], pattern))
    else s != "" && (pattern[0] == '_' || pattern[0] == s[0]) && Like(s[1..], pattern[1..])
  }

  predicate Occurs(s: string, w: string) {
    HasPrefix(s, w) || (s != "" && Occurs(s[1..], w))
  }

  predicate Plain(w: string) {
    '%' !in w && '_' !in w
  }

  /** Whether a row with these labels passes the filter for one pair. */
  predicate Matches(pairs: Pairs, key: string, value: string) {
    Like(Encoded(pairs), "%" + JsonPair(key, value) + "%")
  }

  lemma {:induction false} AnythingMatches(s: string)
    ensures Like(s, "%")
  {
    if s != "" {
      AnythingMatches(s[1..]);
    }
  }

  lemma {:induction false} PlainPrefix(s: string, w: string)
    requires Plain(w)
    ensures Like(s, w + "%") <==> HasPrefix(s, w)
  {
    if w == "" {
      assert w + "%" == "%";
      AnythingMatches(s);
    } else {
      assert (w + "%")[1..] == w[1..] + "%";
      if s != "" {
        PlainPrefix(s[1..], w[1..]);
        PrefixTail(s, w);
      }
    }
  }

  lemma PrefixTail(s: string, w: string)
    requires s != "" && w != ""
    ensures HasPrefix(s, w) <==> s[0] == w[0] && HasPrefix(s[1..], w[1..])
  {
    if |w| <= |s| {
      assert s[..|w|] == [s[0]] + s[1..][..|w| - 1];
      assert w == [w[0]] + w[1..];
    }
  }

  lemma {:induction false} LikeIsSubstring(s: string, w: string)
    requires Plain(w)
    ensures Like(s, "%" + w + "%") <==> Occurs(s, w)
  {
    var pattern := "%" + w + "%";
    assert pattern[1..] == w + "%";
    PlainPrefix(s, w);
    if s != "" {
      LikeIsSubstring(s[1..], w);
    }
  }

  /** Wildcards match themselves too. */
  lemma {:induction false} PrefixIsLike(s: string, w: string)
    requires HasPrefix(s, w)
    ensures Like(s, w + "%")
  {
    if w == "" {
      assert w + "%" == "%";
      AnythingMatches(s);
    } else {
      assert (w + "%")[1..] == w[1..] + "%";
      PrefixTail(s, w);
      PrefixIsLike(s[1..], w[1..]);
    }
  }

  lemma {:induction false} OccurrenceIsLike(s: string, w: string)
    requires Occurs(s, w)
    ensures Like(s, "%" + w + "%")
  {
    var pattern := "%" + w + "%";
    assert pattern[1..] == w + "%";
    if HasPrefix(s, w) {
      PrefixIsLike(s, w);
    } else {
      OccurrenceIsLike(s[1..], w);
    }
  }

  // ---- Escaping loses nothing ----

  lemma HexedAlike(c: nat, d: nat)
    requires c < 256 && d < 256 && DigitOf(c / 16) == DigitOf(d / 16) && DigitOf(c % 16) == DigitOf(d % 16)
    ensures c == d
  {
    DigitRoundTrip(c / 16);
    DigitRoundTrip(c % 16);
    DigitRoundTrip(d / 16);
    DigitRoundTrip(d % 16);
  }

  lemma EscapeCharCode(c: char, d: char, x: string, y: string)
    requires EscapeChar(c) + x == EscapeChar(d) + y
    ensures c == d && x == y
  {
    var e, f := EscapeChar(c), EscapeChar(d);
    assert (e + x)[0] == (f + y)[0];
    if |e| > 1 {
      assert (e + x)[1] == (f + y)[1];
    }
    if |e| == 6 {
      assert (e + x)[4] == (f + y)[4] && (e + x)[5] == (f + y)[5];
      HexedAlike(c as int, d as int);
    }
    assert c == d;
    assert (e + x)[|e|..] == x && (f + y)[|f|..] == y;
  }

  lemma EscapedEmpty(a: string)
    ensures Escape(a) == "" <==> a == ""
  {
    if a != "" {
      assert |EscapeChar(a[0])| >= 1;
    }
  }

  lemma {:induction false} EscapeInjective(a: string, b: string)
    requires Escape(a) == Escape(b)
    ensures a == b
  {
    EscapedEmpty(a);
    EscapedEmpty(b);
    if a != "" && b != "" {
      EscapeCharCode(a[0], b[0], Escape(a[1..]), Escape(b[1..]));
      EscapeInjective(a[1..], b[1..]);
      assert a == [a[0]] + a[1..] && b == [b[0]] + b[1..];
    }
  }

  lemma EscapeCharQuotes(c: char)
    ensures '"' in EscapeChar(c) <==> c == '"'
  {
    if c < ' ' || c == '<' || c == '>' || c == '&' {
      DigitRoundTrip(c as int / 16);
      DigitRoundTrip(c as int % 16);
    }
  }

  /** Escaped text, its closing quote and what follows; the quote is no part of any escape that begins there. */
  function Coded(t: string, rest: string): string {
    Escape(t) + (['"'] + rest)
  }

  lemma CodedCons(t: string, rest: string)
    requires t != ""
    ensures Coded(t, rest) == EscapeChar(t[0]) + Coded(t[1..], rest)
  {
  }

  lemma CharPrefix(c: char, x: string, d: char, y: string)
    ensures HasPrefix(EscapeChar(c) + x, EscapeChar(d) + y) <==> c == d && HasPrefix(x, y)
  {
    var e, f := EscapeChar(c), EscapeChar(d);
    var s, w := e + x, f + y;
    if HasPrefix(s, w) {
      var tail := s[|w|..];
      assert s == w + tail && w + tail == f + (y + tail);
      EscapeCharCode(c, d, x, y + tail);
      assert x[..|y|] == y;
    }
    if c == d && HasPrefix(x, y) {
      assert s[..|w|] == f + x[..|y|];
    }
  }

  lemma EscapeStarts(c: char)
    ensures EscapeChar(c) != "" && EscapeChar(c)[0] != '"'
  {
    EscapeCharQuotes(c);
  }

  lemma CodeStep(a: string, x: string, b: string, y: string)
    requires a != "" && b != ""
    ensures HasPrefix(Coded(a, x), Coded(b, y)) <==> a[0] == b[0] && HasPrefix(Coded(a[1..], x), Coded(b[1..], y))
  {
    CodedCons(a, x);
    CodedCons(b, y);
    CharPrefix(a[0], Coded(a[1..], x), b[0], Coded(b[1..], y));
  }

  lemma CodedStarts(t: string, rest: string)
    ensures Coded(t, rest) != "" && (Coded(t, rest)[0] == '"' <==> t == "")
  {
    if t != "" {
      CodedCons(t, rest);
      EscapeStarts(t[0]);
    }
  }

  lemma SameText(a: string, b: string)
    requires a != "" && b != ""
    ensures a == b <==> a[0] == b[0] && a[1..] == b[1..]
  {
    assert a == [a[0]] + a[1..] && b == [b[0]] + b[1..];
  }

  /** Two coded texts that agree to the end of the second agree part by part. */
  lemma {:induction false} CodePrefix(a: string, x: string, b: string, y: string)
    ensures HasPrefix(Coded(a, x), Coded(b, y)) <==> a == b && HasPrefix(x, y)
  {
    if a == "" && b == "" {
      assert Coded(a, x) == ['"'] + x && Coded(b, y) == ['"'] + y;
      QuotePrefix(x, y);
    } else if a == "" || b == "" {
      CodedStarts(a, x);
      CodedStarts(b, y);
      PrefixTail(Coded(a, x), Coded(b, y));
    } else {
      CodeStep(a, x, b, y);
      CodePrefix(a[1..], x, b[1..], y);
      SameText(a, b);
    }
  }

  lemma QuotePrefix(x: string, y: string)
    ensures HasPrefix(['"'] + x, ['"'] + y) <==> HasPrefix(x, y)
  {
    PrefixTail(['"'] + x, ['"'] + y);
    assert (['"'] + x)[1..] == x && (['"'] + y)[1..] == y;
  }

  // ---- Where a text that begins with a quote can occur ----

  predicate Quoteless(s: string) {
    '"' !in s
  }

  lemma {:induction false} SkipQuoteless(u: string, s: string, w: string)
    requires Quoteless(u) && w != "" && w[0] == '"'
    ensures Occurs(u + s, w) <==> Occurs(s, w)
  {
    if u == "" {
      assert u + s == s;
    } else {
      assert (u + s)[1..] == u[1..] + s;
      PrefixTail(u + s, w);
      SkipQuoteless(u[1..], s, w);
    }
  }

  lemma QuoteOccurs(s: string, w: string)
    ensures Occurs(['"'] + s, w) <==> HasPrefix(['"'] + s, w) || Occurs(s, w)
  {
    assert (['"'] + s)[1..] == s;
  }

  /** A quote stands in escaped text only as the end of an escaped quote. */
  lemma SkipChar(c: char, s: string, w: string)
    requires w != "" && w[0] == '"'
    ensures Occurs(EscapeChar(c) + s, w) <==> (c == '"' && HasPrefix(['"'] + s, w)) || Occurs(s, w)
  {
    EscapeCharQuotes(c);
    if c == '"' {
      assert EscapeChar(c) + s == "\\" + (['"'] + s);
      SkipQuoteless("\\", ['"'] + s, w);
      QuoteOccurs(s, w);
    } else {
      SkipQuoteless(EscapeChar(c), s, w);
    }
  }

  /** The text occurs from a quote inside `t` on. */
  predicate Inside(t: string, rest: string, w: string) {
    t != "" && ((t[0] == '"' && HasPrefix(['"'] + Coded(t[1..], rest), w)) || Inside(t[1..], rest, w))
  }

  lemma {:induction false} SkipCoded(t: string, rest: string, w: string)
    requires w != "" && w[0] == '"'
    ensures Occurs(Coded(t, rest), w) <==> Inside(t, rest, w) || HasPrefix(['"'] + rest, w) || Occurs(rest, w)
  {
    if t == "" {
      assert Coded(t, rest) == ['"'] + rest;
      QuoteOccurs(rest, w);
    } else {
      CodedCons(t, rest);
      SkipChar(t[0], Coded(t[1..], rest), w);
      SkipCoded(t[1..], rest, w);
    }
  }

  // ---- Where the pair occurs in an encoding ----

  /** What follows the opening quote of the pair sought. */
  function Sought(key: string, value: string): string {
    Coded(key, Coded(":", Coded(value, "")))
  }

  lemma MarksStand()
    ensures Escape(":") == ":" && Escape(",") == ","
  {
    assert Escape("") == "" && ":"[1..] == "" && ","[1..] == "";
  }

  lemma PairIsCoded(key: string, value: string)
    ensures JsonPair(key, value) == ['"'] + Sought(key, value)
  {
    MarksStand();
  }

  /** What follows the closing quote of the first pair's value. */
  function After(pairs: Pairs): string
    requires pairs != []
  {
    if |pairs| == 1 then "}" else "," + EncodedTail(pairs[1..])
  }

  lemma RegroupToken(token: string, inner: string, rest: string)
    ensures (token + (['"'] + inner)) + rest == token + (['"'] + (inner + rest))
    ensures (['"'] + inner) + rest == ['"'] + (inner + rest)
  {
  }

  lemma TailSplits(pairs: Pairs)
    requires pairs != []
    ensures EncodedTail(pairs) == JsonPair(pairs[0].0, pairs[0].1) + After(pairs)
  {
  }

  /** What follows the opening quote of a first pair. */
  function FromKey(k: string, v: string, after: string): string {
    Coded(k, Coded(":", Coded(v, after)))
  }

  lemma SoughtThen(k: string, v: string, after: string)
    ensures Sought(k, v) + after == FromKey(k, v, after)
  {
    RegroupToken(Escape(v), "", after);
    assert "" + after == after;
    RegroupToken(Escape(":"), Coded(v, ""), after);
    RegroupToken(Escape(k), Coded(":", Coded(v, "")), after);
  }

  lemma TailIsCoded(pairs: Pairs)
    requires pairs != []
    ensures EncodedTail(pairs) == ['"'] + FromKey(pairs[0].0, pairs[0].1, After(pairs))
  {
    TailSplits(pairs);
    PairIsCoded(pairs[0].0, pairs[0].1);
    SoughtThen(pairs[0].0, pairs[0].1, After(pairs));
    RegroupToken("", Sought(pairs[0].0, pairs[0].1), After(pairs));
  }

  /** After a pair comes the closing brace, or a comma and the next pair. */
  lemma AfterIsCoded(pairs: Pairs)
    requires |pairs| > 1
    ensures After(pairs) == Coded(",", FromKey(pairs[1].0, pairs[1].1, After(pairs[1..])))
  {
    TailIsCoded(pairs[1..]);
    MarksStand();
  }

  lemma BraceHasNoPrefix(b: string, y: string)
    ensures !HasPrefix("}", Coded(b, y))
  {
    var w := Coded(b, y);
    assert w[|Escape(b)|] == '"';
    if |w| == 1 {
      assert "}"[..1] == "}";
    }
  }

  /** The text ends in a quote followed by the key. */
  predicate QuotedSuffix(t: string, key: string) {
    t != "" && ((t[0] == '"' && t[1..] == key) || QuotedSuffix(t[1..], key))
  }

  /** The first pair is the one sought, or its key ends like it, or the punctuation between pairs reads like it. */
  predicate FoundFirst(pairs: Pairs, key: string, value: string)
    requires pairs != []
  {
    || ((pairs[0].0 == key || QuotedSuffix(pairs[0].0, key)) && pairs[0].1 == value)
    || (|pairs| > 1 && key == ":" && pairs[0].1 == ":" && value == ",")
    || (|pairs| > 1 && key == "," && pairs[1].0 == ":" && value == ":")
  }

  predicate Found(pairs: Pairs, key: string, value: string) {
    pairs != [] && (FoundFirst(pairs, key, value) || Found(pairs[1..], key, value))
  }

  lemma AtKey(k: string, v: string, after: string, key: string, value: string)
    ensures HasPrefix(FromKey(k, v, after), Sought(key, value)) <==> k == key && v == value
  {
    CodePrefix(k, Coded(":", Coded(v, after)), key, Coded(":", Coded(value, "")));
    CodePrefix(":", Coded(v, after), ":", Coded(value, ""));
    CodePrefix(v, after, value, "");
  }

  lemma {:induction false} InsideKey(k: string, v: string, after: string, key: string, value: string)
    ensures Inside(k, Coded(":", Coded(v, after)), ['"'] + Sought(key, value)) <==> QuotedSuffix(k, key) && v == value
  {
    if k != "" {
      InsideKey(k[1..], v, after, key, value);
      QuotePrefix(FromKey(k[1..], v, after), Sought(key, value));
      AtKey(k[1..], v, after, key, value);
    }
  }

  /** What stands after a value never reads like a colon and a value. */
  lemma AfterIsNoColon(pairs: Pairs, y: string)
    requires pairs != []
    ensures !HasPrefix(After(pairs), Coded(":", y))
  {
    if |pairs| == 1 {
      BraceHasNoPrefix(":", y);
    } else {
      AfterIsCoded(pairs);
      CodePrefix(",", FromKey(pairs[1].0, pairs[1].1, After(pairs[1..])), ":", y);
    }
  }

  lemma {:induction false} InsideValue(pairs: Pairs, v: string, key: string, value: string)
    requires pairs != []
    ensures !Inside(v, After(pairs), ['"'] + Sought(key, value))
  {
    if v != "" {
      InsideValue(pairs, v[1..], key, value);
      QuotePrefix(Coded(v[1..], After(pairs)), Sought(key, value));
      AtValue(pairs, v[1..], key, value);
    }
  }

  lemma AtValue(pairs: Pairs, v: string, key: string, value: string)
    requires pairs != []
    ensures !HasPrefix(Coded(v, After(pairs)), Sought(key, value))
  {
    CodePrefix(v, After(pairs), key, Coded(":", Coded(value, "")));
    AfterIsNoColon(pairs, Coded(value, ""));
  }

  lemma AtColon(pairs: Pairs, key: string, value: string)
    requires pairs != []
    ensures HasPrefix(Coded(":", Coded(pairs[0].1, After(pairs))), Sought(key, value)) <==>
      |pairs| > 1 && key == ":" && pairs[0].1 == ":" && value == ","
  {
    CodePrefix(":", Coded(pairs[0].1, After(pairs)), key, Coded(":", Coded(value, "")));
    CodePrefix(pairs[0].1, After(pairs), ":", Coded(value, ""));
    if |pairs| == 1 {
      BraceHasNoPrefix(value, "");
    } else {
      AfterIsCoded(pairs);
      CodePrefix(",", FromKey(pairs[1].0, pairs[1].1, After(pairs[1..])), value, "");
    }
  }

  lemma AtComma(pairs: Pairs, key: string, value: string)
    requires pairs != []
    ensures HasPrefix(After(pairs), Sought(key, value)) <==>
      |pairs| > 1 && key == "," && pairs[1].0 == ":" && value == ":"
  {
    if |pairs| == 1 {
      BraceHasNoPrefix(key, Coded(":", Coded(value, "")));
    } else {
      var k, rest := pairs[1].0, Coded(pairs[1].1, After(pairs[1..]));
      AfterIsCoded(pairs);
      CodePrefix(",", Coded(k, Coded(":", rest)), key, Coded(":", Coded(value, "")));
      CodePrefix(k, Coded(":", rest), ":", Coded(value, ""));
      CodePrefix(":", rest, value, "");
    }
  }

  lemma Skip(t: string, rest: string, key: string, value: string)
    ensures Occurs(Coded(t, rest), JsonPair(key, value)) <==>
      || Inside(t, rest, ['"'] + Sought(key, value))
      || HasPrefix(rest, Sought(key, value)) || Occurs(rest, JsonPair(key, value))
  {
    PairIsCoded(key, value);
    SkipCoded(t, rest, JsonPair(key, value));
    QuotePrefix(rest, Sought(key, value));
  }

  lemma MarkHasNoInside(mark: string, rest: string, w: string)
    requires mark == ":" || mark == "," || mark == ""
    ensures !Inside(mark, rest, w)
  {
    assert mark != "" ==> mark[1..] == "";
    assert !Inside("", rest, w);
  }

  lemma FirstPairOccurs(pairs: Pairs, key: string, value: string)
    requires pairs != []
    ensures Occurs(EncodedTail(pairs), JsonPair(key, value)) <==>
      FoundFirst(pairs, key, value) || Occurs(After(pairs), JsonPair(key, value))
  {
    var k, v, after := pairs[0].0, pairs[0].1, After(pairs);
    TailIsCoded(pairs);
    assert EncodedTail(pairs) == Coded("", FromKey(k, v, after));
    Skip("", FromKey(k, v, after), key, value);
    Skip(k, Coded(":", Coded(v, after)), key, value);
    Skip(":", Coded(v, after), key, value);
    Skip(v, after, key, value);
    MarkHasNoInside("", FromKey(k, v, after), ['"'] + Sought(key, value));
    MarkHasNoInside(":", Coded(v, after), ['"'] + Sought(key, value));
    AtKey(k, v, after, key, value);
    InsideKey(k, v, after, key, value);
    AtColon(pairs, key, value);
    AtValue(pairs, v, key, value);
    InsideValue(pairs, v, key, value);
    AtComma(pairs, key, value);
  }

  lemma QuotelessLead(lead: string, pairs: Pairs, w: string)
    requires pairs != [] && Quoteless(lead) && w != "" && w[0] == '"'
    ensures Occurs(lead + EncodedTail(pairs), w) <==> Occurs(EncodedTail(pairs), w)
  {
    SkipQuoteless(lead, EncodedTail(pairs), w);
  }

  lemma BraceHasNoPair(s: string, w: string)
    requires s == "}" || s == "{}"
    requires w != "" && w[0] == '"'
    ensures !Occurs(s, w)
  {
    assert s + "" == s && !Occurs("", w);
    SkipQuoteless(s, "", w);
  }

  /** Where the pair occurs in an encoding, for any texts whatever. */
  lemma {:induction false} OccursExactly(pairs: Pairs, key: string, value: string)
    requires pairs != []
    ensures Occurs(EncodedTail(pairs), JsonPair(key, value)) <==> Found(pairs, key, value)
  {
    FirstPairOccurs(pairs, key, value);
    if |pairs| == 1 {
      BraceHasNoPair("}", JsonPair(key, value));
    } else {
      OccursExactly(pairs[1..], key, value);
      QuotelessLead(",", pairs[1..], JsonPair(key, value));
    }
  }

  // ---- The filter against the labels ----

  predicate Listed(pairs: Pairs, key: string, value: string) {
    exists i :: 0 <= i < |pairs| && pairs[i] == (key, value)
  }

  /** Some pair has the value, and a key that ends in a quote and the key. */
  predicate QuotedMatch(pairs: Pairs, key: string, value: string) {
    exists i :: 0 <= i < |pairs| && HasSuffix(pairs[i].0, "\"" + key) && pairs[i].1 == value
  }

  /** The colon after a key, or the comma after a value, stands where the sought key would. */
  predicate PunctuationMatch(pairs: Pairs, key: string, value: string) {
    exists i :: 0 <= i < |pairs| - 1 && PunctuationAt(pairs, i, key, value)
  }

  predicate PunctuationAt(pairs: Pairs, i: nat, key: string, value: string)
    requires i < |pairs| - 1
  {
    (key == ":" && value == "," && pairs[i].1 == ":") || (key == "," && value == ":" && pairs[i + 1].0 == ":")
  }

  lemma {:induction false} QuotedSuffixIsSuffix(t: string, key: string)
    ensures QuotedSuffix(t, key) <==> HasSuffix(t, "\"" + key)
  {
    var w := "\"" + key;
    if t != "" {
      QuotedSuffixIsSuffix(t[1..], key);
      if |t| == |w| {
        assert t[|t| - |w|..] == t && w[1..] == key;
        assert t == [t[0]] + t[1..];
      } else if |t| > |w| {
        assert t[|t| - |w|..] == t[1..][|t[1..]| - |w|..];
      }
    }
  }

  lemma {:induction false} FoundExactly(pairs: Pairs, key: string, value: string)
    ensures Found(pairs, key, value) <==>
      Listed(pairs, key, value) || QuotedMatch(pairs, key, value) || PunctuationMatch(pairs, key, value)
  {
    if pairs != [] {
      FoundExactly(pairs[1..], key, value);
      ListedSplit(pairs, key, value);
      QuotedSplit(pairs, key, value);
      PunctuationSplit(pairs, key, value);
    }
  }

  lemma ListedSplit(pairs: Pairs, key: string, value: string)
    requires pairs != []
    ensures Listed(pairs, key, value) <==> pairs[0] == (key, value) || Listed(pairs[1..], key, value)
  {
    var rest := pairs[1..];
    if Listed(rest, key, value) {
      var i :| 0 <= i < |rest| && rest[i] == (key, value);
      assert pairs[i + 1] == (key, value);
    }
    if Listed(pairs, key, value) && pairs[0] != (key, value) {
      var i :| 0 <= i < |pairs| && pairs[i] == (key, value);
      assert rest[i - 1] == (key, value);
    }
  }

  lemma QuotedSplit(pairs: Pairs, key: string, value: string)
    requires pairs != []
    ensures QuotedMatch(pairs, key, value) <==>
      (QuotedSuffix(pairs[0].0, key) && pairs[0].1 == value) || QuotedMatch(pairs[1..], key, value)
  {
    var rest, w := pairs[1..], "\"" + key;
    QuotedSuffixIsSuffix(pairs[0].0, key);
    if QuotedMatch(rest, key, value) {
      var i :| 0 <= i < |rest| && HasSuffix(rest[i].0, w) && rest[i].1 == value;
      assert HasSuffix(pairs[i + 1].0, w);
    }
    if QuotedMatch(pairs, key, value) {
      var i :| 0 <= i < |pairs| && HasSuffix(pairs[i].0, w) && pairs[i].1 == value;
      if i > 0 {
        assert HasSuffix(rest[i - 1].0, w);
      }
    }
  }

  lemma PunctuationSplit(pairs: Pairs, key: string, value: string)
    requires pairs != []
    ensures PunctuationMatch(pairs, key, value) <==>
      (|pairs| > 1 && PunctuationAt(pairs, 0, key, value)) || PunctuationMatch(pairs[1..], key, value)
  {
    var rest := pairs[1..];
    if PunctuationMatch(rest, key, value) {
      var i :| 0 <= i < |rest| - 1 && PunctuationAt(rest, i, key, value);
      assert PunctuationAt(pairs, i + 1, key, value);
    }
    if PunctuationMatch(pairs, key, value) {
      var i :| 0 <= i < |pairs| - 1 && PunctuationAt(pairs, i, key, value);
      if i > 0 {
        assert PunctuationAt(rest, i - 1, key, value);
      }
    }
  }

  lemma {:induction false} EscapePlain(s: string)
    requires Plain(s)
    ensures Plain(Escape(s))
  {
    if s != "" {
      assert s == [s[0]] + s[1..];
      EscapePlain(s[1..]);
      EscapeCharPlain(s[0]);
    }
  }

  lemma EscapeCharPlain(c: char)
    requires c != '%' && c != '_'
    ensures Plain(EscapeChar(c))
  {
    if c < ' ' || c == '<' || c == '>' || c == '&' {
      DigitRoundTrip(c as int / 16);
      DigitRoundTrip(c as int % 16);
    }
  }

  /** The encoded pair stands in the stored text exactly for these label maps, whatever the texts are. */
  lemma EncodingHoldsExactly(pairs: Pairs, key: string, value: string)
    ensures Occurs(Encoded(pairs), JsonPair(key, value)) <==>
      Listed(pairs, key, value) || QuotedMatch(pairs, key, value) || PunctuationMatch(pairs, key, value)
  {
    FoundExactly(pairs, key, value);
    if pairs == [] {
      BraceHasNoPair("{}", JsonPair(key, value));
    } else {
      QuotelessLead("{", pairs, JsonPair(key, value));
      OccursExactly(pairs, key, value);
    }
  }

  /**
   For a query without wildcards and any label map, the filter matches exactly the listed pair,
   a pair whose key ends in a quote and the key, and the punctuation that reads like the pair.
   */
  lemma FilterExactly(pairs: Pairs, key: string, value: string)
    requires Plain(key) && Plain(value)
    ensures Matches(pairs, key, value) <==>
      Listed(pairs, key, value) || QuotedMatch(pairs, key, value) || PunctuationMatch(pairs, key, value)
  {
    EscapePlain(key);
    EscapePlain(value);
    LikeIsSubstring(Encoded(pairs), JsonPair(key, value));
    EncodingHoldsExactly(pairs, key, value);
  }

  /** The stored map, whatever the order its keys are written in. */
  function MapOf(pairs: Pairs): map<string, string> {
    map i | 0 <= i < |pairs| && FirstWith(pairs, i) :: pairs[i].0 := pairs[i].1
  }

  predicate FirstWith(pairs: Pairs, i: nat)
    requires i < |pairs|
  {
    forall j :: 0 <= j < i ==> pairs[j].0 != pairs[i].0
  }

  predicate DistinctKeys(pairs: Pairs) {
    forall i, j :: 0 <= i < j < |pairs| ==> pairs[i].0 != pairs[j].0
  }

  /** No key ends in a quote and the key sought. */
  predicate Clear(pairs: Pairs, key: string) {
    forall i :: 0 <= i < |pairs| ==> !HasSuffix(pairs[i].0, "\"" + key)
  }

  /** The encoding reads like the pair where another key ends in it, or where its punctuation does. */
  predicate Misread(pairs: Pairs, key: string, value: string) {
    QuotedMatch(pairs, key, value) || PunctuationMatch(pairs, key, value)
  }

  /**
   For a query without wildcards the filter is map lookup exactly when the pair is there or the
   encoding is not misread; it never is for a clear map and a key other than a lone colon or comma.
   */
  lemma FilterIsLookup(pairs: Pairs, key: string, value: string)
    requires DistinctKeys(pairs) && Plain(key) && Plain(value)
    ensures var there := key in MapOf(pairs) && MapOf(pairs)[key] == value;
      && ((Matches(pairs, key, value) <==> there) <==> there || !Misread(pairs, key, value))
      && (Clear(pairs, key) && key != ":" && key != "," ==> (Matches(pairs, key, value) <==> there))
  {
    FilterExactly(pairs, key, value);
    ListedIsLookup(pairs, key, value);
    if key != ":" && key != "," {
      NoPunctuationMatch(pairs, key, value);
    }
  }

  lemma NoPunctuationMatch(pairs: Pairs, key: string, value: string)
    requires key != ":" && key != ","
    ensures !PunctuationMatch(pairs, key, value)
  {
  }

  lemma ListedIsLookup(pairs: Pairs, key: string, value: string)
    requires DistinctKeys(pairs)
    ensures Listed(pairs, key, value) <==> key in MapOf(pairs) && MapOf(pairs)[key] == value
  {
    if Listed(pairs, key, value) {
      var i :| 0 <= i < |pairs| && pairs[i] == (key, value);
      assert FirstWith(pairs, i);
    }
    if key in MapOf(pairs) && MapOf(pairs)[key] == value {
      var i :| 0 <= i < |pairs| && FirstWith(pairs, i) && pairs[i].0 == key && pairs[i].1 == value;
      assert pairs[i] == (key, value);
    }
  }

  /** Reading a key that is not there gives the empty text. */
  function ValueOf(labels: map<string, string>, key: string): string {
    if key in labels then labels[key] else ""
  }

  /** A deployment target's selector wants each of its values; a missing label counts as empty. */
  predicate Selects(selector: Pairs, labels: map<string, string>) {
    forall i :: 0 <= i < |selector| ==> ValueOf(labels, selector[i].0) == selector[i].1
  }

  /**
   A selector and a filter for the same pair part exactly where one of two things happens alone:
   an empty value is sought of a missing label, or the encoding is misread for an absent pair.
   */
  lemma SelectorAgreesExactly(pairs: Pairs, key: string, value: string)
    requires DistinctKeys(pairs) && Plain(key) && Plain(value)
    ensures (Selects([(key, value)], MapOf(pairs)) <==> Matches(pairs, key, value)) <==>
      Listed(pairs, key, value) || (Misread(pairs, key, value) <==> value == "" && key !in MapOf(pairs))
  {
    FilterExactly(pairs, key, value);
    ListedIsLookup(pairs, key, value);
    var selector := [(key, value)];
    assert selector[0] == (key, value);
    assert Selects(selector, MapOf(pairs)) <==> ValueOf(MapOf(pairs), key) == value;
  }

  // ---- What holds for any text ----

  /** A certificate that carries the label is never missed. */
  lemma ListedMatches(pairs: Pairs, key: string, value: string)
    requires Listed(pairs, key, value)
    ensures Matches(pairs, key, value)
  {
    EncodingHoldsExactly(pairs, key, value);
    OccurrenceIsLike(Encoded(pairs), JsonPair(key, value));
  }

  /** A key that ends in a quote and another key matches as that other key. */
  lemma QuotedKeyMatchesWrongly(before: string, key: string, value: string)
    ensures var pairs := [(before + "\"" + key, value)];
      Matches(pairs, key, value) && !Listed(pairs, key, value)
  {
    var long, w := before + "\"" + key, "\"" + key;
    var pairs := [(long, value)];
    assert long[|long| - |w|..] == w && pairs[0].0 == long;
    assert QuotedMatch(pairs, key, value);
    EncodingHoldsExactly(pairs, key, value);
    OccurrenceIsLike(Encoded(pairs), JsonPair(key, value));
    assert |long| > |key|;
  }

  lemma {:induction false} LikeBehind(before: string, s: string, pattern: string)
    requires Like(s, pattern)
    ensures Like(before + s, before + pattern) && Like(before + s, "%" + pattern)
  {
    assert ("%" + pattern)[1..] == pattern;
    if before == "" {
      assert before + s == s && before + pattern == pattern;
    } else {
      assert (before + s)[1..] == before[1..] + s && (before + pattern)[1..] == before[1..] + pattern;
      LikeBehind(before[1..], s, pattern);
    }
  }

  lemma {:induction false} LikeFurtherBehind(before: string, s: string, pattern: string)
    requires Like(s, "%" + pattern)
    ensures Like(before + s, "%" + pattern)
  {
    if before == "" {
      assert before + s == s;
    } else {
      assert (before + s)[1..] == before[1..] + s;
      LikeFurtherBehind(before[1..], s, pattern);
    }
  }

  /** The text of a pair up to its value. */
  function UpToValue(key: string): string {
    ['"'] + (Escape(key) + (['"'] + (":" + ['"'])))
  }

  lemma PairAroundValue(key: string, value: string)
    ensures JsonPair(key, value) == UpToValue(key) + (Escape(value) + ['"'])
  {
  }

  lemma ValueLike(lead: string, v: string, after: string)
    ensures Like((lead + (v + ['"'])) + after, "%" + (lead + ("%" + "\"%")))
  {
    var end := ['"'] + after;
    assert ['"'] + "%" == "\"%" && end[..1] == ['"'];
    PrefixIsLike(end, ['"']);
    LikeBehind(v, end, "\"%");
    LikeBehind(lead, v + end, "%" + "\"%");
    LikeBehind("", lead + (v + end), lead + ("%" + "\"%"));
    assert "" + (lead + (v + end)) == lead + (v + end);
    RegroupTail(lead, v, after);
  }

  lemma LikeFurther(first: string, tail: string, pattern: string)
    requires Like(tail, "%" + pattern)
    ensures Like(first + ("," + tail), "%" + pattern)
  {
    LikeFurtherBehind(",", tail, pattern);
    LikeFurtherBehind(first, "," + tail, pattern);
  }

  lemma {:induction false} AnyValueInTail(pairs: Pairs, i: nat)
    requires i < |pairs|
    ensures Like(EncodedTail(pairs), "%" + (UpToValue(pairs[i].0) + ("%" + "\"%")))
  {
    TailSplits(pairs);
    if i == 0 {
      PairAroundValue(pairs[0].0, pairs[0].1);
      ValueLike(UpToValue(pairs[0].0), Escape(pairs[0].1), After(pairs));
    } else {
      AnyValueInTail(pairs[1..], i - 1);
      LikeFurther(JsonPair(pairs[0].0, pairs[0].1), EncodedTail(pairs[1..]), UpToValue(pairs[i].0) + ("%" + "\"%"));
    }
  }

  lemma RegroupTail(lead: string, v: string, after: string)
    ensures (lead + (v + ['"'])) + after == lead + (v + (['"'] + after))
  {
  }

  lemma RegroupPattern(lead: string)
    ensures "%" + (lead + ("%" + ['"'])) + "%" == "%" + (lead + ("%" + "\"%"))
  {
  }

  /** A percent sign for a value matches every certificate that has the key at all. */
  lemma PercentMatchesAnyValue(pairs: Pairs, i: nat)
    requires i < |pairs|
    ensures Matches(pairs, pairs[i].0, "%")
  {
    var key := pairs[i].0;
    AnyValueInTail(pairs, i);
    LikeFurtherBehind("{", EncodedTail(pairs), UpToValue(key) + ("%" + "\"%"));
    PairAroundValue(key, "%");
    assert Escape("%") == "%" by {
      assert "%"[1..] == "" && Escape("") == "";
    }
    RegroupPattern(UpToValue(key));
  }

  // ---- For which queries the filter is exact ----

  lemma {:induction false} EscapeConcat(a: string, b: string)
    ensures Escape(a + b) == Escape(a) + Escape(b)
  {
    if a == "" {
      assert a + b == b;
    } else {
      assert (a + b)[1..] == a[1..] + b;
      EscapeConcat(a[1..], b);
    }
  }

  /** Escaping leaves an unescaped character where it is. */
  lemma EscapeAround(a: string, c: char, b: string)
    requires EscapeChar(c) == [c]
    ensures Escape(a + ([c] + b)) == Escape(a) + ([c] + Escape(b))
  {
    EscapeConcat(a, [c] + b);
    assert ([c] + b)[1..] == b;
  }

  /** A wildcard matches the letter that stands in its place. */
  lemma WildcardLike(lead: string, wildcard: char, rest: string)
    requires wildcard == '%' || wildcard == '_'
    ensures Like("{" + (lead + (['x'] + rest)) + "}", "%" + (lead + ([wildcard] + rest)) + "%")
  {
    var s, pattern := rest + "}", rest + "%";
    assert s[..|rest|] == rest;
    PrefixIsLike(s, rest);
    LikeBehind("", s, pattern);
    assert "" + s == s;
    var one, sought := ['x'] + s, [wildcard] + pattern;
    assert one[1..] == s && sought[1..] == pattern;
    assert Like(s, "%" + pattern);
    assert Like(one, sought);
    LikeBehind(lead, one, sought);
    LikeBehind("{", lead + one, lead + sought);
    assert "{" + (lead + (['x'] + rest)) + "}" == "{" + (lead + one);
    assert "%" + (lead + ([wildcard] + rest)) + "%" == "%" + (lead + sought);
  }

  lemma WildcardInKey(a: string, wildcard: char, b: string, value: string)
    requires wildcard == '%' || wildcard == '_'
    ensures Matches([(a + (['x'] + b), value)], a + ([wildcard] + b), value)
  {
    EscapeAround(a, 'x', b);
    EscapeAround(a, wildcard, b);
    var end := ['"'] + (":" + (['"'] + (Escape(value) + ['"'])));
    var lead, rest := ['"'] + Escape(a), Escape(b) + end;
    RegroupAround(Escape(a), 'x', Escape(b), end);
    RegroupAround(Escape(a), wildcard, Escape(b), end);
    WildcardLike(lead, wildcard, rest);
    OneRow(a + (['x'] + b), value);
  }

  lemma RegroupAround(a: string, c: char, b: string, end: string)
    ensures ['"'] + ((a + ([c] + b)) + end) == (['"'] + a) + ([c] + (b + end))
  {
  }

  lemma OneRow(key: string, value: string)
    ensures Encoded([(key, value)]) == "{" + JsonPair(key, value) + "}"
  {
  }

  lemma WildcardInValue(key: string, a: string, wildcard: char, b: string)
    requires wildcard == '%' || wildcard == '_'
    ensures Matches([(key, a + (['x'] + b))], key, a + ([wildcard] + b))
  {
    EscapeAround(a, 'x', b);
    EscapeAround(a, wildcard, b);
    PairAroundValue(key, a + (['x'] + b));
    PairAroundValue(key, a + ([wildcard] + b));
    RegroupValue(UpToValue(key), Escape(a), 'x', Escape(b));
    RegroupValue(UpToValue(key), Escape(a), wildcard, Escape(b));
    WildcardLike(UpToValue(key) + Escape(a), wildcard, Escape(b) + ['"']);
    OneRow(key, a + (['x'] + b));
  }

  lemma RegroupValue(lead: string, a: string, c: char, b: string)
    ensures lead + ((a + ([c] + b)) + ['"']) == (lead + a) + ([c] + (b + ['"']))
  {
  }

  /** A text with a wildcard, cut around it. */
  lemma CutAtWildcard(t: string) returns (a: string, wildcard: char, b: string)
    requires !Plain(t)
    ensures t == a + ([wildcard] + b) && (wildcard == '%' || wildcard == '_')
    ensures |a + (['x'] + b)| == |t| && a + (['x'] + b) != t
  {
    var i :| 0 <= i < |t| && (t[i] == '%' || t[i] == '_');
    a, wildcard, b := t[..i], t[i], t[i + 1..];
    assert (a + (['x'] + b))[i] == 'x';
  }

  predicate PunctuationPair(key: string, value: string) {
    (key == ":" && value == ",") || (key == "," && value == ":")
  }

  predicate Before(a: string, b: string) {
    b != "" && (a == "" || a[0] < b[0] || (a[0] == b[0] && Before(a[1..], b[1..])))
  }

  /** The keys in the order the encoder writes them. */
  predicate Sorted(pairs: Pairs) {
    forall i, j :: 0 <= i < j < |pairs| ==> Before(pairs[i].0, pairs[j].0)
  }

  lemma {:induction false} NotBeforeItself(a: string)
    ensures !Before(a, a)
  {
    if a != "" {
      NotBeforeItself(a[1..]);
    }
  }

  lemma SortedIsDistinct(pairs: Pairs)
    requires Sorted(pairs)
    ensures DistinctKeys(pairs)
  {
    forall i, j | 0 <= i < j < |pairs|
      ensures pairs[i].0 != pairs[j].0
    {
      assert Before(pairs[i].0, pairs[j].0);
      NotBeforeItself(pairs[i].0);
    }
  }

  lemma PunctuationShown(key: string, value: string) returns (pairs: Pairs)
    requires PunctuationPair(key, value)
    ensures Sorted(pairs) && Clear(pairs, key) && Matches(pairs, key, value) && !Listed(pairs, key, value)
  {
    pairs := if key == ":" then [("a", ":"), ("b", "")] else [("0", ""), (":", "")];
    assert PunctuationAt(pairs, 0, key, value);
    FilterExactly(pairs, key, value);
  }

  /** A map, with its keys in the encoder's order, that the query matches although it does not list the pair. */
  lemma InexactShown(key: string, value: string) returns (pairs: Pairs)
    requires !Plain(key) || !Plain(value) || PunctuationPair(key, value)
    ensures Sorted(pairs) && Clear(pairs, key) && Matches(pairs, key, value) && !Listed(pairs, key, value)
  {
    if !Plain(key) {
      var a, wildcard, b := CutAtWildcard(key);
      pairs := [(a + (['x'] + b), value)];
      WildcardInKey(a, wildcard, b, value);
    } else if !Plain(value) {
      var a, wildcard, b := CutAtWildcard(value);
      pairs := [(key, a + (['x'] + b))];
      WildcardInValue(key, a, wildcard, b);
    } else {
      pairs := PunctuationShown(key, value);
    }
  }

  /**
   Over all label maps none of whose keys ends in a quote and the key, the filter says exactly
   whether the pair is listed if and only if the query has no wildcard and is no punctuation. It
   is the same over the keys in the encoder's order only and over those in any order.
   */
  lemma ExactQueries(key: string, value: string)
    ensures (forall pairs: Pairs | Sorted(pairs) && Clear(pairs, key) ::
        Matches(pairs, key, value) <==> Listed(pairs, key, value)) <==>
      Plain(key) && Plain(value) && !PunctuationPair(key, value)
    ensures (forall pairs: Pairs | DistinctKeys(pairs) && Clear(pairs, key) ::
        Matches(pairs, key, value) <==> Listed(pairs, key, value)) <==>
      Plain(key) && Plain(value) && !PunctuationPair(key, value)
  {
    forall pairs: Pairs | Sorted(pairs)
      ensures DistinctKeys(pairs)
    {
      SortedIsDistinct(pairs);
    }
    if Plain(key) && Plain(value) && !PunctuationPair(key, value) {
      forall pairs: Pairs | DistinctKeys(pairs) && Clear(pairs, key)
        ensures Matches(pairs, key, value) <==> Listed(pairs, key, value)
      {
        FilterExactly(pairs, key, value);
      }
    } else {
      var pairs := InexactShown(key, value);
    }
  }
}
