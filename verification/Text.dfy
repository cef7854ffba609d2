/**
 The string operations of the Go standard library that Certio's text rules rest on,
 over ASCII text, and the laws the other modules use.
 */
module Text {

  datatype Option<+T> = None | Some(value: T)

  function LowerChar(c: char): char {
    if 'A' <= c <= 'Z' then (c as int + 32) as char else c
  }

  /** strings.ToLower */
  function Lower(s: string): (r: string)
    ensures |r| == |s|
    ensures forall i :: 0 <= i < |s| ==> r[i] == LowerChar(s[i])
  {
    seq(|s|, i requires 0 <= i < |s| => LowerChar(s[i]))
  }

  /** strings.EqualFold */
  predicate EqualFold(a: string, b: string) {
    Lower(a) == Lower(b)
  }

  predicate IsSpace(c: char) {
    c in " \t\n\r" || c == '\U{000B}' || c == '\U{000C}'
  }

  function TrimLeft(s: string): (r: string)
    ensures r != "" ==> !IsSpace(r[0])
  {
    if s == "" || !IsSpace(s[0]) then s else TrimLeft(s[1..])
  }

  function TrimRight(s: string): (r: string)
    ensures |r| <= |s| && r == s[..|r|]
    ensures r != "" ==> !IsSpace(r[|r| - 1])
  {
    if s == "" || !IsSpace(s[|s| - 1]) then s else TrimRight(s[..|s| - 1])
  }

  /** strings.TrimSpace */
  function TrimSpace(s: string): (r: string)
    ensures Trimmed(r)
  {
    TrimRight(TrimLeft(s))
  }

  /** No white space at either end. */
  predicate Trimmed(s: string) {
    s != "" ==> !IsSpace(s[0]) && !IsSpace(s[|s| - 1])
  }

  predicate HasPrefix(s: string, p: string) {
    p <= s
  }

  predicate HasSuffix(s: string, p: string) {
    |p| <= |s| && s[|s| - |p|..] == p
  }

  function TrimPrefix(s: string, p: string): string {
    if HasPrefix(s, p) then s[|p|..] else s
  }

  function TrimSuffix(s: string, p: string): string {
    if HasSuffix(s, p) then s[..|s| - |p|] else s
  }

  predicate Contains(s: string, p: string) {
    exists i :: 0 <= i <= |s| && OccursAt(s, p, i)
  }

  predicate OccursAt(s: string, p: string, i: int) {
    0 <= i <= |s| - |p| && s[i..i + |p|] == p
  }

  /** strings.Index of a single character, or -1. */
  function Index(s: string, c: char): (i: int)
    ensures -1 <= i < |s|
    ensures i >= 0 ==> s[i] == c && forall j :: 0 <= j < i ==> s[j] != c
    ensures i == -1 <==> c !in s
  {
    if s == "" then -1
    else if s[0] == c then 0
    else
      var j := Index(s[1..], c);
      assert s == [s[0]] + s[1..];
      if j < 0 then -1 else j + 1
  }

  /** strings.Split on a single character: never empty, "" gives [""]. */
  function Split(s: string, c: char): (parts: seq<string>)
    ensures |parts| >= 1
  {
    if s == "" then [""] else SplitCons(s[0], Split(s[1..], c), c)
  }

  function SplitCons(first: char, rest: seq<string>, c: char): (parts: seq<string>)
    requires |rest| >= 1
    ensures |parts| >= 1
  {
    if first == c then [""] + rest else [[first] + rest[0]] + rest[1..]
  }

  lemma TrimSpaceFixed(s: string)
    requires Trimmed(s)
    ensures TrimSpace(s) == s
  {
  }

  /** A blank, or one of the characters from tab to carriage return. */
  predicate IsBlank(c: char) {
    c == ' ' || 9 <= c as int <= 13
  }

  predicate BlankIn(s: string, from: int, to: int) {
    forall i :: 0 <= from <= i < to <= |s| ==> IsBlank(s[i])
  }

  lemma {:induction false} TrimLeftExactly(s: string) returns (from: nat)
    ensures from <= |s| && TrimLeft(s) == s[from..] && BlankIn(s, 0, from)
  {
    if s == "" || !IsSpace(s[0]) {
      from := 0;
    } else {
      var rest := s[1..];
      var later := TrimLeftExactly(rest);
      from := later + 1;
      assert forall i :: 1 <= i < from ==> s[i] == rest[i - 1];
    }
  }

  lemma {:induction false} TrimRightExactly(s: string)
    ensures BlankIn(s, |TrimRight(s)|, |s|)
  {
    if s != "" && IsSpace(s[|s| - 1]) {
      var rest := s[..|s| - 1];
      TrimRightExactly(rest);
      assert forall i :: 0 <= i < |rest| ==> s[i] == rest[i];
    }
  }

  /** Trimming cuts white space off both ends and nothing else, until there is none. */
  lemma TrimSpaceExactly(s: string) returns (from: nat, to: nat)
    ensures from <= to <= |s| && TrimSpace(s) == s[from..to]
    ensures BlankIn(s, 0, from) && BlankIn(s, to, |s|) && NoBlankEnds(TrimSpace(s))
  {
    from := TrimLeftExactly(s);
    var left := s[from..];
    to := from + |TrimRight(left)|;
    TrimRightExactly(left);
    assert forall i :: to <= i < |s| ==> s[i] == left[i - from];
    NoSpaceNoBlank(TrimSpace(s));
  }

  predicate NoBlankEnds(s: string) {
    s != "" ==> !IsBlank(s[0]) && !IsBlank(s[|s| - 1])
  }

  lemma NoSpaceNoBlank(s: string)
    ensures Trimmed(s) <==> NoBlankEnds(s)
  {
  }

  /** The letters of English move by the distance between the cases, and nothing else does. */
  lemma LowerExactly(s: string, lower: string)
    ensures Lower(s) == lower <==>
      && |lower| == |s|
      && forall i :: 0 <= i < |s| ==> lower[i] as int == s[i] as int + if 65 <= s[i] as int < 91 then 32 else 0
  {
    if |lower| == |s| {
      forall i | 0 <= i < |s|
        ensures Lower(s)[i] as int == s[i] as int + if 65 <= s[i] as int < 91 then 32 else 0
      {
      }
    }
  }

  lemma LowerLower(s: string)
    ensures Lower(Lower(s)) == Lower(s)
  {
  }

  lemma LowerSlice(s: string, i: nat, j: nat)
    requires i <= j <= |s|
    ensures Lower(s[i..j]) == Lower(s)[i..j]
  {
  }

  lemma LowerConcat(a: string, b: string)
    ensures Lower(a + b) == Lower(a) + Lower(b)
  {
  }

  /** Splitting around one separator splits both sides independently. */
  lemma {:induction false} SplitConcat(a: string, b: string, c: char)
    ensures Split(a + [c] + b, c) == Split(a, c) + Split(b, c)
  {
    var whole := a + [c] + b;
    if a == "" {
      assert whole[1..] == b;
    } else {
      assert whole[1..] == a[1..] + [c] + b;
      SplitConcat(a[1..], b, c);
      SplitConsConcat(a[0], Split(a[1..], c), Split(b, c), c);
    }
  }

  lemma SplitConsConcat(first: char, left: seq<string>, right: seq<string>, c: char)
    requires |left| >= 1
    ensures SplitCons(first, left + right, c) == SplitCons(first, left, c) + right
  {
  }

  lemma SplitConsInjective(x: char, left: seq<string>, y: char, right: seq<string>, c: char)
    requires |left| >= 1 && |right| >= 1
    requires SplitCons(x, left, c) == SplitCons(y, right, c)
    ensures x == y && left == right
  {
    var parts := SplitCons(x, left, c);
    assert x == c <==> parts[0] == "";
    assert y == c <==> parts[0] == "";
    if x == c {
      assert left == parts[1..] == right;
    } else {
      assert parts[0][0] == x && parts[0][0] == y;
      assert left[0] == parts[0][1..] == right[0];
      assert left == [left[0]] + parts[1..];
      assert right == [right[0]] + parts[1..];
    }
  }

  lemma SplitConsNotBlank(first: char, rest: seq<string>, c: char)
    requires |rest| >= 1
    ensures SplitCons(first, rest, c) != [""]
  {
    if first != c {
      assert |SplitCons(first, rest, c)[0]| >= 1;
    }
  }

  /** Split loses nothing: equal parts mean equal strings. */
  lemma {:induction false} SplitInjective(a: string, b: string, c: char)
    requires Split(a, c) == Split(b, c)
    ensures a == b
  {
    if a == "" || b == "" {
      var s := if a == "" then b else a;
      if s != "" {
        SplitConsNotBlank(s[0], Split(s[1..], c), c);
      }
    } else {
      SplitConsInjective(a[0], Split(a[1..], c), b[0], Split(b[1..], c), c);
      SplitInjective(a[1..], b[1..], c);
    }
  }

  function Join(parts: seq<string>, c: char): string
    requires |parts| >= 1
  {
    if |parts| == 1 then parts[0] else parts[0] + [c] + Join(parts[1..], c)
  }

  predicate NoneHolds(parts: seq<string>, c: char) {
    forall i :: 0 <= i < |parts| ==> c !in parts[i]
  }

  lemma {:induction false} SplitOfOne(s: string, c: char)
    requires c !in s
    ensures Split(s, c) == [s]
  {
    if s != "" {
      SplitOfOne(s[1..], c);
      assert [s[0]] + s[1..] == s;
    }
  }

  lemma {:induction false} SplitJoins(s: string, c: char)
    ensures Join(Split(s, c), c) == s && NoneHolds(Split(s, c), c)
  {
    if s != "" {
      var rest := Split(s[1..], c);
      SplitJoins(s[1..], c);
      if s[0] == c {
        assert ([""] + rest)[1..] == rest;
      } else {
        var longer := [s[0]] + rest[0];
        assert ([longer] + rest[1..])[1..] == rest[1..];
        assert |rest| > 1 ==> [s[0]] + (rest[0] + [c] + Join(rest[1..], c)) == longer + [c] + Join(rest[1..], c);
      }
      assert s == [s[0]] + s[1..];
    }
  }

  /** Splitting gives exactly the parts that join to the text without holding the separator. */
  lemma {:induction false} SplitExactly(s: string, parts: seq<string>, c: char)
    ensures Split(s, c) == parts <==> |parts| >= 1 && Join(parts, c) == s && NoneHolds(parts, c)
  {
    SplitJoins(s, c);
    if |parts| >= 1 && Join(parts, c) == s && NoneHolds(parts, c) {
      JoinSplits(parts, c);
    }
  }

  lemma {:induction false} JoinSplits(parts: seq<string>, c: char)
    requires |parts| >= 1 && NoneHolds(parts, c)
    ensures Split(Join(parts, c), c) == parts
  {
    SplitOfOne(parts[0], c);
    if |parts| > 1 {
      JoinSplits(parts[1..], c);
      SplitConcat(parts[0], Join(parts[1..], c), c);
      assert [parts[0]] + parts[1..] == parts;
    } else {
      assert [parts[0]] == parts;
    }
  }
}
