/** Serial numbers as text: lower-case hexadecimal, padded to whole bytes. */
module Serial {
  import opened Text

  const LOWER_DIGITS := "0123456789abcdef"

  function DigitOf(n: nat): char
    requires n < 16
  {
    LOWER_DIGITS[n]
  }

  function Hex(n: nat): string {
    if n < 16 then [DigitOf(n)] else Hex(n / 16) + [DigitOf(n % 16)]
  }

  /** What printing a big integer in base sixteen gives: a sign only when negative. */
  function Printed(n: int): string {
    if n < 0 then ['-'] + Hex(-n) else Hex(n)
  }

  function FormatSerial(n: int): string {
    if |Printed(n)| % 2 == 1 then ['0'] + Printed(n) else Printed(n)
  }

  function DigitValue(c: char): Option<nat> {
    if '0' <= c <= '9' then Some(c as nat - '0' as nat)
    else if 'a' <= c <= 'f' then Some(c as nat - 'a' as nat + 10)
    else if 'A' <= c <= 'F' then Some(c as nat - 'A' as nat + 10)
    else None
  }

  /** The value of a run of digits in either case; None for anything else, or for no digits. */
  function ParseDigits(s: string): Option<nat> {
    if s == "" then None
    else
      match DigitValue(s[|s| - 1])
      case None => None
      case Some(digit) =>
        if |s| == 1 then Some(digit)
        else
          match ParseDigits(s[..|s| - 1])
          case None => None
          case Some(high) => Some(16 * high + digit)
  }

  function Signed(negative: bool, magnitude: Option<nat>): Option<int> {
    match magnitude
    case None => None
    case Some(n) => Some(if negative then -(n as int) else n)
  }

  /** An optional sign, then digits. */
  function ParseSerial(s: string): Option<int> {
    if s != "" && s[0] == '-' then Signed(true, ParseDigits(s[1..]))
    else if s != "" && s[0] == '+' then Signed(false, ParseDigits(s[1..]))
    else Signed(false, ParseDigits(s))
  }

  lemma DigitRoundTrip(n: nat)
    requires n < 16
    ensures DigitValue(DigitOf(n)) == Some(n)
  {
  }

  lemma {:induction false} HexParses(n: nat)
    ensures Hex(n) != "" && ParseDigits(Hex(n)) == Some(n)
  {
    if n < 16 {
      DigitRoundTrip(n);
    } else {
      HexParses(n / 16);
      DigitRoundTrip(n % 16);
      assert Hex(n)[..|Hex(n)| - 1] == Hex(n / 16);
    }
  }

  lemma {:induction false} HexDigitsOnly(n: nat, i: nat)
    requires i < |Hex(n)|
    ensures DigitValue(Hex(n)[i]).Some?
  {
    if n < 16 {
      DigitRoundTrip(n);
    } else if i == |Hex(n)| - 1 {
      DigitRoundTrip(n % 16);
    } else {
      HexDigitsOnly(n / 16, i);
    }
  }

  lemma {:induction false} LeadingZero(s: string)
    requires ParseDigits(s).Some?
    ensures ParseDigits(['0'] + s) == ParseDigits(s)
  {
    var padded := ['0'] + s;
    if |s| == 1 {
      assert padded[..1] == ['0'];
    } else {
      LeadingZero(s[..|s| - 1]);
      assert padded[..|padded| - 1] == ['0'] + s[..|s| - 1];
    }
  }

  /** Text with a sign anywhere but at the front never parses. */
  lemma {:induction false} InnerSignFails(s: string, i: nat)
    requires i < |s| && s[i] == '-'
    ensures ParseDigits(s) == None
  {
    if i < |s| - 1 {
      InnerSignFails(s[..|s| - 1], i);
    }
  }

  lemma NaturalDigits(n: nat)
    ensures ParseDigits(FormatSerial(n)) == Some(n)
  {
    HexParses(n);
    LeadingZero(Hex(n));
  }

  lemma NaturalSerialParses(n: nat)
    ensures ParseSerial(FormatSerial(n)) == Some(n)
  {
    NaturalDigits(n);
    HexDigitsOnly(n, 0);
  }

  /** The sign of a negative number is the first character, or the second behind the padding. */
  lemma NegativeIsNotDigits(n: int)
    requires n < 0
    ensures ParseDigits(FormatSerial(n)) == None
  {
    InnerSignFails(FormatSerial(n), if |Printed(n)| % 2 == 1 then 1 else 0);
  }

  lemma SignedTextParses(digits: string)
    ensures ParseSerial(['-'] + digits) == Signed(true, ParseDigits(digits))
  {
    var text := ['-'] + digits;
    assert text[1..] == digits;
  }

  lemma NegativeText(n: int)
    requires n < 0
    ensures FormatSerial(n) == if |Hex(-n)| % 2 == 1 then ['-'] + Hex(-n) else ['0', '-'] + Hex(-n)
  {
    var digits := Hex(-n);
    PaddingCounts(digits);
    assert Printed(n) == ['-'] + digits;
    assert ['0'] + (['-'] + digits) == ['0', '-'] + digits;
  }

  lemma PaddingCounts(digits: string)
    ensures |['-'] + digits| % 2 == 1 <==> |digits| % 2 == 0
  {
  }

  lemma SignedNegative(text: string, digits: string, m: nat)
    requires text == ['-'] + digits && ParseDigits(digits) == Some(m)
    ensures ParseSerial(text) == Some(-(m as int))
  {
    SignedTextParses(digits);
  }

  lemma UnpaddedNegativeParses(n: int, text: string)
    requires n < 0 && |Hex(-n)| % 2 == 1 && text == FormatSerial(n)
    ensures ParseSerial(text) == Some(n)
  {
    var m: nat, digits := -n, Hex(-n);
    assert text == ['-'] + digits;
    HexParses(m);
    SignedNegative(text, digits, m);
  }

  lemma PaddedNegativeFails(n: int)
    requires n < 0 && |Hex(-n)| % 2 == 0
    ensures ParseSerial(FormatSerial(n)) == None
  {
    NegativeText(n);
    NegativeIsNotDigits(n);
  }

  /** Every natural number survives; a negative one exactly when no padding lands before its sign. */
  lemma RoundTripExactly(n: int)
    ensures ParseSerial(FormatSerial(n)) == Some(n) <==> n >= 0 || |Hex(-n)| % 2 == 1
  {
    if n >= 0 {
      NaturalSerialParses(n);
    } else if |Hex(-n)| % 2 == 1 {
      UnpaddedNegativeParses(n, FormatSerial(n));
    } else {
      PaddedNegativeFails(n);
    }
  }

  /** No serial is stored as the same text as another natural number. */
  lemma FormatInjective(m: nat, n: int)
    requires FormatSerial(m) == FormatSerial(n)
    ensures m == n
  {
    NaturalDigits(m);
    if n < 0 {
      NegativeIsNotDigits(n);
    } else {
      NaturalDigits(n);
    }
  }

  // ---- Which texts are read as a number, and which one is stored ----

  function Zeros(k: nat): string {
    if k == 0 then "" else ['0'] + Zeros(k - 1)
  }

  lemma {:induction false} ZerosSnoc(k: nat)
    ensures Zeros(k + 1) == Zeros(k) + ['0']
  {
    if k > 0 {
      ZerosSnoc(k - 1);
    }
  }

  lemma {:induction false} CaseIsIgnored(s: string)
    ensures ParseDigits(Lower(s)) == ParseDigits(s)
  {
    if s != "" {
      var n := |s| - 1;
      CaseIsIgnored(s[..n]);
      LowerSlice(s, 0, n);
      assert Lower(s)[..n] == Lower(s[..n]);
    }
  }

  lemma {:induction false} LeadingZeros(k: nat, s: string)
    requires ParseDigits(s).Some?
    ensures ParseDigits(Zeros(k) + s) == ParseDigits(s)
  {
    if k > 0 {
      LeadingZeros(k - 1, s);
      LeadingZero(Zeros(k - 1) + s);
      assert Zeros(k) + s == ['0'] + (Zeros(k - 1) + s);
    } else {
      assert Zeros(0) + s == s;
    }
  }

  /** Zeros, and then the digits of the number in either case. */
  ghost predicate SpellsNatural(s: string, n: nat) {
    exists k: nat :: Lower(s) == Zeros(k) + Hex(n)
  }

  lemma DigitText(c: char, n: nat)
    requires DigitValue(c) == Some(n)
    ensures n < 16 && Lower([c]) == [DigitOf(n)]
  {
    assert Lower([c])[0] == LowerChar(c);
  }

  lemma {:induction false} ParsedIsSpelled(s: string)
    requires ParseDigits(s).Some?
    ensures SpellsNatural(s, ParseDigits(s).value)
  {
    var last := |s| - 1;
    var digit := DigitValue(s[last]).value;
    DigitText(s[last], digit);
    if |s| == 1 {
      assert s == [s[0]] && Lower(s) == Zeros(0) + Hex(digit);
    } else {
      var high := ParseDigits(s[..last]).value;
      ParsedIsSpelled(s[..last]);
      var k: nat :| Lower(s[..last]) == Zeros(k) + Hex(high);
      LowerLast(s);
      OneMoreDigit(k, high, digit, Lower(s));
    }
  }

  lemma LowerLast(s: string)
    requires s != ""
    ensures Lower(s) == Lower(s[..|s| - 1]) + Lower([s[|s| - 1]])
  {
    assert s == s[..|s| - 1] + [s[|s| - 1]];
    LowerConcat(s[..|s| - 1], [s[|s| - 1]]);
  }

  lemma OneMoreDigit(k: nat, high: nat, digit: nat, text: string)
    requires digit < 16 && text == Zeros(k) + Hex(high) + [DigitOf(digit)]
    ensures exists j: nat :: text == Zeros(j) + Hex(16 * high + digit)
  {
    if high == 0 {
      ZerosSnoc(k);
      assert text == Zeros(k + 1) + Hex(digit);
    } else {
      var n := 16 * high + digit;
      assert n / 16 == high && n % 16 == digit;
      assert text == Zeros(k) + Hex(n);
    }
  }

  lemma DigitsExactly(s: string, n: nat)
    ensures ParseDigits(s) == Some(n) <==> SpellsNatural(s, n)
  {
    if ParseDigits(s) == Some(n) {
      ParsedIsSpelled(s);
    }
    if SpellsNatural(s, n) {
      var k: nat :| Lower(s) == Zeros(k) + Hex(n);
      HexParses(n);
      LeadingZeros(k, Hex(n));
      CaseIsIgnored(s);
    }
  }

  /** A text is read as a number exactly when it is, after a sign if there is one, zeros and the number's digits. */
  lemma ParsedExactly(s: string, n: int)
    ensures ParseSerial(s) == Some(n) <==>
      || (n >= 0 && SpellsNatural(if s != "" && s[0] == '+' then s[1..] else s, n))
      || (n <= 0 && s != "" && s[0] == '-' && SpellsNatural(s[1..], -n))
  {
    if n >= 0 {
      DigitsExactly(if s != "" && s[0] == '+' then s[1..] else s, n);
    }
    if n <= 0 && s != "" {
      DigitsExactly(s[1..], -n);
    }
    if s != "" && s[0] == '-' {
      InnerSignFails(s, 0);
    }
  }

  lemma {:induction false} HexIsTight(n: nat)
    ensures Lower(Hex(n)) == Hex(n) && (n > 0 ==> Hex(n)[0] != '0') && |Hex(n)| >= 1
  {
    if n >= 16 {
      HexIsTight(n / 16);
      LowerConcat(Hex(n / 16), [DigitOf(n % 16)]);
    }
  }

  lemma {:induction false} ZerosAreZeros(k: nat)
    ensures |Zeros(k)| == k && Lower(Zeros(k)) == Zeros(k)
    ensures forall i :: 0 <= i < k ==> Zeros(k)[i] == '0'
  {
    if k > 0 {
      ZerosAreZeros(k - 1);
      LowerConcat("0", Zeros(k - 1));
      assert Lower("0") == "0";
    }
  }

  /** Whole bytes, the first of them not zero unless it is the only one. */
  predicate WholeBytes(text: string) {
    |text| % 2 == 0 && (|text| > 2 ==> !(text[0] == '0' && text[1] == '0'))
  }

  lemma PaddedOnce(k: nat, digits: string)
    requires |digits| >= 1 && (digits[0] != '0' || |digits| == 1)
    ensures WholeBytes(Zeros(k) + digits) <==> k == |digits| % 2
  {
    var text := Zeros(k) + digits;
    ZerosAreZeros(k);
    if k >= 2 {
      assert text[0] == '0' && text[1] == '0';
    } else if k == 1 {
      assert text[1] == digits[0];
    } else {
      assert text == digits;
    }
  }

  lemma FormatIsPadded(n: nat)
    ensures FormatSerial(n) == Zeros(|Hex(n)| % 2) + Hex(n)
  {
    assert Zeros(0) == "" && Zeros(1) == ['0'];
  }

  lemma FormatIsLower(n: nat)
    ensures Lower(FormatSerial(n)) == FormatSerial(n)
  {
    HexIsTight(n);
    LowerConcat(['0'], Hex(n));
    assert Lower(['0']) == ['0'];
  }

  /** The text stored for a natural number: lower case, whole bytes, and no byte of zeros in front. */
  lemma StoredExactly(text: string, n: nat)
    ensures text == FormatSerial(n) <==> ParseDigits(text) == Some(n) && Lower(text) == text && WholeBytes(text)
  {
    var digits := Hex(n);
    HexIsOneOrTight(n);
    FormatIsPadded(n);
    if text == FormatSerial(n) {
      NaturalDigits(n);
      FormatIsLower(n);
      PaddedOnce(|digits| % 2, digits);
    }
    if ParseDigits(text) == Some(n) && Lower(text) == text && WholeBytes(text) {
      ParsedIsSpelled(text);
      var k: nat :| text == Zeros(k) + digits;
      PaddedOnce(k, digits);
    }
  }

  lemma HexIsOneOrTight(n: nat)
    ensures |Hex(n)| >= 1 && (Hex(n)[0] != '0' || |Hex(n)| == 1)
  {
    HexIsTight(n);
  }
}
