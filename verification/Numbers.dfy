/** Decimal numbers as streams print them, and as `strtoull` reads them back. */
module Numbers {

  const U64_LIMIT := 0x1_0000_0000_0000_0000

  predicate IsDigit(c: char) {
    '0' <= c <= '9'
  }

  /** `isspace` in the C locale. */
  predicate IsSpace(c: char) {
    c == ' ' || ('\t' <= c <= '\r')
  }

  function ValueOf(c: char): nat
    requires IsDigit(c)
  {
    c as int - '0' as int
  }

  function DigitOf(n: nat): (c: char)
    requires n < 10
    ensures IsDigit(c) && ValueOf(c) == n
  {
    ('0' as int + n) as char
  }

  function Decimal(n: nat): (s: string)
    ensures s != "" && forall k :: 0 <= k < |s| ==> IsDigit(s[k])
  {
    if n < 10 then [DigitOf(n)] else Decimal(n / 10) + [DigitOf(n % 10)]
  }

  /** The number that a string of digits denotes. */
  function DigitsValue(s: string): nat
    requires forall k :: 0 <= k < |s| ==> IsDigit(s[k])
  {
    if s == "" then 0
    else DigitsValue(s[..|s| - 1]) * 10 + ValueOf(s[|s| - 1])
  }

  function DigitPrefix(s: string): (i: nat)
    ensures i <= |s|
    ensures forall k :: 0 <= k < i ==> IsDigit(s[k])
    ensures i < |s| ==> !IsDigit(s[i])
  {
    if s == "" || !IsDigit(s[0]) then 0 else 1 + DigitPrefix(s[1..])
  }

  function SpacePrefix(s: string): (i: nat)
    ensures i <= |s|
    ensures forall k :: 0 <= k < i ==> IsSpace(s[k])
    ensures i < |s| ==> !IsSpace(s[i])
  {
    if s == "" || !IsSpace(s[0]) then 0 else 1 + SpacePrefix(s[1..])
  }

  /** A `strtoull` result: the value, where reading stopped, and whether errno is ERANGE now. */
  datatype Scanned = Scanned(value: nat, end: nat, erange: bool)

  /** Behind white space and an optional sign. */
  function NumberStart(s: string): (start: nat)
    ensures start <= |s|
  {
    var spaces := SpacePrefix(s);
    if spaces < |s| && (s[spaces] == '-' || s[spaces] == '+') then spaces + 1 else spaces
  }

  /**
   `strtoull` in base 10 (section 7.22.1.4 of ISO/IEC 9899:2011).  It never
   resets errno, so a range error from before shows up in the result.
   */
  function StrToUll(s: string, erange: bool): Scanned {
    var start := NumberStart(s);
    var digits := DigitPrefix(s[start..]);
    if digits == 0 then Scanned(0, 0, erange)
    else Converted(start > 0 && s[start - 1] == '-', DigitsValue(s[start..][..digits]), start + digits, erange)
  }

  function Converted(negative: bool, magnitude: nat, end: nat, erange: bool): Scanned {
    if magnitude >= U64_LIMIT then Scanned(U64_LIMIT - 1, end, true)
    else Scanned(if negative then (U64_LIMIT - magnitude) % U64_LIMIT else magnitude, end, erange)
  }

  lemma {:induction false} DecimalValue(n: nat)
    ensures DigitsValue(Decimal(n)) == n
  {
    if n >= 10 {
      DecimalValue(n / 10);
      assert Decimal(n)[..|Decimal(n)| - 1] == Decimal(n / 10);
    } else {
      assert DigitsValue("") == 0;
    }
  }

  /** The digits stand for powers of ten, the last for one, and the first of several is not zero. */
  lemma {:induction false} DecimalDigits(n: nat, k: nat)
    requires k < |Decimal(n)|
    ensures Power10(k) > 0
    ensures Decimal(n)[|Decimal(n)| - 1 - k] as int - '0' as int == n / Power10(k) % 10
    ensures Power10(|Decimal(n)| - 1) > 0 && n / Power10(|Decimal(n)| - 1) == Decimal(n)[0] as int - '0' as int
    ensures n >= 10 ==> Decimal(n)[0] != '0'
    decreases n
  {
    if n >= 10 {
      var all, front := Decimal(n), Decimal(n / 10);
      DecimalDigits(n / 10, 0);
      TenTimes(n, Power10(|front| - 1));
      if k > 0 {
        DecimalDigits(n / 10, k - 1);
        TenTimes(n, Power10(k - 1));
        assert all[|all| - 1 - k] == front[|front| - 1 - (k - 1)];
      }
    }
  }

  lemma TenTimes(n: nat, p: nat)
    requires p > 0
    ensures n / 10 / p == n / (10 * p)
  {
    var q, r := n / 10 / p, n / 10 % p;
    assert n == q * (10 * p) + (10 * r + n % 10);
    Quotient(n, 10 * p, q, 10 * r + n % 10);
  }

  lemma Quotient(n: nat, d: nat, q: nat, r: nat)
    requires d > 0 && n == q * d + r && r < d
    ensures n / d == q
  {
    assert n / d * d + n % d == n;
    OneMoreTimes(n / d, q, d);
    OneMoreTimes(q, n / d, d);
  }

  lemma OneMoreTimes(x: int, y: int, d: nat)
    ensures x < y ==> x * d + d <= y * d
  {
    if x < y {
      AtLeastOnce(y - x, d);
      assert (y - x) * d == y * d - x * d;
    }
  }

  lemma {:induction false} AtLeastOnce(k: nat, d: nat)
    requires k >= 1
    ensures k * d >= d
  {
    if k > 1 {
      AtLeastOnce(k - 1, d);
      assert k * d == (k - 1) * d + d;
    }
  }

  /** A decimal number has as many digits as it needs. */
  lemma {:induction false} DecimalLength(n: nat, digits: nat)
    requires digits > 0 && n < Power10(digits)
    ensures |Decimal(n)| <= digits
  {
    if n >= 10 {
      DecimalLength(n / 10, digits - 1);
    }
  }

  function Power10(n: nat): nat {
    if n == 0 then 1 else 10 * Power10(n - 1)
  }

  lemma U64Length(n: nat)
    requires n < U64_LIMIT
    ensures |Decimal(n)| <= 20
  {
    assert Power10(20) == 1_0000_0000_0000_0000_0000 by {
      assert Power10(5) == 1_0000_0;
      assert Power10(10) == 1_0000_0000_00;
      assert Power10(15) == 1_0000_0000_0000_000;
    }
    DecimalLength(n, 20);
  }

  lemma DigitPrefixAll(s: string)
    requires forall k :: 0 <= k < |s| ==> IsDigit(s[k])
    ensures DigitPrefix(s) == |s|
  {
  }

  /** Digits behind a number move it up by as many places. */
  lemma {:induction false} DigitsConcat(a: string, b: string)
    requires AllDigits(a) && AllDigits(b)
    ensures AllDigits(a + b) && DigitsValue(a + b) == DigitsValue(a) * Power10(|b|) + DigitsValue(b)
    decreases |b|
  {
    if b == "" {
      assert a + b == a;
    } else {
      var shorter := b[..|b| - 1];
      DigitsConcat(a, shorter);
      assert (a + b)[..|a + b| - 1] == a + shorter;
      assert DigitsValue(a) * Power10(|b|) == DigitsValue(a) * Power10(|shorter|) * 10;
    }
  }

  /** Reading a printed number gives the number, the end of the string, and no news about errno. */
  lemma ReadPrinted(n: nat, erange: bool)
    requires n < U64_LIMIT
    ensures StrToUll(Decimal(n), erange) == Scanned(n, |Decimal(n)|, erange)
  {
    var s := Decimal(n);
    assert SpacePrefix(s) == 0;
    assert s[0..] == s;
    DigitPrefixAll(s);
    assert s[..|s|] == s;
    DecimalValue(n);
  }

  // ----- which texts are numbers

  predicate AllDigits(s: string) {
    forall k :: 0 <= k < |s| ==> IsDigit(s[k])
  }

  /** White space, an optional sign, and at least one digit. */
  predicate IsNumberText(spaces: string, sign: string, digits: string) {
    && (forall k :: 0 <= k < |spaces| ==> IsSpace(spaces[k]))
    && sign in {"", "+", "-"}
    && digits != "" && AllDigits(digits)
  }

  /** What a number text stands for in 64 bits; a minus sign counts down from 2^64. */
  function Represented(sign: string, digits: string): nat
    requires AllDigits(digits) && DigitsValue(digits) < U64_LIMIT
  {
    if sign == "-" then (U64_LIMIT - DigitsValue(digits)) % U64_LIMIT else DigitsValue(digits)
  }

  lemma {:induction false} SpacePrefixIs(s: string, i: nat)
    requires i <= |s| && (i < |s| ==> !IsSpace(s[i]))
    requires forall k :: 0 <= k < i ==> IsSpace(s[k])
    ensures SpacePrefix(s) == i
  {
    if i > 0 {
      SpacePrefixIs(s[1..], i - 1);
    }
  }

  lemma DigitsAreFound(spaces: string, sign: string, digits: string, rest: string)
    requires IsNumberText(spaces, sign, digits) && (rest != "" ==> !IsDigit(rest[0]))
    ensures var text, start := spaces + sign + digits + rest, |spaces| + |sign|;
      && NumberStart(text) == start
      && (start > 0 && text[start - 1] == '-' <==> sign == "-")
      && DigitPrefix(text[start..]) == |digits| && text[start..][..|digits|] == digits
  {
    hide SpacePrefix, DigitPrefix;
    var text := spaces + sign + digits + rest;
    assert IsDigit(digits[0]);
    assert text[|spaces|] == (if sign == "" then digits[0] else sign[0]);
    SpacePrefixIs(text, |spaces|);
    assert text[|spaces| + |sign|..] == digits + rest;
    DigitPrefixIs(digits + rest, |digits|);
    assert (digits + rest)[..|digits|] == digits;
  }

  /** A number text is read as far as it goes. */
  lemma NumberTextIsRead(text: string, spaces: string, sign: string, digits: string, rest: string, erange: bool)
    requires IsNumberText(spaces, sign, digits) && (rest != "" ==> !IsDigit(rest[0]))
    requires text == spaces + sign + digits + rest
    ensures var end := |spaces| + |sign| + |digits|;
      StrToUll(text, erange) ==
        if DigitsValue(digits) >= U64_LIMIT then Scanned(U64_LIMIT - 1, end, true)
        else Scanned(Represented(sign, digits), end, erange)
  {
    DigitsAreFound(spaces, sign, digits, rest);
    hide StrToUll, IsNumberText, NumberStart, DigitPrefix, DigitsValue, Represented, Converted;
    ReadFrom(text, |spaces| + |sign|, digits, erange);
    ConvertedIs(sign, digits, |spaces| + |sign| + |digits|, erange);
  }

  lemma ReadFrom(text: string, start: nat, digits: string, erange: bool)
    requires NumberStart(text) == start && digits != "" && AllDigits(digits)
    requires DigitPrefix(text[start..]) == |digits| && text[start..][..|digits|] == digits
    ensures StrToUll(text, erange) ==
            Converted(start > 0 && text[start - 1] == '-', DigitsValue(digits), start + |digits|, erange)
  {
    hide DigitsValue, NumberStart, DigitPrefix, Converted;
  }

  lemma ConvertedIs(sign: string, digits: string, end: nat, erange: bool)
    requires AllDigits(digits)
    ensures Converted(sign == "-", DigitsValue(digits), end, erange) ==
            if DigitsValue(digits) >= U64_LIMIT then Scanned(U64_LIMIT - 1, end, true)
            else Scanned(Represented(sign, digits), end, erange)
  {
    hide DigitsValue;
  }

  lemma {:induction false} DigitPrefixIs(s: string, i: nat)
    requires i <= |s| && (i < |s| ==> !IsDigit(s[i]))
    requires forall k :: 0 <= k < i ==> IsDigit(s[k])
    ensures DigitPrefix(s) == i
  {
    if i > 0 {
      DigitPrefixIs(s[1..], i - 1);
    }
  }

  /** Where a number text starts and ends in a text that something is read from. */
  lemma WhatIsRead(text: string, erange: bool) returns (spaces: string, sign: string, digits: string, rest: string)
    requires StrToUll(text, erange).end != 0 || StrToUll(text, erange).erange != erange
    ensures text == spaces + sign + digits + rest && IsNumberText(spaces, sign, digits)
    ensures rest != "" ==> !IsDigit(rest[0])
    ensures StrToUll(text, erange).end == |text| - |rest|
  {
    hide StrToUll, IsSpace, IsDigit;
    var n, start, end := PositionsRead(text, erange);
    Pieces(text, n, start, end);
    spaces, sign, digits, rest := text[..n], text[n..start], text[start..end], text[end..];
    assert start == n + 1 ==> sign == [text[n]];
    assert rest != "" ==> rest[0] == text[end];
  }

  lemma PositionsRead(text: string, erange: bool) returns (n: nat, start: nat, end: nat)
    requires StrToUll(text, erange).end != 0 || StrToUll(text, erange).erange != erange
    ensures n <= start < end <= |text| && StrToUll(text, erange).end == end
    ensures forall k :: 0 <= k < n ==> IsSpace(text[k])
    ensures start == n || (start == n + 1 && text[n] in {'-', '+'})
    ensures forall k :: start <= k < end ==> IsDigit(text[k])
    ensures end < |text| ==> !IsDigit(text[end])
  {
    SomethingRead(text, erange);
    hide StrToUll, SpacePrefix, DigitPrefix, IsSpace, IsDigit;
    n, start := SpacePrefix(text), NumberStart(text);
    var digits := text[start..];
    var m := DigitPrefix(digits);
    end := start + m;
    forall k | start <= k < end ensures IsDigit(text[k]) {
      assert digits[k - start] == text[k];
    }
    assert m < |digits| ==> digits[m] == text[end];
  }

  lemma Pieces(text: string, a: nat, b: nat, c: nat)
    requires a <= b <= c <= |text|
    ensures text[..a] + text[a..b] + text[b..c] + text[c..] == text
  {
  }

  lemma SomethingRead(text: string, erange: bool)
    requires StrToUll(text, erange).end != 0 || StrToUll(text, erange).erange != erange
    ensures var start := NumberStart(text);
      DigitPrefix(text[start..]) > 0 && StrToUll(text, erange).end == start + DigitPrefix(text[start..])
  {
    hide DigitsValue, NumberStart, DigitPrefix, Converted;
    var start := NumberStart(text);
    var m := DigitPrefix(text[start..]);
    if m > 0 {
      ConvertedEnd(start > 0 && text[start - 1] == '-', DigitsValue(text[start..][..m]), start + m, erange);
    }
  }

  lemma ConvertedEnd(negative: bool, magnitude: nat, end: nat, erange: bool)
    ensures Converted(negative, magnitude, end, erange).end == end
  {
  }

  /** Only number texts are read to their end, and the empty one. */
  lemma OnlyNumberTextIsRead(text: string, erange: bool) returns (spaces: string, sign: string, digits: string)
    requires text != "" && StrToUll(text, erange).end == |text|
    ensures text == spaces + sign + digits && IsNumberText(spaces, sign, digits)
  {
    hide StrToUll, IsNumberText;
    var rest;
    spaces, sign, digits, rest := WhatIsRead(text, erange);
  }

  /** A number that does not fit into 64 bits, whatever follows it. */
  ghost predicate Overflows(text: string) {
    exists spaces, sign, digits, rest ::
      && text == spaces + sign + digits + rest && IsNumberText(spaces, sign, digits)
      && (rest != "" ==> !IsDigit(rest[0]))
      && DigitsValue(digits) >= U64_LIMIT
  }

  /** Exactly the numbers that do not fit leave a range error behind. */
  lemma RangeErrorExactly(text: string, erange: bool)
    ensures StrToUll(text, erange).erange <==> erange || Overflows(text)
  {
    hide StrToUll, DigitsValue;
    if Overflows(text) {
      var spaces, sign, digits, rest :|
        && text == spaces + sign + digits + rest && IsNumberText(spaces, sign, digits)
        && (rest != "" ==> !IsDigit(rest[0]))
        && DigitsValue(digits) >= U64_LIMIT;
      NumberTextIsRead(text, spaces, sign, digits, rest, erange);
    }
    ErangeStays(text);
    if StrToUll(text, erange).erange != erange {
      var spaces, sign, digits, rest := WhatIsRead(text, erange);
      NumberTextIsRead(text, spaces, sign, digits, rest, erange);
    }
  }

  lemma ErangeStays(text: string)
    ensures StrToUll(text, true).erange
  {
  }
}
