/**
 strtoul, strtoull and strtoll with base 0 (section 7.22.1.4 of ISO C11) for 64-bit results,
 on texts without a NUL character.
 */
module Strto {
  import opened Bits

  const I64: int := 0x8000_0000_0000_0000

  /** A C string: bytes other than NUL. */
  type CString = s: string | forall i :: 0 <= i < |s| ==> 0 < s[i] as int < 0x100

  /** The value of a letter or digit; 36 for every other character. */
  function DigitValue(c: char): nat {
    if '0' <= c <= '9' then c as int - '0' as int
    else if 'a' <= c <= 'z' then c as int - 'a' as int + 10
    else if 'A' <= c <= 'Z' then c as int - 'A' as int + 10
    else 36
  }

  predicate IsSpace(c: char) { c == ' ' || 9 <= c as int <= 13 }

  function SkipSpace(s: string, i: nat): (j: nat)
    requires i <= |s|
    ensures i <= j <= |s|
    decreases |s| - i
  {
    if i < |s| && IsSpace(s[i]) then SkipSpace(s, i + 1) else i
  }

  function SkipDigits(s: string, i: nat, base: nat): (j: nat)
    requires i <= |s|
    ensures i <= j <= |s|
    decreases |s| - i
  {
    if i < |s| && DigitValue(s[i]) < base then SkipDigits(s, i + 1, base) else i
  }

  function Value(digits: string, base: nat): nat {
    if digits == "" then 0
    else Value(digits[..|digits| - 1], base) * base + DigitValue(digits[|digits| - 1])
  }

  /** The base a numeral selects, and where its digits begin. */
  function Prefix(s: string, j: nat): (r: (nat, nat))
    requires j <= |s|
    ensures r.1 <= |s|
  {
    if j + 2 < |s| && s[j] == '0' && s[j + 1] in "xX" && DigitValue(s[j + 2]) < 16 then (16, j + 2)
    else if j < |s| && s[j] == '0' then (8, j)
    else (10, j)
  }

  /** What precedes a conversion's range check; tail 0 means that nothing was converted. */
  datatype Numeral = Numeral(negative: bool, magnitude: nat, tail: nat)

  function Scan(s: string): (n: Numeral)
    ensures n.tail <= |s|
  {
    var i := SkipSpace(s, 0);
    var j := if i < |s| && s[i] in "+-" then i + 1 else i;
    var (base, k) := Prefix(s, j);
    var e := SkipDigits(s, k, base);
    if e == k then Numeral(false, 0, 0)
    else Numeral(i < |s| && s[i] == '-', Value(s[k..e], base), e)
  }

  /** A converted value, the index of the first character not converted, and the ERANGE flag. */
  datatype Converted = Converted(value: int, tail: nat, range: bool)

  function StrToUnsigned(s: string): (c: Converted)
    ensures 0 <= c.value < U64 && c.tail <= |s|
  {
    var n := Scan(s);
    if n.magnitude >= U64 then Converted(U64 - 1, n.tail, true)
    else Converted(if n.negative then (U64 - n.magnitude) % U64 else n.magnitude, n.tail, false)
  }

  function StrToSigned(s: string): (c: Converted)
    ensures -I64 <= c.value < I64 && c.tail <= |s|
  {
    var n := Scan(s);
    var v := if n.negative then 0 - n.magnitude else n.magnitude;
    if v >= I64 then Converted(I64 - 1, n.tail, true)
    else if v < -I64 then Converted(-I64, n.tail, true)
    else Converted(v, n.tail, false)
  }

  // ---- numerals, and that converting one returns the number it stands for ----

  function DigitChar(d: nat): (c: char)
    requires d < 16
    ensures DigitValue(c) == d && c !in "xX+-" && !IsSpace(c)
    ensures c == '0' <==> d == 0
  {
    "0123456789abcdef"[d]
  }

  function Digits(n: nat, base: nat): (s: string)
    requires 2 <= base <= 16
    ensures |s| > 0
    ensures forall i :: 0 <= i < |s| ==> IsDigit(s[i], base)
  {
    if n < base then [DigitChar(n)]
    else QuotientShrinks(n, base); Digits(n / base, base) + [DigitChar(n % base)]
  }

  predicate IsDigit(c: char, base: nat) {
    DigitValue(c) < base && c !in "xX+-" && !IsSpace(c)
  }

  lemma QuotientShrinks(n: nat, base: nat)
    requires 2 <= base <= n
    ensures 0 < n / base < n && n / base * base + n % base == n
  {
  }

  lemma {:induction false} DigitsLaw(n: nat, base: nat)
    requires 2 <= base <= 16
    ensures Value(Digits(n, base), base) == n
    ensures Digits(n, base)[0] == '0' ==> n == 0
  {
    if n < base {
      ValueAppend("", DigitChar(n), base);
      assert "" + [DigitChar(n)] == Digits(n, base);
    } else {
      QuotientShrinks(n, base);
      DigitsLaw(n / base, base);
      DigitsAppend(n, n / base, n % base, base);
    }
  }

  lemma DigitsAppend(n: nat, q: nat, d: nat, base: nat)
    requires 2 <= base <= 16 && 0 < q && d < base
    requires Digits(n, base) == Digits(q, base) + [DigitChar(d)]
    requires Value(Digits(q, base), base) == q && (Digits(q, base)[0] == '0' ==> q == 0)
    ensures Value(Digits(n, base), base) == q * base + d
    ensures Digits(n, base)[0] != '0'
  {
    ValueAppend(Digits(q, base), DigitChar(d), base);
  }

  lemma ValueAppend(s: string, c: char, base: nat)
    ensures Value(s + [c], base) == Value(s, base) * base + DigitValue(c)
  {
    assert (s + [c])[..|s|] == s;
  }

  datatype Notation = Decimal | Hexadecimal | Octal

  function Literal(n: nat, notation: Notation): (s: string) {
    match notation
    case Decimal => Digits(n, 10)
    case Hexadecimal => "0x" + Digits(n, 16)
    case Octal => "0" + Digits(n, 8)
  }

  lemma {:induction false} DigitsSkipped(s: string, i: nat, e: nat, base: nat)
    requires i <= e <= |s|
    requires forall k :: i <= k < e ==> DigitValue(s[k]) < base
    requires e < |s| ==> DigitValue(s[e]) >= base
    ensures SkipDigits(s, i, base) == e
    decreases e - i
  {
    if i < e { DigitsSkipped(s, i + 1, e, base); }
  }

  lemma {:induction false} LeadingZero(s: string, base: nat)
    ensures Value("0" + s, base) == Value(s, base)
  {
    if s == "" {
      assert "0" + s == "0";
      assert Value("0"[..0], base) == 0;
    } else {
      var n := |s| - 1;
      LeadingZero(s[..n], base);
      assert ("0" + s)[..n + 1] == "0" + s[..n];
    }
  }

  /** The text s has the characters of literal from index j on, and then no letter or digit. */
  predicate LiteralAt(s: string, j: nat, literal: string) {
    && j + |literal| <= |s|
    && s[j..j + |literal|] == literal
    && (j + |literal| < |s| ==> DigitValue(s[j + |literal|]) == 36)
  }

  /** From index j the scan finds the number n and stops at e. */
  predicate Reads(s: string, j: nat, n: nat, e: nat)
    requires j <= |s|
  {
    var (base, k) := Prefix(s, j);
    k < e <= |s| && SkipDigits(s, k, base) == e && Value(s[k..e], base) == n
  }

  /** All characters of a text are digits in a base. */
  predicate AreDigits(digits: string, base: nat) {
    digits != "" && forall i :: 0 <= i < |digits| ==> IsDigit(digits[i], base)
  }

  lemma HexadecimalScan(s: string, j: nat, digits: string)
    requires LiteralAt(s, j, "0x" + digits) && AreDigits(digits, 16)
    ensures Prefix(s, j) == (16, j + 2)
    ensures SkipDigits(s, j + 2, 16) == j + 2 + |digits| && s[j + 2..j + 2 + |digits|] == digits
  {
    var e := j + 2 + |digits|;
    assert s[j..e][0] == '0' && s[j..e][1] == 'x';
    forall k | j + 2 <= k < e ensures s[k] == digits[k - j - 2] {
      assert s[j..e][k - j] == ("0x" + digits)[k - j];
    }
    DigitsSkipped(s, j + 2, e, 16);
  }

  lemma OctalScan(s: string, j: nat, digits: string)
    requires LiteralAt(s, j, "0" + digits) && AreDigits(digits, 8)
    ensures Prefix(s, j) == (8, j)
    ensures SkipDigits(s, j, 8) == j + 1 + |digits| && s[j..j + 1 + |digits|] == "0" + digits
  {
    var e := j + 1 + |digits|;
    assert s[j..e][0] == '0';
    forall k | j + 1 <= k < e ensures s[k] == digits[k - j - 1] {
      assert s[j..e][k - j] == ("0" + digits)[k - j];
    }
    DigitsSkipped(s, j, e, 8);
  }

  lemma DecimalScan(s: string, j: nat, digits: string)
    requires LiteralAt(s, j, digits) && AreDigits(digits, 10) && digits[0] != '0'
    ensures Prefix(s, j) == (10, j)
    ensures SkipDigits(s, j, 10) == j + |digits| && s[j..j + |digits|] == digits
  {
    var e := j + |digits|;
    forall k | j <= k < e ensures s[k] == digits[k - j] {
      assert s[j..e][k - j] == digits[k - j];
    }
    DigitsSkipped(s, j, e, 10);
  }

  lemma ZeroReads(s: string, j: nat)
    requires LiteralAt(s, j, "0")
    ensures Reads(s, j, 0, j + 1)
  {
    assert s[j..j + 1][0] == '0';
    DigitsSkipped(s, j, j + 1, 8);
    assert "0"[..0] == "";
  }

  lemma DecimalReads(s: string, j: nat, n: nat)
    requires LiteralAt(s, j, Literal(n, Decimal))
    ensures Reads(s, j, n, j + |Literal(n, Decimal)|)
  {
    DigitsLaw(n, 10);
    if n == 0 { ZeroReads(s, j); } else { DecimalScan(s, j, Digits(n, 10)); }
  }

  lemma HexadecimalReads(s: string, j: nat, n: nat)
    requires LiteralAt(s, j, Literal(n, Hexadecimal))
    ensures Reads(s, j, n, j + |Literal(n, Hexadecimal)|)
  {
    DigitsLaw(n, 16);
    HexadecimalScan(s, j, Digits(n, 16));
  }

  lemma OctalReads(s: string, j: nat, n: nat)
    requires LiteralAt(s, j, Literal(n, Octal))
    ensures Reads(s, j, n, j + |Literal(n, Octal)|)
  {
    DigitsLaw(n, 8);
    OctalScan(s, j, Digits(n, 8));
    LeadingZero(Digits(n, 8), 8);
  }

  /** Scanning a numeral followed by anything that is not a letter or digit gives back its number. */
  lemma ScanLiteral(negative: bool, n: nat, notation: Notation, rest: string)
    requires rest == "" || DigitValue(rest[0]) == 36
    ensures var numeral := (if negative then "-" else "") + Literal(n, notation);
            Scan(numeral + rest) == Numeral(negative, n, |numeral|)
  {
    var sign, literal := if negative then "-" else "", Literal(n, notation);
    var j, s := |sign|, sign + literal + rest;
    assert s[j..j + |literal|] == literal;
    assert literal[0] !in "+-" && !IsSpace(literal[0]) by {
      if notation.Decimal? { assert IsDigit(literal[0], 10); }
    }
    assert s[0] == if negative then '-' else literal[0];
    LiteralReads(s, j, n, notation);
    ScanReads(s, negative, n, j + |literal|);
  }

  lemma LiteralReads(s: string, j: nat, n: nat, notation: Notation)
    requires LiteralAt(s, j, Literal(n, notation))
    ensures Reads(s, j, n, j + |Literal(n, notation)|)
  {
    match notation {
      case Decimal => DecimalReads(s, j, n);
      case Hexadecimal => HexadecimalReads(s, j, n);
      case Octal => OctalReads(s, j, n);
    }
  }

  lemma ScanReads(s: string, negative: bool, n: nat, e: nat)
    requires s != "" && !IsSpace(s[0]) && (s[0] == '-' <==> negative) && s[0] != '+'
    requires Reads(s, if negative then 1 else 0, n, e)
    ensures Scan(s) == Numeral(negative, n, e)
  {
    assert SkipSpace(s, 0) == 0;
  }

  /** strtoul and strtoull: a numeral of any size, a minus sign negating modulo 2^64, saturation above. */
  lemma UnsignedLiteral(negative: bool, n: nat, notation: Notation, rest: string)
    requires rest == "" || DigitValue(rest[0]) == 36
    ensures var numeral := (if negative then "-" else "") + Literal(n, notation);
            StrToUnsigned(numeral + rest) ==
            if n >= U64 then Converted(U64 - 1, |numeral|, true)
            else Converted(if negative && n > 0 then U64 - n else n, |numeral|, false)
  {
    ScanLiteral(negative, n, notation, rest);
    UnsignedOfScan((if negative then "-" else "") + Literal(n, notation) + rest);
  }

  /** What the unsigned conversion makes of a scanned numeral. */
  lemma UnsignedOfScan(s: string)
    ensures var n := Scan(s);
            StrToUnsigned(s) ==
            if n.magnitude >= U64 then Converted(U64 - 1, n.tail, true)
            else Converted(if n.negative && n.magnitude > 0 then U64 - n.magnitude else n.magnitude, n.tail, false)
  {
    if Scan(s).magnitude < U64 { NegatedModulo(Scan(s).magnitude); }
  }

  lemma NegatedModulo(m: nat)
    requires m < U64
    ensures (U64 - m) % U64 == if m > 0 then U64 - m else 0
  {
  }

  /** strtoll: a numeral of any size, clamped to the 64-bit range. */
  lemma SignedLiteral(negative: bool, n: nat, notation: Notation, rest: string)
    requires rest == "" || DigitValue(rest[0]) == 36
    ensures var numeral := (if negative then "-" else "") + Literal(n, notation);
            var v := if negative then 0 - n else n;
            StrToSigned(numeral + rest) ==
            Converted(if v >= I64 then I64 - 1 else if v < -I64 then -I64 else v, |numeral|, v >= I64 || v < -I64)
  {
    ScanLiteral(negative, n, notation, rest);
    SignedOfScan((if negative then "-" else "") + Literal(n, notation) + rest);
  }

  /** What the signed conversion makes of a scanned numeral. */
  lemma SignedOfScan(s: string)
    ensures var n := Scan(s);
            var v := if n.negative then 0 - n.magnitude else n.magnitude;
            StrToSigned(s) ==
            Converted(if v >= I64 then I64 - 1 else if v < -I64 then -I64 else v, n.tail, v >= I64 || v < -I64)
  {
  }
}
