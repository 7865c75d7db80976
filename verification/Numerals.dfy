/**
 What the numeric conversions make of every text: blanks, a sign, a prefix, digits in either case
 given by literal tables, and whatever follows.
 */
module Numerals {
  import opened Bits
  import opened Strto

  const LOWER_DIGITS: string := "0123456789abcdef"
  const UPPER_DIGITS: string := "0123456789ABCDEF"

  /** The character is the digit d. */
  predicate IsDigitOf(c: char, d: nat) {
    d < 16 && (LOWER_DIGITS[d] == c || UPPER_DIGITS[d] == c)
  }

  predicate NoDigit(c: char, base: nat) {
    forall d: nat :: d < base ==> !IsDigitOf(c, d)
  }

  /** The text is written with the given digits of a base. */
  predicate Spells(text: string, ds: seq<nat>, base: nat) {
    |text| == |ds| && forall i :: 0 <= i < |ds| ==> ds[i] < base && IsDigitOf(text[i], ds[i])
  }

  /** The number written with the given digits. */
  function NumberOf(ds: seq<nat>, base: nat): nat {
    if ds == [] then 0 else NumberOf(ds[..|ds| - 1], base) * base + ds[|ds| - 1]
  }

  predicate IsBlank(c: char) { c == ' ' || c as int in {9, 10, 11, 12, 13} }

  /** "0x" or "0X" before hexadecimal digits, "0" before octal ones, nothing before decimal ones. */
  predicate IsPrefix(prefix: string, base: nat) {
    (prefix == "" && base == 10) || (prefix == "0" && base == 8) || ((prefix == "0x" || prefix == "0X") && base == 16)
  }

  /** A whole numeral of a base; the octal numeral "0" has no digit behind its prefix. */
  predicate IsNumeral(prefix: string, digits: string, ds: seq<nat>, base: nat) {
    && IsPrefix(prefix, base) && Spells(digits, ds, base)
    && (base == 10 ==> digits != "" && digits[0] != '0')
    && (base == 16 ==> digits != "")
  }

  /** The text does not go on with the numeral. */
  predicate Ends(digits: string, rest: string, base: nat) {
    && (rest != "" ==> NoDigit(rest[0], base))
    && (base == 8 && digits == "" ==>
          !(|rest| >= 2 && (rest[0] == 'x' || rest[0] == 'X') && !NoDigit(rest[1], 16)))
  }

  // ---- digits ----

  lemma DigitTable(c: char, d: nat)
    requires IsDigitOf(c, d)
    ensures DigitValue(c) == d
  {
    if d < 10 {
      assert c == ('0' as int + d) as char;
    } else {
      assert c == ('a' as int + d - 10) as char || c == ('A' as int + d - 10) as char;
    }
  }

  lemma ValueInTable(c: char)
    requires DigitValue(c) < 16
    ensures IsDigitOf(c, DigitValue(c))
  {
    var d := DigitValue(c);
    if d < 10 {
      assert LOWER_DIGITS[d] == ('0' as int + d) as char;
    } else {
      assert LOWER_DIGITS[d] == ('a' as int + d - 10) as char;
      assert UPPER_DIGITS[d] == ('A' as int + d - 10) as char;
    }
  }

  lemma NoDigitValue(c: char, base: nat)
    requires base <= 16
    ensures NoDigit(c, base) <==> DigitValue(c) >= base
  {
    if DigitValue(c) < base {
      ValueInTable(c);
    } else if d: nat :| d < base && IsDigitOf(c, d) {
      DigitTable(c, d);
    }
  }

  lemma {:induction false} SpelledValue(text: string, ds: seq<nat>, base: nat)
    requires base <= 16 && Spells(text, ds, base)
    ensures Value(text, base) == NumberOf(ds, base)
    ensures forall i :: 0 <= i < |text| ==> DigitValue(text[i]) == ds[i]
    decreases |ds|
  {
    if ds != [] {
      var n := |ds| - 1;
      SpelledValue(text[..n], ds[..n], base);
      DigitTable(text[n], ds[n]);
      assert forall i :: 0 <= i < n ==> text[i] == text[..n][i];
    }
  }

  // ---- scanning ----

  lemma {:induction false} BlanksSkipped(s: string, i: nat, e: nat)
    requires i <= e <= |s| && forall k :: i <= k < e ==> IsBlank(s[k])
    requires e < |s| ==> !IsBlank(s[e])
    ensures SkipSpace(s, i) == e
    decreases e - i
  {
    if i < e { BlanksSkipped(s, i + 1, e); }
  }

  /** The text from index j on is a numeral and then something else. */
  predicate NumeralAt(s: string, j: nat, prefix: string, digits: string, rest: string) {
    j + |prefix| + |digits| + |rest| == |s| && s[j..] == prefix + digits + rest
  }

  lemma CharactersAt(s: string, j: nat, prefix: string, digits: string, rest: string)
    requires NumeralAt(s, j, prefix, digits, rest)
    ensures forall k :: 0 <= k < |prefix| ==> s[j + k] == prefix[k]
    ensures forall k :: 0 <= k < |digits| ==> s[j + |prefix| + k] == digits[k]
    ensures forall k :: 0 <= k < |rest| ==> s[j + |prefix| + |digits| + k] == rest[k]
    ensures s[j + |prefix|..j + |prefix| + |digits|] == digits
  {
    var t := s[j..];
    assert forall k :: 0 <= k < |t| ==> s[j + k] == t[k];
    assert forall k :: 0 <= k < |digits| ==> t[|prefix| + k] == digits[k];
    assert forall k :: 0 <= k < |rest| ==> t[|prefix| + |digits| + k] == rest[k];
  }

  /** The digits run up to the rest. */
  lemma DigitsRun(s: string, k: nat, digits: string, ds: seq<nat>, base: nat)
    requires base <= 16 && Spells(digits, ds, base) && k + |digits| <= |s|
    requires s[k..k + |digits|] == digits
    requires k + |digits| < |s| ==> NoDigit(s[k + |digits|], base)
    ensures SkipDigits(s, k, base) == k + |digits| && Value(s[k..k + |digits|], base) == NumberOf(ds, base)
  {
    var e := k + |digits|;
    SpelledValue(digits, ds, base);
    forall m | k <= m < e ensures DigitValue(s[m]) < base {
      assert s[m] == s[k..e][m - k] == digits[m - k];
    }
    if e < |s| { NoDigitValue(s[e], base); }
    DigitsSkipped(s, k, e, base);
  }

  lemma HexadecimalAt(s: string, j: nat, prefix: string, digits: string, ds: seq<nat>, rest: string)
    requires IsNumeral(prefix, digits, ds, 16) && Ends(digits, rest, 16) && NumeralAt(s, j, prefix, digits, rest)
    ensures Reads(s, j, NumberOf(ds, 16), j + |prefix| + |digits|)
  {
    CharactersAt(s, j, prefix, digits, rest);
    DigitTable(digits[0], ds[0]);
    assert s[j] == '0' && (s[j + 1] == 'x' || s[j + 1] == 'X') && s[j + 2] == digits[0];
    DigitsRun(s, j + 2, digits, ds, 16);
  }

  lemma DecimalAt(s: string, j: nat, digits: string, ds: seq<nat>, rest: string)
    requires IsNumeral("", digits, ds, 10) && Ends(digits, rest, 10) && NumeralAt(s, j, "", digits, rest)
    ensures Reads(s, j, NumberOf(ds, 10), j + |digits|)
  {
    CharactersAt(s, j, "", digits, rest);
    assert s[j] == digits[0];
    DigitsRun(s, j, digits, ds, 10);
  }

  lemma OctalAt(s: string, j: nat, digits: string, ds: seq<nat>, rest: string)
    requires IsNumeral("0", digits, ds, 8) && Ends(digits, rest, 8) && NumeralAt(s, j, "0", digits, rest)
    ensures Reads(s, j, NumberOf(ds, 8), j + 1 + |digits|)
  {
    ZeroFirst(digits, ds);
    OctalPrefix(s, j, digits, ds, rest);
    Regrouped(s, j, digits, rest);
    OctalRun(s, j, "0" + digits, [0] + ds, rest);
  }

  lemma Regrouped(s: string, j: nat, digits: string, rest: string)
    requires NumeralAt(s, j, "0", digits, rest)
    ensures NumeralAt(s, j, "", "0" + digits, rest)
  {
    assert "" + ("0" + digits) + rest == "0" + digits + rest;
  }

  lemma OctalRun(s: string, j: nat, all: string, ds: seq<nat>, rest: string)
    requires Spells(all, ds, 8) && NumeralAt(s, j, "", all, rest) && (rest != "" ==> NoDigit(rest[0], 8))
    ensures SkipDigits(s, j, 8) == j + |all| && Value(s[j..j + |all|], 8) == NumberOf(ds, 8)
  {
    CharactersAt(s, j, "", all, rest);
    DigitsRun(s, j, all, ds, 8);
  }

  /** No hexadecimal prefix begins there. */
  lemma OctalPrefix(s: string, j: nat, digits: string, ds: seq<nat>, rest: string)
    requires IsNumeral("0", digits, ds, 8) && Ends(digits, rest, 8) && NumeralAt(s, j, "0", digits, rest)
    ensures Prefix(s, j) == (8, j)
  {
    CharactersAt(s, j, "0", digits, rest);
    if digits != "" {
      DigitTable(digits[0], ds[0]);
      assert s[j + 1] == digits[0];
    } else if j + 2 < |s| {
      assert s[j + 1] == rest[0] && s[j + 2] == rest[1];
      NoDigitValue(rest[1], 16);
    }
  }

  lemma ZeroFirst(digits: string, ds: seq<nat>)
    requires Spells(digits, ds, 8)
    ensures Spells("0" + digits, [0] + ds, 8) && NumberOf([0] + ds, 8) == NumberOf(ds, 8)
  {
    assert IsDigitOf('0', 0);
    ZeroAhead(ds, 8);
  }

  lemma {:induction false} ZeroAhead(ds: seq<nat>, base: nat)
    ensures NumberOf([0] + ds, base) == NumberOf(ds, base)
    decreases |ds|
  {
    if ds == [] {
      assert [0] + ds == [0] && [0][..0] == [];
    } else {
      var n := |ds| - 1;
      ZeroAhead(ds[..n], base);
      assert ([0] + ds)[..n + 1] == [0] + ds[..n];
    }
  }

  lemma NumeralReads(s: string, j: nat, prefix: string, digits: string, ds: seq<nat>, base: nat, rest: string)
    requires IsNumeral(prefix, digits, ds, base) && Ends(digits, rest, base)
    requires NumeralAt(s, j, prefix, digits, rest)
    ensures Reads(s, j, NumberOf(ds, base), j + |prefix| + |digits|)
  {
    if base == 16 {
      HexadecimalAt(s, j, prefix, digits, ds, rest);
    } else if base == 10 {
      DecimalAt(s, j, digits, ds, rest);
    } else {
      OctalAt(s, j, digits, ds, rest);
    }
  }

  /** The first character of a numeral is a decimal digit. */
  lemma FirstOfNumeral(prefix: string, digits: string, ds: seq<nat>, base: nat)
    requires IsNumeral(prefix, digits, ds, base)
    ensures prefix + digits != "" && '0' <= (prefix + digits)[0] <= '9'
  {
    if base == 10 { DigitTable(digits[0], ds[0]); }
  }

  predicate IsSign(sign: string) {
    sign == "" || (|sign| == 1 && (sign[0] == '+' || sign[0] == '-'))
  }

  predicate IsMinus(sign: string) { sign != "" && sign[0] == '-' }

  /** Blanks, a sign, and then something that, where there is no sign, is neither. */
  predicate SignedAt(s: string, blank: string, sign: string, tail: string) {
    && s == blank + (sign + tail) && IsSign(sign)
    && (forall i :: 0 <= i < |blank| ==> IsBlank(blank[i]))
    && (tail != "" && sign == "" ==> !IsBlank(tail[0]) && tail[0] != '+' && tail[0] != '-')
  }

  /** The text from index i on, where the blanks end. */
  lemma BlanksThenSign(s: string, blank: string, sign: string, tail: string)
    requires SignedAt(s, blank, sign, tail)
    ensures |s| == |blank| + |sign| + |tail| && s[|blank| + |sign|..] == tail
    ensures sign != "" ==> s[|blank|] == sign[0]
    ensures sign == "" && tail != "" ==> s[|blank|] == tail[0]
    ensures SkipSpace(s, 0) == |blank|
  {
    assert s[|blank| + |sign|..] == tail;
    BlanksSkipped(s, 0, |blank|);
  }

  /** The scan goes on behind the sign. */
  lemma SignSkipped(s: string, blank: string, sign: string, tail: string)
    requires SignedAt(s, blank, sign, tail)
    ensures |s| == |blank| + |sign| + |tail| && s[|blank| + |sign|..] == tail && SkipSpace(s, 0) == |blank|
    ensures |blank| + |sign| == if |blank| < |s| && s[|blank|] in "+-" then |blank| + 1 else |blank|
    ensures IsMinus(sign) <==> |blank| < |s| && s[|blank|] == '-'
  {
    BlanksThenSign(s, blank, sign, tail);
    if |blank| < |s| { SignOrNot(s[|blank|]); }
  }

  lemma SignOrNot(c: char)
    ensures c in "+-" <==> c == '+' || c == '-'
  {
    assert "+-" == ['+', '-'];
  }

  /** Every numeral is scanned to its number, whatever its case and whatever follows it. */
  lemma ScanNumeral(blank: string, sign: string, prefix: string, digits: string, ds: seq<nat>, base: nat,
                    rest: string, s: string)
    requires IsNumeral(prefix, digits, ds, base) && Ends(digits, rest, base)
    requires SignedAt(s, blank, sign, prefix + digits + rest)
    ensures Scan(s) == Numeral(IsMinus(sign), NumberOf(ds, base), |s| - |rest|)
  {
    ScanTail(s, blank, sign, prefix + digits + rest, prefix, digits, ds, base, rest);
  }

  lemma ScanTail(s: string, blank: string, sign: string, tail: string,
                 prefix: string, digits: string, ds: seq<nat>, base: nat, rest: string)
    requires tail == prefix + digits + rest && SignedAt(s, blank, sign, tail)
    requires IsNumeral(prefix, digits, ds, base) && Ends(digits, rest, base)
    ensures Scan(s) == Numeral(IsMinus(sign), NumberOf(ds, base), |s| - |rest|)
  {
    SignedReads(s, blank, sign, tail, prefix, digits, ds, base, rest);
    SignedScan(s, blank, sign, tail, NumberOf(ds, base), |s| - |rest|);
  }

  lemma SignedReads(s: string, blank: string, sign: string, tail: string,
                    prefix: string, digits: string, ds: seq<nat>, base: nat, rest: string)
    requires tail == prefix + digits + rest && s == blank + (sign + tail)
    requires IsNumeral(prefix, digits, ds, base) && Ends(digits, rest, base)
    ensures |blank| + |sign| <= |s| && |rest| <= |s|
    ensures Reads(s, |blank| + |sign|, NumberOf(ds, base), |s| - |rest|)
  {
    TailAt(s, blank, sign, tail);
    TailReads(s, |blank| + |sign|, prefix, digits, ds, base, rest);
  }

  lemma TailAt(s: string, blank: string, sign: string, tail: string)
    requires s == blank + (sign + tail)
    ensures |blank| + |sign| <= |s| && s[|blank| + |sign|..] == tail
  {
  }

  lemma SignedScan(s: string, blank: string, sign: string, tail: string, n: nat, e: nat)
    requires SignedAt(s, blank, sign, tail) && Reads(s, |blank| + |sign|, n, e)
    ensures Scan(s) == Numeral(IsMinus(sign), n, e)
  {
    SignSkipped(s, blank, sign, tail);
    ScanFrom(s, |blank|, |blank| + |sign|, IsMinus(sign), n, e);
  }

  lemma TailReads(s: string, j: nat, prefix: string, digits: string, ds: seq<nat>, base: nat, rest: string)
    requires IsNumeral(prefix, digits, ds, base) && Ends(digits, rest, base)
    requires j <= |s| && s[j..] == prefix + digits + rest
    ensures |rest| <= |s| && Reads(s, j, NumberOf(ds, base), |s| - |rest|)
  {
    assert |s[j..]| == |prefix| + |digits| + |rest|;
    NumeralReads(s, j, prefix, digits, ds, base, rest);
  }

  lemma ScanFrom(s: string, i: nat, j: nat, negative: bool, n: nat, e: nat)
    requires SkipSpace(s, 0) == i && j <= |s| && Reads(s, j, n, e)
    requires j == if i < |s| && s[i] in "+-" then i + 1 else i
    requires negative <==> i < |s| && s[i] == '-'
    ensures Scan(s) == Numeral(negative, n, e)
  {
  }

  /** Where there is no digit behind the blanks and the sign, nothing is converted. */
  lemma ScanNothing(blank: string, sign: string, rest: string, s: string)
    requires SignedAt(s, blank, sign, rest) && (rest != "" ==> NoDigit(rest[0], 10))
    ensures Scan(s) == Numeral(false, 0, 0)
  {
    var j := |blank| + |sign|;
    SignSkipped(s, blank, sign, rest);
    if rest != "" {
      NoDigitValue(rest[0], 10);
      assert s[j] == rest[0];
    }
  }

  /** strtoul and strtoull on every numeral. */
  lemma UnsignedNumeral(blank: string, sign: string, prefix: string, digits: string, ds: seq<nat>, base: nat,
                        rest: string, s: string)
    requires IsNumeral(prefix, digits, ds, base) && Ends(digits, rest, base)
    requires SignedAt(s, blank, sign, prefix + digits + rest)
    ensures var n := NumberOf(ds, base);
            StrToUnsigned(s) ==
            if n >= 0x1_0000_0000_0000_0000 then Converted(0xFFFF_FFFF_FFFF_FFFF, |s| - |rest|, true)
            else Converted(if IsMinus(sign) && n > 0 then 0x1_0000_0000_0000_0000 - n else n, |s| - |rest|, false)
  {
    ScanNumeral(blank, sign, prefix, digits, ds, base, rest, s);
    UnsignedOfScan(s);
  }

  /** strtoll on every numeral. */
  lemma SignedNumeral(blank: string, sign: string, prefix: string, digits: string, ds: seq<nat>, base: nat,
                      rest: string, s: string)
    requires IsNumeral(prefix, digits, ds, base) && Ends(digits, rest, base)
    requires SignedAt(s, blank, sign, prefix + digits + rest)
    ensures var v := if IsMinus(sign) then 0 - NumberOf(ds, base) else NumberOf(ds, base);
            StrToSigned(s) ==
            if v > 0x7FFF_FFFF_FFFF_FFFF then Converted(0x7FFF_FFFF_FFFF_FFFF, |s| - |rest|, true)
            else if v < -0x8000_0000_0000_0000 then Converted(-0x8000_0000_0000_0000, |s| - |rest|, true)
            else Converted(v, |s| - |rest|, false)
  {
    ScanNumeral(blank, sign, prefix, digits, ds, base, rest, s);
    SignedOfScan(s);
  }

  /** Both conversions of a text with no digit where one is needed: nothing converted, the value 0. */
  lemma NothingConverted(blank: string, sign: string, rest: string, s: string)
    requires SignedAt(s, blank, sign, rest) && (rest != "" ==> NoDigit(rest[0], 10))
    ensures StrToUnsigned(s) == Converted(0, 0, false) && StrToSigned(s) == Converted(0, 0, false)
  {
    ScanNothing(blank, sign, rest, s);
  }
}
