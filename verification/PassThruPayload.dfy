/**
 The payload options: what they accept, what they append, and that the payload only grows.
 */
module PassThruPayload {
  import opened Wrappers
  import opened Bits
  import opened Bytes
  import opened Strto
  import opened CmdSend
  import opened PassThru
  import opened PassThruRuns
  import opened PassThruPackets
  import H = PassThruHeaders

  /** A receiver's reading of an integer, in a known byte order and signedness. */
  function DecodeNumber(bigEndian: bool, signed: bool, bs: Buffer): int {
    FromPattern(|bs|, signed, if bigEndian then BigValue(bs) else LittleValue(bs))
  }

  lemma EvenPower(width: nat)
    requires width > 0
    ensures Pow256(width) == 2 * (Pow256(width) / 2)
  {
  }

  /** Numbers in range read back in either order; the two orders are reverses of each other. */
  lemma NumberRoundTrip(bigEndian: bool, width: nat, signed: bool, v: int)
    requires width > 0 && MinOf(width, signed) <= v <= MaxOf(width, signed)
    ensures DecodeNumber(bigEndian, signed, NumberBytes(bigEndian, width, v)) == v
    ensures NumberBytes(!bigEndian, width, v) == Reverse(NumberBytes(bigEndian, width, v))
  {
    var p: nat := v % Pow256(width);
    PatternValue(width, signed, v);
    LittleRoundTrip(width, p);
    BigRoundTrip(width, p);
    ReverseTwice(LittleEndian(width, p));
  }

  /** The number that a bit pattern stands for. */
  function FromPattern(width: nat, signed: bool, p: nat): int {
    if signed && p >= Pow256(width) / 2 then p - Pow256(width) else p
  }

  lemma PatternValue(width: nat, signed: bool, v: int)
    requires width > 0 && MinOf(width, signed) <= v <= MaxOf(width, signed)
    ensures FromPattern(width, signed, v % Pow256(width)) == v
  {
    var m := Pow256(width);
    EvenPower(width);
    if v < 0 { SmallRemainder(v, -1, m, v + m); } else { SmallRemainder(v, 0, m, v); }
  }

  lemma SmallRemainder(v: int, d: int, m: nat, r: nat)
    requires 0 <= r < m && v == d * m + r && (d == 0 || d == -1)
    ensures v % m == r
  {
  }

  /** Whether a text is converted at all, and the number it is converted to. */
  function Conversion(signed: bool, text: string): Converted {
    if signed then StrToSigned(text) else StrToUnsigned(text)
  }

  /**
   An integer option is accepted exactly when its text converts to a number in the range of its
   type and there is room for it; it then appends its width, and the bytes decode to the number
   in the order in force, or big-endian for the forced options.
   */
  lemma IntegerOption(fp: FloatReader, st: State, width: nat, signed: bool, forced: bool, text: CString)
    requires width in {1, 2, 4, 8}
    ensures var c := Conversion(signed, text);
            var s := PayloadStep(fp, st, Integer(width, signed, forced), text);
            && (s.rc == Accepted <==>
                  c.tail > 0 && MinOf(width, signed) <= c.value <= MaxOf(width, signed)
                  && |st.payload| + width <= 2048)
            && (s.rc != Accepted ==> s == Stepped(st, Invalid))
            && (s.rc == Accepted ==>
                  && |s.state.payload| == |st.payload| + width
                  && s.state == st.(payload := s.state.payload)
                  && s.state.payload[..|st.payload|] == st.payload
                  && DecodeNumber(st.bigEndian || forced, signed, s.state.payload[|st.payload|..]) == c.value)
  {
    var c := Conversion(signed, text);
    IntegerEncoding(fp, st.bigEndian, width, signed, forced, text);
    if c.tail > 0 && MinOf(width, signed) <= c.value <= MaxOf(width, signed) {
      AppendNumber(st, st.bigEndian || forced, width, signed, c.value);
    }
  }

  lemma IntegerEncoding(fp: FloatReader, bigEndian: bool, width: nat, signed: bool, forced: bool, text: CString)
    ensures var c := Conversion(signed, text);
            Encoding(fp, bigEndian, Integer(width, signed, forced), text) ==
            if c.tail > 0 && MinOf(width, signed) <= c.value <= MaxOf(width, signed)
            then Some(Chunk(NumberBytes(bigEndian || forced, width, c.value), 0)) else None
  {
  }

  lemma AppendNumber(st: State, bigEndian: bool, width: nat, signed: bool, v: int)
    requires width in {1, 2, 4, 8} && MinOf(width, signed) <= v <= MaxOf(width, signed)
    ensures var s := Append(st, Chunk(NumberBytes(bigEndian, width, v), 0));
            && (s.rc == Accepted <==> |st.payload| + width <= 2048)
            && (s.rc != Accepted ==> s == Stepped(st, Invalid))
            && (s.rc == Accepted ==>
                  && |s.state.payload| == |st.payload| + width
                  && s.state == st.(payload := s.state.payload)
                  && s.state.payload[..|st.payload|] == st.payload
                  && DecodeNumber(bigEndian, signed, s.state.payload[|st.payload|..]) == v)
  {
    var bs := NumberBytes(bigEndian, width, v);
    NumberRoundTrip(bigEndian, width, signed, v);
    AppendFew(st, bs);
    assert (st.payload + bs)[..|st.payload|] == st.payload && (st.payload + bs)[|st.payload|..] == bs;
  }

  /** A number's bytes are appended exactly when they fit. */
  lemma AppendFew(st: State, bs: Buffer)
    requires |bs| <= 8
    ensures Append(st, Chunk(bs, 0)) ==
            if |st.payload| + |bs| <= MAX_PACKET then Stepped(st.(payload := st.payload + bs), Accepted)
            else Stepped(st, Invalid)
  {
    FewBytesFit(|st.payload|, |bs|);
    assert st.payload + bs + Zeros(0) == st.payload + bs;
  }

  // ---- numerals ----

  /** The number is one the 64-bit conversion can return. */
  predicate In64(signed: bool, v: int) {
    if signed then -I64 <= v < I64 else 0 <= v < U64
  }

  /** What the 64-bit conversion returns for a number. */
  function Convert64(signed: bool, v: int): int {
    if In64(signed, v) then v
    else if signed then if v < 0 then 0 - I64 else I64 - 1
    else if 0 - U64 < v < 0 then U64 + v
    else U64 - 1
  }

  function Numeral(negative: bool, n: nat, notation: Notation): (s: string) {
    (if negative then "-" else "") + Literal(n, notation)
  }

  /**
   A numeral of a number v in the 64-bit range of the conversion is accepted exactly when v is in
   the range of the option's type, and is stored as v. Outside that range, because ERANGE is not
   checked, it is treated as a different number: clamped when signed, wrapped or saturated when
   unsigned.
   */
  lemma NumeralOption(fp: FloatReader, st: State, width: nat, signed: bool, forced: bool,
                      negative: bool, n: nat, notation: Notation, text: CString)
    requires width in {1, 2, 4, 8} && text == Numeral(negative, n, notation)
    ensures var v := if negative then 0 - n else n;
            var s := PayloadStep(fp, st, Integer(width, signed, forced), text);
            var room := |st.payload| + width <= MAX_PACKET;
            && (s.rc == Accepted <==>
                  room && MinOf(width, signed) <= Convert64(signed, v) <= MaxOf(width, signed))
            && (s.rc == Accepted ==>
                  DecodeNumber(st.bigEndian || forced, signed, s.state.payload[|st.payload|..]) == Convert64(signed, v))
            && (Convert64(signed, v) == v <==> In64(signed, v))
  {
    NumeralConversion(signed, negative, n, notation);
    IntegerOption(fp, st, width, signed, forced, text);
  }

  /** The number is in the range of its type. */
  predicate InRange(width: nat, signed: bool, v: int) {
    MinOf(width, signed) <= v <= MaxOf(width, signed)
  }

  /**
   A numeral is accepted, room given, exactly when its number is in the range of its type, unless it
   is outside the 64-bit range and either of the widest type or a negative number that wraps so far
   up that the narrow unsigned type holds it.
   */
  lemma NumeralRule(fp: FloatReader, st: State, width: nat, signed: bool, forced: bool,
                    negative: bool, n: nat, notation: Notation, text: CString)
    requires width in {1, 2, 4, 8} && text == Numeral(negative, n, notation)
    requires |st.payload| + width <= MAX_PACKET
    ensures var v := if negative then 0 - n else n;
            var s := PayloadStep(fp, st, Integer(width, signed, forced), text);
            (s.rc == Accepted <==> InRange(width, signed, v))
            <==> In64(signed, v) || (width < 8 && (signed || v >= U64 || v + U64 >= Pow256(width) || v + U64 <= 0))
  {
    NumeralOption(fp, st, width, signed, forced, negative, n, notation, text);
    RangeRule(width, signed, if negative then 0 - n else n);
  }

  lemma RangeRule(width: nat, signed: bool, v: int)
    requires width in {1, 2, 4, 8}
    ensures (InRange(width, signed, Convert64(signed, v)) <==> InRange(width, signed, v))
            <==> In64(signed, v) || (width < 8 && (signed || v >= U64 || v + U64 >= Pow256(width) || v + U64 <= 0))
  {
    Widths();
    if width == 8 {} else if width == 4 {} else if width == 2 {} else {}
  }

  lemma NumeralConversion(signed: bool, negative: bool, n: nat, notation: Notation)
    ensures var c := Conversion(signed, Numeral(negative, n, notation));
            c.tail > 0 && c.value == Convert64(signed, if negative then 0 - n else n)
  {
    assert Numeral(negative, n, notation) + "" == Numeral(negative, n, notation);
    if signed { SignedLiteral(negative, n, notation, ""); } else { UnsignedLiteral(negative, n, notation, ""); }
  }

  /** -(2^64 - 1) is accepted as the unsigned byte 1, and 2^64 as the signed number 2^63 - 1. */
  lemma OutOfRangeAccepted(fp: FloatReader, n: nat, below: CString, above: CString)
    requires n == U64 - 1 && below == Numeral(true, n, Decimal) && above == Numeral(false, n + 1, Hexadecimal)
    ensures var s := PayloadStep(fp, Initial, Integer(1, false, false), below);
            s.rc == Accepted && DecodeNumber(true, false, s.state.payload) == 1
    ensures var s := PayloadStep(fp, Initial, Integer(8, true, false), above);
            s.rc == Accepted && DecodeNumber(true, true, s.state.payload) == I64 - 1
  {
    Widths();
    StoredAs(fp, 1, false, true, n, Decimal, below, 1);
    StoredAs(fp, 8, true, false, n + 1, Hexadecimal, above, I64 - 1);
  }

  /** The number that a first option stores. */
  lemma StoredAs(fp: FloatReader, width: nat, signed: bool, negative: bool, n: nat, notation: Notation,
                 text: CString, v: int)
    requires width in {1, 2, 4, 8} && text == Numeral(negative, n, notation)
    requires Convert64(signed, if negative then 0 - n else n) == v && InRange(width, signed, v)
    ensures var s := PayloadStep(fp, Initial, Integer(width, signed, false), text);
            s.rc == Accepted && DecodeNumber(true, signed, s.state.payload) == v
  {
    NumeralOption(fp, Initial, width, signed, false, negative, n, notation, text);
    var p := PayloadStep(fp, Initial, Integer(width, signed, false), text).state.payload;
    assert p[0..] == p;
  }

  // ---- the names of the options ----

  /** The long name of an integer option that is not an alias. */
  function IntegerName(id: OptionId): Option<string> {
    if id.Int8? then Some("int8")
    else if id.Int16? then Some("int16")
    else if id.Int32? then Some("int32")
    else if id.Int64? then Some("int64")
    else if id.Uint8? then Some("uint8")
    else if id.Uint16? then Some("uint16")
    else if id.Uint32? then Some("uint32")
    else if id.Uint64? then Some("uint64")
    else if id.Int16b? then Some("int16b")
    else if id.Int32b? then Some("int32b")
    else if id.Int64b? then Some("int64b")
    else if id.Uint16b? then Some("uint16b")
    else if id.Uint32b? then Some("uint32b")
    else if id.Uint64b? then Some("uint64b")
    else None
  }

  /** A name as its parts: "u" when unsigned, "int", the bits, "b" when always big-endian. */
  function NameParts(signed: bool, bits: string, forced: bool): string {
    (if signed then "" else "u") + ("int" + (bits + (if forced then "b" else "")))
  }

  /** The format of an integer option is the one its name spells. */
  lemma FormatByName(id: OptionId, signed: bool, bits: string, forced: bool)
    requires bits == "8" || bits == "16" || bits == "32" || bits == "64"
    requires IntegerName(id) == Some(NameParts(signed, bits, forced))
    ensures FormatOf(id) == Some(Integer(BytesOf(bits), signed, forced))
  {
    var name := NameParts(signed, bits, forced);
    NameSpells(signed, bits, forced, name);
    if signed {
      if forced {} else {}
    } else {
      if forced {} else {}
    }
  }

  function BytesOf(bits: string): nat {
    if bits == "8" then 1 else if bits == "16" then 2 else if bits == "32" then 4 else 8
  }

  /** What a name's characters say about its parts. */
  lemma NameSpells(signed: bool, bits: string, forced: bool, name: string)
    requires bits == "8" || bits == "16" || bits == "32" || bits == "64"
    requires name == NameParts(signed, bits, forced)
    ensures |name| == (if signed then 3 else 4) + |bits| + (if forced then 1 else 0)
    ensures name[0] == (if signed then 'i' else 'u')
    ensures name[if signed then 3 else 4] == bits[0]
    ensures forced <==> name[|name| - 1] == 'b'
  {
  }

  // ---- every option ----

  /**
   The payload only grows. An accepted payload option appends exactly its encoding; a refused
   option appends nothing, except that a text whose padding does not fit stays without it. The one
   other case is a text that a capacity test lets through although it does not fit.
   */
  lemma AppendOnly(fp: FloatReader, st: State, arg: Arg)
    ensures var s := Step(fp, st, arg);
            && st.payload <= s.state.payload && |s.state.payload| <= 2048
            && (s.rc == Overrun <==> TextOverruns(|st.payload|, arg))
            && (FormatOf(arg.id) == None ==> s.state.payload == st.payload)
            && (FormatOf(arg.id).Some? ==> s.state == st.(payload := s.state.payload))
            && (FormatOf(arg.id).Some? && s.rc == Accepted ==>
                  s.state.payload == st.payload + Encoded(fp, st.bigEndian, arg))
            && (FormatOf(arg.id).Some? && s.rc != Accepted ==>
                  || s.state == st
                  || (arg.id == String && IsSized(arg.text)
                      && s.state.payload == st.payload + TextChunk(arg.text).body
                      && |st.payload + Encoded(fp, st.bigEndian, arg)| > 2048))
  {
    StepOverruns(fp, st, arg);
    if FieldOf(arg.id).Some? {
      FieldIsOther(arg.id);
    } else if FormatOf(arg.id).Some? {
      FormatIsOther(arg.id);
      PayloadAppendOnly(fp, st, arg, FormatOf(arg.id).value);
    }
  }

  lemma PayloadAppendOnly(fp: FloatReader, st: State, arg: Arg, format: Format)
    requires FormatOf(arg.id) == Some(format)
    ensures var s := PayloadStep(fp, st, format, arg.text);
            && st.payload <= s.state.payload && s.state == st.(payload := s.state.payload)
            && (s.rc == Accepted ==> s.state.payload == st.payload + Encoded(fp, st.bigEndian, arg))
            && (s.rc != Accepted ==>
                  || s.state == st
                  || (arg.id == String && IsSized(arg.text)
                      && s.state.payload == st.payload + TextChunk(arg.text).body
                      && |st.payload + Encoded(fp, st.bigEndian, arg)| > MAX_PACKET))
  {
    var e := Encoding(fp, st.bigEndian, format, arg.text);
    if e.Some? {
      AppendLaw(st, e.value);
      assert st.payload + Zeros(0) == st.payload;
      if format.TextFormat? {
        StringIsText(arg.id);
      } else {
        assert e.value.padding == 0;
      }
    }
  }

  /** The length of an encoding, which is what an accepted payload option adds: its width, or the size of a text. */
  lemma EncodedSize(fp: FloatReader, bigEndian: bool, arg: Arg)
    requires FormatOf(arg.id).Some? && Encoding(fp, bigEndian, FormatOf(arg.id).value, arg.text).Some?
    ensures match FormatOf(arg.id).value
            case TextFormat =>
              var c := StrToUnsigned(arg.text);
              var length := |arg.text| - c.tail - 1;
              |Encoded(fp, bigEndian, arg)| == c.value <==> length < U32 && c.value - length < U32
            case format => |Encoded(fp, bigEndian, arg)| == format.width
  {
    if FormatOf(arg.id).value.TextFormat? { TextSize(arg.text); }
  }

  lemma TextSize(text: CString)
    requires IsSized(text)
    ensures var c, chunk := StrToUnsigned(text), TextChunk(text);
            var length := |text| - c.tail - 1;
            |chunk.body + Zeros(chunk.padding)| == c.value <==> length < U32 && c.value - length < U32
  {
    var c := StrToUnsigned(text);
    NarrowSizes(|text| - c.tail - 1, c.value);
  }

  lemma NarrowSizes(length: nat, n: nat)
    requires length <= n
    ensures length % U32 + (n - length) % U32 == n <==> length < U32 && n - length < U32
  {
  }

  /** What a text option of declared size n makes of a state. */
  predicate SizedOutcome(st: State, s: Stepped, n: nat, t: CString) {
    && (|t| > n ==> s == Stepped(st, Invalid))
    && (|t| <= n ==>
          var size, padding := |st.payload| + |t| % U32, (n - |t|) % U32;
          && (s.rc == Accepted <==> size + padding <= 2048)
          && (s.rc == Overrun <==> size >= U32 || (size <= 2048 && size + padding >= U32))
          && (s.rc == Accepted ==>
                s.state == st.(payload := st.payload + TextBytes(t[..|t| % U32]) + Zeros(padding))))
  }

  /**
   "NNN:text", NNN in any notation, for every text and NNN. A text longer than NNN is refused.
   Otherwise both sizes are narrowed to 32 bits: the option is accepted exactly when they fit
   together and then appends the text and zeros, and it writes outside the payload exactly when the
   sum of a capacity test reaches 2^32.
   */
  lemma SizedText(fp: FloatReader, st: State, n: nat, notation: Notation, t: CString, text: CString)
    requires 0 < n < U64 && text == Literal(n, notation) + ":" + t
    ensures SizedOutcome(st, PayloadStep(fp, st, TextFormat, text), n, t)
  {
    SizedScan(n, notation, t);
    ScannedText(fp, st, text, n, t);
  }

  lemma ScannedText(fp: FloatReader, st: State, text: CString, n: nat, t: CString)
    requires n > 0 && IsTextOf(text, n, t)
    ensures SizedOutcome(st, PayloadStep(fp, st, TextFormat, text), n, t)
  {
    if |t| <= n {
      AppendNarrow(st, Chunk(TextBytes(t[..|t| % U32]), (n - |t|) % U32));
    }
  }

  /** What appending does when both sizes are 32-bit numbers. */
  lemma AppendNarrow(st: State, chunk: Chunk)
    requires |chunk.body| < U32 && chunk.padding < U32
    ensures var s := Append(st, chunk);
            var size := |st.payload| + |chunk.body|;
            && (s.rc == Accepted <==> size + chunk.padding <= MAX_PACKET)
            && (s.rc == Overrun <==> size >= U32 || (size <= MAX_PACKET && size + chunk.padding >= U32))
            && (s.rc == Accepted ==> s.state == st.(payload := st.payload + chunk.body + Zeros(chunk.padding)))
  {
    var size := |st.payload| + |chunk.body|;
    SlipsIffWraps(size);
    if size <= MAX_PACKET { SlipsIffWraps(size + chunk.padding); }
  }

  /** The sum of a 32-bit size and a size that fits slips through exactly when it wraps. */
  lemma SlipsIffWraps(size: nat)
    requires size < U32 + MAX_PACKET
    ensures Slips(size) <==> size >= U32
    ensures size % U32 <= MAX_PACKET <==> size <= MAX_PACKET || size >= U32
  {
  }

  /**
   The plain rule, accepted if and only if NNN bytes fit, holds exactly when neither the text nor its
   padding reaches 2^32, or when what is left of their sizes does not fit either.
   */
  lemma TextRule(fp: FloatReader, st: State, n: nat, notation: Notation, t: CString, text: CString)
    requires 0 < n < U64 && text == Literal(n, notation) + ":" + t && |t| <= n
    ensures (PayloadStep(fp, st, TextFormat, text).rc == Accepted <==> |st.payload| + n <= MAX_PACKET)
            <==> (|t| < U32 && n - |t| < U32) || |st.payload| + |t| % U32 + (n - |t|) % U32 > MAX_PACKET
  {
    SizedText(fp, st, n, notation, t, text);
    RuleOf(st, PayloadStep(fp, st, TextFormat, text), n, t);
  }

  lemma RuleOf(st: State, s: Stepped, n: nat, t: CString)
    requires SizedOutcome(st, s, n, t) && |t| <= n
    ensures (s.rc == Accepted <==> |st.payload| + n <= MAX_PACKET)
            <==> (|t| < U32 && n - |t| < U32) || |st.payload| + |t| % U32 + (n - |t|) % U32 > MAX_PACKET
  {
    NarrowedSum(|st.payload|, |t|, n);
  }

  lemma NarrowedSum(m: nat, length: nat, n: nat)
    requires m <= MAX_PACKET && length <= n
    ensures (m + length % U32 + (n - length) % U32 <= MAX_PACKET <==> m + n <= MAX_PACKET)
            <==> (length < U32 && n - length < U32) || m + length % U32 + (n - length) % U32 > MAX_PACKET
  {
    NarrowSizes(length, n);
  }

  /** A text is scanned as the size n, a colon, and t. */
  predicate IsTextOf(text: string, n: nat, t: string) {
    var c := StrToUnsigned(text);
    c.value == n && c.tail < |text| && text[c.tail] == ':' && text[c.tail + 1..] == t
  }

  /** A numeral, a colon and any text are scanned as just that. */
  lemma SizedScan(n: nat, notation: Notation, t: string)
    requires n < U64
    ensures IsTextOf(Literal(n, notation) + ":" + t, n, t)
  {
    var numeral, rest := Literal(n, notation), ":" + t;
    var text := numeral + ":" + t;
    assert text == "" + numeral + rest;
    UnsignedLiteral(false, n, notation, rest);
    assert text[|numeral|] == rest[0] == ':';
    assert text[|numeral| + 1..] == t;
  }

  /** The padding's size is kept only modulo 2^32: 5 characters declared as 2^32 + 5 append just 5 bytes. */
  lemma OversizedText(fp: FloatReader, n: nat, text: CString)
    requires n == 0x1_0000_0005 && text == Literal(n, Decimal) + ":" + "Hello"
    ensures PayloadStep(fp, Initial, TextFormat, text).rc == Accepted
    ensures |PayloadStep(fp, Initial, TextFormat, text).state.payload| == 5
  {
    SizedScan(n, Decimal, "Hello");
    assert StrToUnsigned(text).value == n;
  }

  lemma OneByte(fp: FloatReader, one: Arg)
    requires one.id == Int8 && one.text == Literal(1, Decimal)
    ensures var r := Run(fp, Initial, [one]);
            r.accepted && |r.state.payload| == 1
  {
    assert [one][..0] == [];
    StoredAs(fp, 1, true, false, 1, Decimal, one.text, 1);
    IntegerOption(fp, Initial, 1, true, false, one.text);
  }

  /** One payload byte, and then "4294967295:a" or "-1:a": the pad's sum is a multiple of 2^32, and its test sees 0. */
  lemma WrappingText(fp: FloatReader, one: Arg, sized: Arg, negative: bool)
    requires one.id == Int8 && one.text == Literal(1, Decimal) && sized.id == String
    requires sized.text == Numeral(negative, if negative then 1 else U32 - 1, Decimal) + (":" + "a")
    ensures Run(fp, Initial, [one] + [sized]).overrun
  {
    OneByte(fp, one);
    var st := Run(fp, Initial, [one]).state;
    WrapsBehindOne(fp, st, negative, if negative then 1 else U32 - 1, "a", sized.text);
    assert ([one] + [sized])[..1] == [one];
    StepOverruns(fp, st, sized);
    PayloadStepOverruns(fp, st, TextFormat, sized.text);
  }

  lemma WrapsBehindOne(fp: FloatReader, st: State, negative: bool, n: nat, t: CString, text: CString)
    requires |st.payload| == |t| == 1 && n == (if negative then 1 else U32 - 1)
    requires text == Numeral(negative, n, Decimal) + (":" + t)
    ensures PayloadStep(fp, st, TextFormat, text).rc == Overrun
  {
    var size := if negative then U64 - 1 else U32 - 1;
    NumeralThenText(negative, n, t, text);
    ScannedText(fp, st, text, size, t);
    WrapOf(st, PayloadStep(fp, st, TextFormat, text), size, t);
  }

  lemma WrapOf(st: State, s: Stepped, n: nat, t: CString)
    requires SizedOutcome(st, s, n, t) && |st.payload| == |t| == 1 && (n == U32 - 1 || n == U64 - 1)
    ensures s.rc == Overrun
  {
    assert (n - 1) % U32 == U32 - 2;
  }

  lemma NumeralThenText(negative: bool, n: nat, t: string, text: string)
    requires 0 < n < U64 && text == Numeral(negative, n, Decimal) + (":" + t)
    ensures IsTextOf(text, if negative then U64 - n else n, t)
  {
    var numeral, rest := Numeral(negative, n, Decimal), ":" + t;
    UnsignedLiteral(negative, n, Decimal, rest);
    assert text[|numeral|] == rest[0] == ':';
    assert text[|numeral| + 1..] == t;
  }

  // ---- arguments that are not options ----

  /** The text of an argument that is not an option does not matter to this parser, so another may change it. */
  lemma WordIgnored(fp: FloatReader, st: State, text: CString)
    ensures Step(fp, st, Arg(None_, text)) == Stepped(st, Undefined)
  {
  }

  // ---- what a receiver finds ----

  /** Options only add to the payload. */
  predicate Stands(whole: Buffer, at: nat, e: Buffer) { at + |e| <= |whole| && whole[at..at + |e|] == e }

  lemma StandsLast(front: Buffer, e: Buffer, whole: Buffer)
    requires whole == front + e
    ensures Stands(whole, |front|, e)
  {
  }

  lemma StillStands(front: Buffer, whole: Buffer, at: nat, e: Buffer)
    requires front <= whole && Stands(front, at, e)
    ensures Stands(whole, at, e)
  {
    assert whole[..|front|] == front;
    assert whole[at..at + |e|] == whole[..|front|][at..at + |e|];
  }

  lemma {:induction false} OptionStands(fp: FloatReader, args: seq<Arg>, j: nat)
    requires j < |args|
    ensures var prior := args[..j];
            Stands(PayloadAfter(fp, args), |PayloadAfter(fp, prior)|, Encoded(fp, BigEndianAfter(prior), args[j]))
    decreases |args|
  {
    var m := |args| - 1;
    if j == m {
      StandsLast(PayloadAfter(fp, args[..m]), Encoded(fp, BigEndianAfter(args[..m]), args[m]), PayloadAfter(fp, args));
    } else {
      OptionStands(fp, args[..m], j);
      var prior := args[..j];
      assert args[..m][..j] == prior;
      StillStands(PayloadAfter(fp, args[..m]), PayloadAfter(fp, args),
                  |PayloadAfter(fp, prior)|, Encoded(fp, BigEndianAfter(prior), args[j]));
    }
  }

  /** Where option j's bytes stand in the payload of the account. */
  lemma BytesOfOption(fp: FloatReader, args: seq<Arg>, j: nat)
    requires j < |args|
    ensures var at, e := |PayloadAfter(fp, args[..j])|, Encoded(fp, BigEndianAfter(args[..j]), args[j]);
            at + |e| <= |PayloadAfter(fp, args)| && PayloadAfter(fp, args)[at..at + |e|] == e
  {
    OptionStands(fp, args, j);
  }

  lemma BytesAre(fp: FloatReader, args: seq<Arg>, j: nat, e: Buffer)
    requires j < |args| && Encoded(fp, BigEndianAfter(args[..j]), args[j]) == e
    ensures var at := |PayloadAfter(fp, args[..j])|;
            at + |e| <= |PayloadAfter(fp, args)| && PayloadAfter(fp, args)[at..at + |e|] == e
  {
    BytesOfOption(fp, args, j);
  }

  /**
   After any accepted run, a receiver finds in the packet's payload, where the options before it end,
   what option j encodes to in the byte order in force when it was given.
   */
  lemma PayloadReadsBack(fp: FloatReader, args: seq<Arg>, j: nat)
    requires Run(fp, Initial, args).accepted && j < |args|
    ensures var st := Run(fp, Initial, args).state;
            var d := Decode(st.layout, Packet(st));
            var at, e := |PayloadAfter(fp, args[..j])|, Encoded(fp, BigEndianAfter(args[..j]), args[j]);
            d.Some? && at + |e| <= |d.value.payload| && d.value.payload[at..at + |e|] == e
  {
    RunIsAccount(fp, args);
    DecodedPayload(Run(fp, Initial, args).state);
    BytesOfOption(fp, args, j);
  }

  lemma DecodedPayload(st: State)
    ensures Decode(st.layout, Packet(st)).Some? && Decode(st.layout, Packet(st)).value.payload == st.payload
  {
    DecodePacket(st);
  }

  /** So the bytes of an integer option decode to the number its text was converted to. */
  lemma IntegerReadsBack(fp: FloatReader, args: seq<Arg>, j: nat, width: nat, signed: bool, forced: bool)
    requires Run(fp, Initial, args).accepted && j < |args|
    requires FormatOf(args[j].id) == Some(Integer(width, signed, forced))
    ensures var st := Run(fp, Initial, args).state;
            var d := Decode(st.layout, Packet(st));
            var at := |PayloadAfter(fp, args[..j])|;
            && d.Some? && at + width <= |d.value.payload|
            && DecodeNumber(BigEndianAfter(args[..j]) || forced, signed, d.value.payload[at..at + width])
               == Conversion(signed, args[j].text).value
  {
    RunIsAccount(fp, args);
    DecodedPayload(Run(fp, Initial, args).state);
    IntegerInAccount(fp, args, j, width, signed, forced);
  }

  lemma IntegerInAccount(fp: FloatReader, args: seq<Arg>, j: nat, width: nat, signed: bool, forced: bool)
    requires AllAcceptable(fp, args) && j < |args|
    requires FormatOf(args[j].id) == Some(Integer(width, signed, forced))
    ensures var at, payload := |PayloadAfter(fp, args[..j])|, PayloadAfter(fp, args);
            && at + width <= |payload|
            && DecodeNumber(BigEndianAfter(args[..j]) || forced, signed, payload[at..at + width])
               == Conversion(signed, args[j].text).value
  {
    BytesOfOption(fp, args, j);
    IntegerAt(fp, args, j, width, signed, forced);
  }

  lemma IntegerAt(fp: FloatReader, args: seq<Arg>, j: nat, width: nat, signed: bool, forced: bool)
    requires AllAcceptable(fp, args) && j < |args|
    requires FormatOf(args[j].id) == Some(Integer(width, signed, forced))
    ensures var bigEndian := BigEndianAfter(args[..j]);
            var e := Encoded(fp, bigEndian, args[j]);
            |e| == width && DecodeNumber(bigEndian || forced, signed, e) == Conversion(signed, args[j].text).value
  {
    AcceptableAt(fp, args, j);
    AcceptableEncodes(fp, args[..j], args[j]);
    EncodedInteger(fp, BigEndianAfter(args[..j]), args[j], width, signed, forced);
  }

  lemma AcceptableEncodes(fp: FloatReader, prior: seq<Arg>, arg: Arg)
    requires Acceptable(fp, prior, arg) && FormatOf(arg.id).Some?
    ensures Encoding(fp, BigEndianAfter(prior), FormatOf(arg.id).value, arg.text).Some?
  {
    FormatIsOther(arg.id);
    AcceptablePayload(fp, prior, arg);
  }

  lemma EncodedInteger(fp: FloatReader, bigEndian: bool, arg: Arg, width: nat, signed: bool, forced: bool)
    requires FormatOf(arg.id) == Some(Integer(width, signed, forced))
    requires Encoding(fp, bigEndian, FormatOf(arg.id).value, arg.text).Some?
    ensures |Encoded(fp, bigEndian, arg)| == width
    ensures DecodeNumber(bigEndian || forced, signed, Encoded(fp, bigEndian, arg)) == Conversion(signed, arg.text).value
  {
    var v := Conversion(signed, arg.text).value;
    NumberRoundTrip(bigEndian || forced, width, signed, v);
    var bs := NumberBytes(bigEndian || forced, width, v);
    assert bs + Zeros(0) == bs;
  }

  /** And a numeral of any number that the 64-bit conversion can return comes back as that number. */
  lemma NumeralComesBack(fp: FloatReader, args: seq<Arg>, j: nat, width: nat, signed: bool, forced: bool,
                         negative: bool, n: nat, notation: Notation)
    requires Run(fp, Initial, args).accepted && j < |args|
    requires FormatOf(args[j].id) == Some(Integer(width, signed, forced))
    requires args[j].text == Numeral(negative, n, notation) && In64(signed, if negative then 0 - n else n)
    ensures var st := Run(fp, Initial, args).state;
            var d := Decode(st.layout, Packet(st));
            var at := |PayloadAfter(fp, args[..j])|;
            && d.Some? && at + width <= |d.value.payload|
            && DecodeNumber(BigEndianAfter(args[..j]) || forced, signed, d.value.payload[at..at + width])
               == if negative then 0 - n else n
  {
    IntegerReadsBack(fp, args, j, width, signed, forced);
    NumeralConversion(signed, negative, n, notation);
  }

  /** From index at on there are the first characters of a text, in order, and then zeros. */
  predicate HoldsText(payload: Buffer, at: nat, t: CString, length: nat, padding: nat) {
    && length <= |t| && at + length + padding <= |payload|
    && (forall i :: at <= i < at + length ==> payload[i] == t[i - at] as int)
    && (forall i :: at + length <= i < at + length + padding ==> payload[i] == 0)
  }

  /**
   A text option of an accepted run: in the packet's payload, from where the options before it end, its
   characters stand in order and then zeros, both as many as are left of their sizes modulo 2^32.
   */
  lemma TextReadsBack(fp: FloatReader, args: seq<Arg>, j: nat, n: nat, notation: Notation, t: CString)
    requires Run(fp, Initial, args).accepted && j < |args| && args[j].id == String
    requires 0 < n < U64 && args[j].text == Literal(n, notation) + ":" + t
    ensures var st := Run(fp, Initial, args).state;
            var d := Decode(st.layout, Packet(st));
            var at := |PayloadAfter(fp, args[..j])|;
            && d.Some? && |t| <= n
            && HoldsText(d.value.payload, at, t, |t| % 0x1_0000_0000, (n - |t|) % 0x1_0000_0000)
  {
    RunIsAccount(fp, args);
    DecodedPayload(Run(fp, Initial, args).state);
    SizedScan(n, notation, t);
    TextInAccount(fp, args, j, n, t);
  }

  /** What is left of a text of declared size n. */
  function Image(t: CString, n: nat): Buffer { TextBytes(t[..|t| % U32]) + Zeros((n - |t|) % U32) }

  lemma TextInAccount(fp: FloatReader, args: seq<Arg>, j: nat, n: nat, t: CString)
    requires AllAcceptable(fp, args) && j < |args| && args[j].id == String && IsTextOf(args[j].text, n, t)
    ensures |t| <= n
    ensures HoldsText(PayloadAfter(fp, args), |PayloadAfter(fp, args[..j])|, t, |t| % U32, (n - |t|) % U32)
  {
    TextAt(fp, args, j, n, t);
    EncodedHolds(fp, args, j, n, t);
  }

  lemma EncodedHolds(fp: FloatReader, args: seq<Arg>, j: nat, n: nat, t: CString)
    requires j < |args| && Encoded(fp, BigEndianAfter(args[..j]), args[j]) == Image(t, n)
    ensures HoldsText(PayloadAfter(fp, args), |PayloadAfter(fp, args[..j])|, t, |t| % U32, (n - |t|) % U32)
  {
    BytesAre(fp, args, j, Image(t, n));
    SliceHolds(PayloadAfter(fp, args), |PayloadAfter(fp, args[..j])|, t, n);
  }

  lemma SliceHolds(payload: Buffer, at: nat, t: CString, n: nat)
    requires at + |Image(t, n)| <= |payload| && payload[at..at + |Image(t, n)|] == Image(t, n)
    ensures HoldsText(payload, at, t, |t| % U32, (n - |t|) % U32)
  {
    var slice := payload[at..at + |Image(t, n)|];
    assert forall i :: at <= i < at + |slice| ==> payload[i] == slice[i - at];
  }

  lemma TextAt(fp: FloatReader, args: seq<Arg>, j: nat, n: nat, t: CString)
    requires AllAcceptable(fp, args) && j < |args| && args[j].id == String && IsTextOf(args[j].text, n, t)
    ensures |t| <= n && Encoded(fp, BigEndianAfter(args[..j]), args[j]) == Image(t, n)
  {
    AcceptableAt(fp, args, j);
    StringIsText(args[j].id);
    AcceptableEncodes(fp, args[..j], args[j]);
    EncodedText(fp, BigEndianAfter(args[..j]), args[j], n, t);
  }

  lemma EncodedText(fp: FloatReader, bigEndian: bool, arg: Arg, n: nat, t: CString)
    requires FormatOf(arg.id) == Some(TextFormat) && IsTextOf(arg.text, n, t)
    requires Encoding(fp, bigEndian, TextFormat, arg.text).Some?
    ensures |t| <= n && Encoded(fp, bigEndian, arg) == Image(t, n)
  {
  }

  /** A text without a colon behind its number, or with the number 0, is refused without a change. */
  lemma TextRefused(fp: FloatReader, st: State, text: CString)
    requires var c := StrToUnsigned(text);
             c.tail == |text| || text[c.tail] != ':' || c.value == 0
    ensures PayloadStep(fp, st, TextFormat, text) == Stepped(st, Invalid)
  {
  }

  /** The remaining payload formats: eight bytes for a double, four for a float, and texts. */
  lemma OtherFormats()
    ensures FormatOf(Double) == Some(FloatFormat(8)) && FormatOf(Float) == Some(FloatFormat(4))
    ensures FormatOf(String) == Some(TextFormat)
  {
  }

  /** The options that are no payload. */
  lemma NoFormat(id: OptionId)
    ensures FormatOf(id) == None <==>
            || H.IsHeaderOption(id) || id.Endian? || id.ProtocolName? || id.PktName?
            || id.None_? || id.Help? || id.Verbose? || id.Host? || id.Port?
  {
    if H.IsHeaderOption(id) {
    } else if FormatOf(id) == None {
    } else {
    }
  }

  /** The ranges of the integer types. */
  lemma Ranges()
    ensures MinOf(1, true) == -0x80 && MaxOf(1, true) == 0x7F && MinOf(1, false) == 0 && MaxOf(1, false) == 0xFF
    ensures MinOf(2, true) == -0x8000 && MaxOf(2, true) == 0x7FFF && MinOf(2, false) == 0 && MaxOf(2, false) == 0xFFFF
    ensures MinOf(4, true) == -0x8000_0000 && MaxOf(4, true) == 0x7FFF_FFFF
    ensures MinOf(4, false) == 0 && MaxOf(4, false) == 0xFFFF_FFFF
    ensures MinOf(8, true) == -0x8000_0000_0000_0000 && MaxOf(8, true) == 0x7FFF_FFFF_FFFF_FFFF
    ensures MinOf(8, false) == 0 && MaxOf(8, false) == 0xFFFF_FFFF_FFFF_FFFF
    ensures MinOf(8, true) == -I64
  {
    Widths();
  }

  /** A receiver's reading of a bit pattern. */
  function DecodePattern(bigEndian: bool, bs: Buffer): nat { if bigEndian then BigValue(bs) else LittleValue(bs) }

  /**
   A floating-point option is accepted exactly when its text converts and there is room; its bytes are
   the number's bit pattern in the order in force.
   */
  lemma FloatOption(fp: FloatReader, st: State, width: nat, text: CString)
    requires width in {4, 8}
    ensures var pattern := fp(width, text);
            var s := PayloadStep(fp, st, FloatFormat(width), text);
            && (s.rc == Accepted <==> pattern.Some? && |st.payload| + width <= 2048)
            && (s.rc != Accepted ==> s == Stepped(st, Invalid))
            && (s.rc == Accepted ==>
                  && s.state == st.(payload := st.payload + s.state.payload[|st.payload|..])
                  && |s.state.payload| == |st.payload| + width
                  && DecodePattern(st.bigEndian, s.state.payload[|st.payload|..]) == pattern.value % Pow256(width))
  {
    var pattern := fp(width, text);
    if pattern.Some? {
      var bs := NumberBytes(st.bigEndian, width, pattern.value);
      PatternRoundTrip(st.bigEndian, width, pattern.value);
      AppendFew(st, bs);
      assert (st.payload + bs)[|st.payload|..] == bs;
    }
  }

  lemma PatternRoundTrip(bigEndian: bool, width: nat, v: nat)
    ensures DecodePattern(bigEndian, NumberBytes(bigEndian, width, v)) == v % Pow256(width)
  {
    LittleRoundTrip(width, v % Pow256(width));
    BigRoundTrip(width, v % Pow256(width));
  }

  /** So a receiver finds the bit pattern of every floating-point option, in the order in force when it was given. */
  lemma FloatReadsBack(fp: FloatReader, args: seq<Arg>, j: nat, width: nat)
    requires Run(fp, Initial, args).accepted && j < |args| && FormatOf(args[j].id) == Some(FloatFormat(width))
    ensures var st := Run(fp, Initial, args).state;
            var d := Decode(st.layout, Packet(st));
            var at := |PayloadAfter(fp, args[..j])|;
            && d.Some? && at + width <= |d.value.payload| && fp(width, args[j].text).Some?
            && DecodePattern(BigEndianAfter(args[..j]), d.value.payload[at..at + width])
               == fp(width, args[j].text).value % Pow256(width)
  {
    RunIsAccount(fp, args);
    DecodedPayload(Run(fp, Initial, args).state);
    FloatInAccount(fp, args, j, width);
  }

  lemma FloatInAccount(fp: FloatReader, args: seq<Arg>, j: nat, width: nat)
    requires AllAcceptable(fp, args) && j < |args| && FormatOf(args[j].id) == Some(FloatFormat(width))
    ensures var at, payload := |PayloadAfter(fp, args[..j])|, PayloadAfter(fp, args);
            && at + width <= |payload| && fp(width, args[j].text).Some?
            && DecodePattern(BigEndianAfter(args[..j]), payload[at..at + width])
               == fp(width, args[j].text).value % Pow256(width)
  {
    BytesOfOption(fp, args, j);
    FloatAt(fp, args, j, width);
  }

  lemma FloatAt(fp: FloatReader, args: seq<Arg>, j: nat, width: nat)
    requires AllAcceptable(fp, args) && j < |args| && FormatOf(args[j].id) == Some(FloatFormat(width))
    ensures var bigEndian := BigEndianAfter(args[..j]);
            var e := Encoded(fp, bigEndian, args[j]);
            && |e| == width && fp(width, args[j].text).Some?
            && DecodePattern(bigEndian, e) == fp(width, args[j].text).value % Pow256(width)
  {
    AcceptableAt(fp, args, j);
    AcceptableEncodes(fp, args[..j], args[j]);
    EncodedFloat(fp, BigEndianAfter(args[..j]), args[j], width);
  }

  lemma EncodedFloat(fp: FloatReader, bigEndian: bool, arg: Arg, width: nat)
    requires FormatOf(arg.id) == Some(FloatFormat(width)) && fp(width, arg.text).Some?
    ensures |Encoded(fp, bigEndian, arg)| == width
    ensures DecodePattern(bigEndian, Encoded(fp, bigEndian, arg)) == fp(width, arg.text).value % Pow256(width)
  {
    var bs := NumberBytes(bigEndian, width, fp(width, arg.text).value);
    PatternRoundTrip(bigEndian, width, fp(width, arg.text).value);
    assert bs + Zeros(0) == bs;
  }
}
