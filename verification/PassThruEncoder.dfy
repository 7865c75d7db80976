/**
 The pass-through encoder as the program runs it: an object whose header words are kept in
 the byte order of the host and edited in place, and whose payload array is appended to.
 View() is the state it stands for; every method is proved against the function of that state.
 */
module PassThruEncoder {
  import opened Wrappers
  import opened Bits
  import opened Bytes
  import opened Strto
  import opened CmdSend
  import opened PassThru
  import Fields

  /** Conversion of a number to an integer type of the given width. */
  function Truncate(width: nat, signed: bool, v: int): int {
    var u := v % Pow256(width);
    if signed && u >= Pow256(width) / 2 then u - Pow256(width) else u
  }

  /** The narrowing test of the payload integers accepts exactly the numbers in range. */
  lemma NarrowingTest(width: nat, signed: bool, v: int)
    requires width in {1, 2, 4, 8}
    ensures Truncate(width, signed, v) == v <==> MinOf(width, signed) <= v <= MaxOf(width, signed)
    ensures Truncate(width, signed, v) % Pow256(width) == v % Pow256(width)
  {
    Widths();
    if width == 1 { NarrowingAt(0x100, signed, v); }
    else if width == 2 { NarrowingAt(0x1_0000, signed, v); }
    else if width == 4 { NarrowingAt(U32, signed, v); }
    else { NarrowingAt(U32 * U32, signed, v); }
  }

  lemma NarrowingAt(p: nat, signed: bool, v: int)
    requires p in {0x100, 0x1_0000, U32, U32 * U32}
    ensures var u := if signed && v % p >= p / 2 then v % p - p else v % p;
            && (u == v <==> if signed then -(p / 2) <= v <= p / 2 - 1 else 0 <= v <= p - 1)
            && u % p == v % p
  {
    if p == 0x100 {} else if p == 0x1_0000 {} else if p == U32 {} else {}
  }

  lemma ShiftRightStep(n: nat, s: nat)
    ensures n / Pow2(s + 1) == n / Pow2(s) / 2
  {
    var p := Pow2(s);
    var q := n / p;
    assert n == (q / 2) * (2 * p) + (q % 2 * p + n % p) by {
      assert n == q * p + n % p;
      assert (2 * (q / 2) + q % 2) * p == (q / 2) * (2 * p) + q % 2 * p;
    }
    DivModUnique(n, 2 * p, q / 2, q % 2 * p + n % p);
  }

  lemma AndOne(n: nat)
    ensures And(n, 1) == n % 2
  {
  }

  /** The search for the lowest set bit of a mask. */
  method FindShift(mask: nat) returns (shift: nat)
    requires mask > 0
    ensures shift == Fields.ShiftOf(mask)
    ensures Bit(mask, shift) && forall i: nat :: i < shift ==> !Bit(mask, i)
  {
    shift := 0;
    while And(mask / Pow2(shift), 1) == 0
      invariant mask / Pow2(shift) > 0
      invariant shift + Fields.ShiftOf(mask / Pow2(shift)) == Fields.ShiftOf(mask)
      decreases mask / Pow2(shift)
    {
      ShiftRightStep(mask, shift);
      AndOne(mask / Pow2(shift));
      shift := shift + 1;
    }
    AndOne(mask / Pow2(shift));
    Fields.LowestBit(mask);
  }

  /** The running checksum of the first n bytes. */
  method CalcChecksum(buf: array<byte>, n: nat) returns (checksum: byte)
    requires n <= buf.Length
    ensures checksum == Checksum(buf[..n])
  {
    checksum := 0xFF;
    for i := 0 to n
      invariant checksum == Checksum(buf[..i])
    {
      assert buf[..i + 1][..i] == buf[..i];
      checksum := XorByte(checksum, buf[i]);
    }
  }

  /** The width and signedness of an integer option, and whether it is always big-endian. */
  method SelectInteger(id: OptionId) returns (width: nat, signed: bool, forced: bool)
    requires FormatOf(id).Some? && FormatOf(id).value.Integer?
    ensures FormatOf(id) == Some(Integer(width, signed, forced))
  {
    forced := id.Int16b? || id.Uint16b? || id.Int32b? || id.Uint32b? || id.Int64b? || id.Uint64b?;
    if id.Byte? || id.Int8? {
      width, signed := 1, true;
    } else if id.Int16b? || id.Half? || id.Int16? {
      width, signed := 2, true;
    } else if id.Long? || id.Word? || id.Int32b? || id.Int32? {
      width, signed := 4, true;
    } else if id.Uint8? {
      width, signed := 1, false;
    } else if id.Uint16b? || id.Uint16? {
      width, signed := 2, false;
    } else if id.Uint32b? || id.Uint32? {
      width, signed := 4, false;
    } else if id.Uint64b? || id.Uint64? {
      width, signed := 8, false;
    } else {
      width, signed := 8, true;
    }
  }

  lemma TextOption(id: OptionId)
    ensures id.String? ==> FormatOf(id) == Some(TextFormat)
    ensures id.None_? ==> FormatOf(id) == None
  {
  }

  lemma NumberFormat(id: OptionId)
    requires FormatOf(id).Some? && !id.String?
    ensures if id.Double? then FormatOf(id) == Some(FloatFormat(8))
            else if id.Float? then FormatOf(id) == Some(FloatFormat(4))
            else FormatOf(id).value.Integer?
  {
  }

  class Encoder {
    const little: bool
    const fp: FloatReader
    const header: array<word>
    const payload: array<byte>
    var payloadBytes: nat
    var bigEndian: bool
    var payloadError: bool
    var layout: Layout
    var overrides: Overrides

    ghost predicate Valid()
      reads this, header, payload
    {
      header.Length == 6 && payload.Length == MAX_PACKET && payloadBytes <= MAX_PACKET
      && header as object != payload as object
    }

    /** The value of a stored header word. */
    function WordAt(k: nat): word
      requires k < header.Length
      reads header
    {
      BigOrder(little, header[k])
    }

    ghost function Words(): (ws: seq<word>)
      requires header.Length == 6
      reads header
      ensures |ws| == 6 && forall j :: 0 <= j < 6 ==> ws[j] == WordAt(j)
    {
      [WordAt(0), WordAt(1), WordAt(2), WordAt(3), WordAt(4), WordAt(5)]
    }

    ghost function Body(): (bs: Buffer)
      requires payloadBytes <= payload.Length
      reads this`payloadBytes, payload
      ensures |bs| == payloadBytes
    {
      payload[..payloadBytes]
    }

    ghost function View(): State
      requires Valid()
      reads this, header, payload
    {
      State(Words(), layout, bigEndian, overrides, Body())
    }

    constructor (little: bool, fp: FloatReader)
      ensures Valid() && fresh(header) && fresh(payload)
      ensures View() == Initial && this.little == little && this.fp == fp && !payloadError
    {
      this.little := little;
      this.fp := fp;
      header := new word[6](_ => 0);
      payload := new byte[MAX_PACKET](_ => 0);
      payloadBytes := 0;
      bigEndian := true;
      payloadError := false;
      overrides := Overrides(false, false, false, false, false, false);
      layout := Layout(true, false, true);
      new;
      SwapWord(0);
    }

    method SetProtocol(selected: Protocol) returns (rc: OptParse)
      requires Valid()
      modifies this`layout
      ensures Valid()
      ensures Stepped(View(), rc) == ProtocolStep(old(View()), selected)
    {
      layout := Layout(false, false, false);
      match selected {
        case CcsdsPri =>
          layout := layout.(pri := true);
        case CcsdsExt =>
          layout := layout.(pri := true, ext := true);
        case CfsV1 =>
          layout := layout.(pri := true, sec := true);
        case CfsV2 =>
          layout := layout.(pri := true, ext := true, sec := true);
        case Raw =>
        case NoProtocol =>
          return Invalid;
      }
      rc := Accepted;
    }

    /** Writes the number in a text into the masked bits of header word k. */
    method ProcessField(k: nat, text: CString, mask: nat, fieldExists: bool) returns (rc: OptParse)
      requires Valid() && k < 6 && 0 < mask < 0x1_0000
      modifies header
      ensures Valid()
      ensures Stepped(View(), rc) == FieldWrite(old(View()), k, text, mask, fieldExists)
    {
      if !fieldExists {
        return Invalid;
      }
      var shift := FindShift(mask);
      var c := StrToUnsigned(text);
      if c.range || c.tail == 0 {
        return Invalid;
      }
      if c.tail != |text| {
        return Invalid;
      }
      var shifted := Fields.ShiftLeft(c.value, shift);
      if AndNot(shifted, mask) != 0 {
        return Invalid;
      }
      StoreField(k, mask, shifted);
      rc := Accepted;
    }

    /** The read-modify-write of a stored header word. */
    method StoreField(k: nat, mask: nat, shifted: nat)
      requires Valid() && k < 6 && mask < 0x1_0000
      modifies header
      ensures Valid()
      ensures var ws := old(View()).words;
              View() == old(View()).(words := ws[k := MergeWord(ws[k], mask, And(shifted, mask))])
    {
      ghost var merged := MergeWord(WordAt(k), mask, And(shifted, mask));
      MergeMasked(WordAt(k), mask, shifted);
      header[k] := BigOrder(little, Or(AndNot(BigOrder(little, header[k]), mask), And(shifted, mask)));
      BigOrderTwice(little, merged);
      assert Words() == old(Words())[k := merged];
    }

    /** Appends bytes to the payload. */
    method CopyData(data: Buffer, nbytes: nat) returns (rc: OptParse)
      requires Valid() && nbytes == |data| < U32
      modifies this`payloadBytes, payload
      ensures Valid()
      ensures Stepped(View(), rc) == Append(old(View()), Chunk(data, 0))
    {
      if (payloadBytes + nbytes) % U32 > MAX_PACKET {
        return Invalid;
      }
      // The program has no such test; its write would leave the payload here.
      if payloadBytes + nbytes > MAX_PACKET {
        return Overrun;
      }
      forall i | 0 <= i < nbytes {
        payload[payloadBytes + i] := data[i];
      }
      payloadBytes := payloadBytes + nbytes;
      rc := Accepted;
      assert payload[..payloadBytes] == old(payload[..payloadBytes]) + data + Zeros(0);
    }

    /** Appends a run of equal bytes to the payload. */
    method PadData(val: byte, nbytes: nat) returns (rc: OptParse)
      requires Valid() && nbytes < U32
      modifies this`payloadBytes, payload
      ensures Valid()
      ensures Stepped(View(), rc) == Append(old(View()), Chunk(seq(nbytes, _ => val), 0))
    {
      if (payloadBytes + nbytes) % U32 > MAX_PACKET {
        return Invalid;
      }
      // The program has no such test; its write would leave the payload here.
      if payloadBytes + nbytes > MAX_PACKET {
        return Overrun;
      }
      forall i | 0 <= i < nbytes {
        payload[payloadBytes + i] := val;
      }
      payloadBytes := payloadBytes + nbytes;
      rc := Accepted;
      assert payload[..payloadBytes] == old(payload[..payloadBytes]) + seq(nbytes, _ => val) + Zeros(0);
    }

    /** Converts a fixed-width number to the selected byte order in memory and appends that memory. */
    method CopyNumber(width: nat, v: nat, big: bool) returns (rc: OptParse)
      requires Valid() && width in {1, 2, 4, 8} && v < Pow256(width)
      modifies this`payloadBytes, payload
      ensures Valid()
      ensures Stepped(View(), rc) == Append(old(View()), Chunk(NumberBytes(big, width, v), 0))
    {
      var converted := if big then HostToBig(little, width, v) else HostToLittle(little, width, v);
      MemoryOrder(little, width, v);
      SmallMod(v, Pow256(width));
      rc := CopyData(Memory(little, width, converted), width);
    }

    method ParseInteger(text: CString, width: nat, signed: bool, forced: bool) returns (rc: OptParse)
      requires Valid() && width in {1, 2, 4, 8}
      modifies this`payloadBytes, payload
      ensures Valid()
      ensures Stepped(View(), rc) == PayloadStep(fp, old(View()), Integer(width, signed, forced), text)
    {
      var c := if signed then StrToSigned(text) else StrToUnsigned(text);
      var temp := Truncate(width, signed, c.value);
      NarrowingTest(width, signed, c.value);
      if c.tail == 0 || temp != c.value {
        return Invalid;
      }
      PatternTwice(width, bigEndian || forced, temp);
      rc := CopyNumber(width, temp % Pow256(width), bigEndian || forced);
    }

    method ParseFloat(text: CString, width: nat) returns (rc: OptParse)
      requires Valid() && width in {4, 8}
      modifies this`payloadBytes, payload
      ensures Valid()
      ensures Stepped(View(), rc) == PayloadStep(fp, old(View()), FloatFormat(width), text)
    {
      var pattern := fp(width, text);
      if pattern == None {
        return Invalid;
      }
      PatternTwice(width, bigEndian, pattern.value);
      rc := CopyNumber(width, pattern.value % Pow256(width), bigEndian);
    }

    method ParseString(arg: Arg) returns (rc: OptParse)
      requires Valid() && arg.id.String?
      modifies this`payloadBytes, payload
      ensures Valid()
      ensures Stepped(View(), rc) == PayloadStep(fp, old(View()), TextFormat, arg.text)
    {
      var text := arg.text;
      var c := StrToUnsigned(text);
      if c.tail == |text| || text[c.tail] != ':' || c.value == 0 {
        return Invalid;
      }
      var rest := text[c.tail + 1..];
      var len := |rest|;
      if len > c.value {
        return Invalid;
      }
      rc := CopyText(rest, c.value);
    }

    /** Copies a text over and zero-pads it to n bytes; both sizes are narrowed to 32 bits. */
    method CopyText(text: CString, n: nat) returns (rc: OptParse)
      requires Valid() && |text| <= n
      modifies this`payloadBytes, payload
      ensures Valid()
      ensures Stepped(View(), rc)
              == Append(old(View()), Chunk(TextBytes(text[..|text| % U32]), (n - |text|) % U32))
    {
      var body := TextBytes(text[..|text| % U32]);
      AppendInParts(View(), body, (n - |text|) % U32);
      rc := CopyData(body, |text| % U32);
      if rc == Accepted && |text| != n {
        rc := PadData(0, (n - |text|) % U32);
      }
    }

    /** Handles one option. */
    method ParseOption(arg: Arg) returns (rc: OptParse)
      requires Valid()
      modifies this, header, payload
      ensures Valid()
      ensures Stepped(View(), rc) == Step(fp, old(View()), arg)
      ensures payloadError <==> old(payloadError) || arg.id.None_?
    {
      if arg.id.Endian? {
        rc := SetEndian(arg.text);
      } else if arg.id.ProtocolName? {
        rc := SetProtocol(ProtocolFromString(arg.text));
      } else if FieldOf(arg.id).Some? {
        rc := ParseHeaderOption(arg);
      } else {
        rc := ParsePayloadOption(arg);
      }
    }

    /** The cases of the option switch that append to the payload, and the default case. */
    method ParsePayloadOption(arg: Arg) returns (rc: OptParse)
      requires Valid()
      requires FieldOf(arg.id) == None && !arg.id.Endian? && !arg.id.ProtocolName?
      modifies this`payloadBytes, this`payloadError, payload
      ensures Valid()
      ensures Stepped(View(), rc) ==
              if FormatOf(arg.id).Some? then PayloadStep(fp, old(View()), FormatOf(arg.id).value, arg.text)
              else Stepped(old(View()), Undefined)
      ensures payloadError <==> old(payloadError) || arg.id.None_?
    {
      TextOption(arg.id);
      if arg.id.String? {
        rc := ParseString(arg);
      } else if FormatOf(arg.id).Some? {
        rc := ParseNumberOption(arg);
      } else {
        if arg.id.None_? {
          payloadError := true;
        }
        rc := Undefined;
      }
    }

    method SetEndian(text: string) returns (rc: OptParse)
      requires Valid()
      modifies this`bigEndian
      ensures Valid()
      ensures Stepped(View(), rc) == EndianStep(old(View()), text)
    {
      if text == "LE" {
        bigEndian := false;
        rc := Accepted;
      } else if text == "BE" {
        bigEndian := true;
        rc := Accepted;
      } else {
        rc := Invalid;
      }
    }

    /** The word, the mask and the presence of an option's field. */
    method SelectField(id: OptionId) returns (k: nat, mask: nat, fieldExists: bool)
      requires Valid() && FieldOf(id).Some?
      ensures var f := FieldOf(id).value;
              k == f.index && mask == f.mask && fieldExists == Included(View().layout, f.group)
    {
      if id.PktApid? {
        k, mask, fieldExists := 0, 0x07FF, layout.pri;
      } else if id.PktPb? {
        k, mask, fieldExists := 3, 0x0200, layout.ext;
      } else if id.CmdCode? || id.PktFc? {
        k, mask, fieldExists := 5, 0x7F00, layout.sec;
      } else if id.PktEdsVer? {
        k, mask, fieldExists := 3, 0xF800, layout.ext;
      } else if id.PktSeqFlg? {
        k, mask, fieldExists := 1, 0xC000, layout.pri;
      } else if id.PktSeqCnt? {
        k, mask, fieldExists := 1, 0x3FFF, layout.pri;
      } else if id.PktId? {
        k, mask, fieldExists := 0, 0xFFFF, layout.pri;
      } else if id.PktEndian? {
        k, mask, fieldExists := 3, 0x0400, layout.ext;
      } else if id.PktLen? {
        k, mask, fieldExists := 2, 0xFFFF, layout.pri;
      } else if id.PktCksum? {
        k, mask, fieldExists := 5, 0x00FF, layout.sec;
      } else if id.PktSec? {
        k, mask, fieldExists := 0, 0x0800, layout.pri;
      } else if id.PktType? {
        k, mask, fieldExists := 0, 0x1000, layout.pri;
      } else if id.PktSubsys? {
        k, mask, fieldExists := 3, 0x01FF, layout.ext;
      } else if id.PktVer? {
        k, mask, fieldExists := 0, 0xE000, layout.pri;
      } else {
        k, mask, fieldExists := 4, 0xFFFF, layout.ext;
      }
    }

    /** The cases of the option switch that write a header field. */
    method ParseHeaderOption(arg: Arg) returns (rc: OptParse)
      requires Valid() && FieldOf(arg.id).Some?
      modifies this, header
      ensures Valid() && unchanged(this`payloadError)
      ensures Stepped(View(), rc) == HeaderStep(old(View()), FieldOf(arg.id).value, arg.id, arg.text)
    {
      var k, mask, fieldExists := SelectField(arg.id);
      rc := ProcessField(k, arg.text, mask, fieldExists);
      MarkOverride(arg.id);
    }

    /** Whether or not the value was accepted, the field is noted as overridden. */
    method MarkOverride(id: OptionId)
      modifies this`overrides
      ensures overrides == Overriding(old(overrides), id)
    {
      if id.PktSeqFlg? {
        overrides := overrides.(seqFlags := true);
      } else if id.PktEndian? {
        overrides := overrides.(endian := true);
      } else if id.PktLen? {
        overrides := overrides.(length := true);
      } else if id.PktCksum? {
        overrides := overrides.(checksum := true);
      } else if id.PktSec? {
        overrides := overrides.(pktSec := true);
      } else if id.PktType? {
        overrides := overrides.(pktType := true);
      }
    }

    /** The cases of the option switch that append a number. */
    method ParseNumberOption(arg: Arg) returns (rc: OptParse)
      requires Valid() && FormatOf(arg.id).Some? && !arg.id.String?
      modifies this`payloadBytes, payload
      ensures Valid()
      ensures Stepped(View(), rc) == PayloadStep(fp, old(View()), FormatOf(arg.id).value, arg.text)
    {
      NumberFormat(arg.id);
      if arg.id.Double? {
        rc := ParseFloat(arg.text, 8);
      } else if arg.id.Float? {
        rc := ParseFloat(arg.text, 4);
      } else {
        rc := ParseIntegerOption(arg.id, arg.text);
      }
    }

    method ParseIntegerOption(id: OptionId, text: CString) returns (rc: OptParse)
      requires Valid() && FormatOf(id).Some? && FormatOf(id).value.Integer?
      modifies this`payloadBytes, payload
      ensures Valid()
      ensures Stepped(View(), rc) == PayloadStep(fp, old(View()), FormatOf(id).value, text)
    {
      var width, signed, forced := SelectInteger(id);
      rc := ParseInteger(text, width, signed, forced);
    }

    /** Emits the packet into out when it fits in sz bytes, first filling in the defaulted fields. */
    method GetPackedObject(out: array<byte>, sz: nat) returns (ok: bool, size: nat)
      requires Valid() && sz <= out.Length && out != payload && out as object != header as object
      modifies header, out
      ensures Valid()
      ensures ok <==> Total(old(View())) <= sz
      ensures !ok ==> View() == old(View()) && out[..] == old(out[..])
      ensures ok ==>
                && View() == Finish(old(View()))
                && size == Total(old(View()))
                && out[..size] == Packet(old(View()))
                && forall i :: size <= i < out.Length ==> out[i] == old(out[i])
    {
      size := PacketSize();
      if size > sz {
        return false, size;
      }
      SetDefaults(size);
      var n := CopyHeaders(out);
      SealHeader(out, n);
      CopyPayload(out, n);
      ok := true;
    }

    /** The size of the packet. */
    method PacketSize() returns (nbytes: nat)
      requires Valid()
      ensures nbytes == Total(View())
    {
      nbytes := payloadBytes;
      if layout.pri {
        nbytes := nbytes + 6;
      }
      if layout.ext {
        nbytes := nbytes + 4;
      }
      if layout.sec {
        nbytes := nbytes + 2;
      }
    }

    /** Replaces the last header byte by the checksum of the header unless the checksum was given. */
    method SealHeader(out: array<byte>, n: nat)
      requires Valid() && n <= out.Length && out != payload && out as object != header as object
      requires n == HeaderSize(View().layout) && out[..n] == HeaderBytes(View())
      modifies out
      ensures out[..n] == SealedHeader(View())
      ensures forall i :: n <= i < out.Length ==> out[i] == old(out[i])
    {
      ghost var plain := out[..n];
      if layout.sec && !overrides.checksum {
        var sum := CalcChecksum(out, n);
        out[n - 1] := sum;
        assert out[..n] == plain[n - 1 := Checksum(plain)];
      }
    }

    /** Copies the payload behind the header. */
    method CopyPayload(out: array<byte>, n: nat)
      requires Valid() && n + payloadBytes <= out.Length && out != payload && out as object != header as object
      modifies out
      ensures out[..n + payloadBytes] == old(out[..n]) + View().payload
      ensures forall i :: n + payloadBytes <= i < out.Length ==> out[i] == old(out[i])
    {
      forall i | 0 <= i < payloadBytes {
        out[n + i] := payload[i];
      }
      assert out[..n] == old(out[..n]);
      assert out[n..n + payloadBytes] == payload[..payloadBytes];
      assert out[..n + payloadBytes] == out[..n] + out[n..n + payloadBytes];
    }

    /** Sets the defaulted fields; only the length depends on the size of the packet. */
    method SetDefaults(nbytes: nat)
      requires Valid() && nbytes == Total(View())
      modifies header
      ensures Valid()
      ensures View() == Finish(old(View()))
    {
      DefaultsInTurn(View(), Words());
      SetFlags();
      StoreLength((nbytes - 7) % 0x1_0000, !overrides.length);
      OrHeader(3, 0x0400, !overrides.endian && !bigEndian);
    }

    /** The packet type, the secondary header flag and the sequence flags. */
    method SetFlags()
      requires Valid()
      modifies header
      ensures Valid()
      ensures var ws := old(Words());
              var a := ws[0 := OrWord(ws[0], if !overrides.pktType then 0x1000 else 0)];
              var b := a[0 := OrWord(a[0], if !overrides.pktSec && layout.sec then 0x0800 else 0)];
              Words() == b[1 := OrWord(b[1], if !overrides.seqFlags then 0xC000 else 0)]
    {
      OrHeader(0, 0x1000, !overrides.pktType);
      OrHeader(0, 0x0800, !overrides.pktSec && layout.sec);
      OrHeader(1, 0xC000, !overrides.seqFlags);
    }

    /** Stores the length word unless the field is overridden. */
    method StoreLength(length: word, apply: bool)
      requires Valid()
      modifies header
      ensures Valid()
      ensures Words() == if apply then old(Words())[2 := length] else old(Words())
    {
      if apply {
        header[2] := BigOrder(little, length);
        BigOrderTwice(little, length);
      }
      assert Words() == if apply then old(Words())[2 := length] else old(Words());
    }

    /** Sets default bits in a stored header word unless the field is overridden. */
    method OrHeader(k: nat, bits: word, apply: bool)
      requires Valid() && k < 6
      modifies header
      ensures Valid()
      ensures Words() == old(Words())[k := OrWord(old(Words())[k], if apply then bits else 0)]
    {
      if apply {
        OrThroughMemory(little, header[k], bits);
        header[k] := Or(header[k], BigOrder(little, bits));
      }
      assert Words() == old(Words())[k := OrWord(old(Words())[k], if apply then bits else 0)];
    }

    /** Copies the selected headers to the front of out. */
    method CopyHeaders(out: array<byte>) returns (n: nat)
      requires Valid() && Total(View()) <= out.Length && out != payload && out as object != header as object
      modifies out
      ensures n == HeaderSize(View().layout)
      ensures out[..n] == HeaderBytes(View())
      ensures forall i :: n <= i < out.Length ==> out[i] == old(out[i])
    {
      n := CopyPrimary(out);
      n := CopyExtended(out, n);
      n := CopySecondary(out, n);
    }

    method CopyPrimary(out: array<byte>) returns (n: nat)
      requires Valid() && Total(View()) <= out.Length && out != payload && out as object != header as object
      modifies out
      ensures n == if layout.pri then 6 else 0
      ensures out[..n] == PrimaryBytes(View())
      ensures forall i :: n <= i < out.Length ==> out[i] == old(out[i])
    {
      n := 0;
      if layout.pri {
        CopyWord(out, 0, 0);
        assert out[..2] == BigEndian(2, WordAt(0));
        CopyWord(out, 2, 1);
        assert out[..4] == BigEndian(2, WordAt(0)) + BigEndian(2, WordAt(1));
        CopyWord(out, 4, 2);
        n := 6;
      }
    }

    method CopyExtended(out: array<byte>, at: nat) returns (n: nat)
      requires Valid() && at + (if layout.ext then 4 else 0) <= out.Length
      requires out != payload && out as object != header as object
      modifies out
      ensures n == at + if layout.ext then 4 else 0
      ensures out[..n] == old(out[..at]) + ExtendedBytes(View())
      ensures forall i :: n <= i < out.Length ==> out[i] == old(out[i])
    {
      n := at;
      if layout.ext {
        CopyWord(out, at, 3);
        CopyWord(out, at + 2, 4);
        n := at + 4;
      }
    }

    method CopySecondary(out: array<byte>, at: nat) returns (n: nat)
      requires Valid() && at + (if layout.sec then 2 else 0) <= out.Length
      requires out != payload && out as object != header as object
      modifies out
      ensures n == at + if layout.sec then 2 else 0
      ensures out[..n] == old(out[..at]) + SecondaryBytes(View())
      ensures forall i :: n <= i < out.Length ==> out[i] == old(out[i])
    {
      n := at;
      if layout.sec {
        CopyWord(out, at, 5);
        n := at + 2;
      }
    }

    /** Copies the memory of one stored word to out. */
    method CopyWord(out: array<byte>, at: nat, k: nat)
      requires Valid() && k < 6 && at + 2 <= out.Length && out != payload && out as object != header as object
      modifies out
      ensures out[..at + 2] == old(out[..at]) + BigEndian(2, WordAt(k))
      ensures forall i :: at + 2 <= i < out.Length ==> out[i] == old(out[i])
    {
      BigOrderTwice(little, WordAt(k));
      BigOrderTwice(little, header[k]);
      var memory := Memory(little, 2, header[k]);
      out[at], out[at + 1] := memory[0], memory[1];
    }
  }

  /** A text and its padding may be appended one after the other. */
  lemma AppendInParts(st: State, body: Buffer, padding: nat)
    ensures var copied := Append(st, Chunk(body, 0));
            && (copied.rc == Accepted ==>
                  Append(copied.state, Chunk(seq(padding, _ => 0), 0)) == Append(st, Chunk(body, padding)))
            && (copied.rc != Accepted ==> copied == Append(st, Chunk(body, padding)))
  {
    assert st.payload + body + Zeros(0) == st.payload + body;
    assert st.payload + body + seq(padding, _ => 0) + Zeros(0) == st.payload + body + Zeros(padding);
  }

  lemma OrThroughMemory(little: bool, stored: word, bits: word)
    ensures Or(stored, BigOrder(little, bits)) < 0x1_0000
    ensures BigOrder(little, Or(stored, BigOrder(little, bits))) == OrWord(BigOrder(little, stored), bits)
  {
    BigOrderTwice(little, stored);
    OrStored(little, BigOrder(little, stored), bits);
  }

  /** The two default bits of the first word may be set one after the other. */
  lemma OrDefaults(st: State)
    ensures OrWord(OrWord(st.words[0], if st.overrides.pktType then 0 else 0x1000),
                   if st.overrides.pktSec || !st.layout.sec then 0 else 0x0800)
            == OrWord(st.words[0], DefaultBits(st, 0))
  {
    var a: word := if st.overrides.pktType then 0 else 0x1000;
    var b: word := if st.overrides.pktSec || !st.layout.sec then 0 else 0x0800;
    OrAssociative(st.words[0], a, b);
    DefaultPair();
  }

  lemma DefaultPair()
    ensures Or(0x1000, 0x0800) == 0x1800
  {
    OrBytes(0x10, 0, 0x08, 0);
    assert Or(0x10, 0x08) == 0x18;
  }

  /** Setting the defaults word by word gives the words of the finished state. */
  lemma DefaultsInTurn(st: State, ws: seq<word>)
    requires ws == st.words
    ensures var a := ws[0 := OrWord(ws[0], if !st.overrides.pktType then 0x1000 else 0)];
            var b := a[0 := OrWord(a[0], if !st.overrides.pktSec && st.layout.sec then 0x0800 else 0)];
            var c := b[1 := OrWord(b[1], if !st.overrides.seqFlags then 0xC000 else 0)];
            var d := if !st.overrides.length then c[2 := (Total(st) - 7) % 0x1_0000] else c;
            d[3 := OrWord(d[3], if !st.overrides.endian && !st.bigEndian then 0x0400 else 0)] == Finish(st).words
  {
    OrDefaults(st);
  }

  lemma MergeMasked(w: word, mask: nat, bits: nat)
    requires mask < 0x1_0000
    ensures MergeWord(w, mask, And(bits, mask)) == Merge(w, mask, bits)
    ensures Merge(w, mask, bits) == Or(AndNot(w, mask), And(bits, mask)) < 0x1_0000
  {
    Fields.Pow64();
    MergeBelow(w, mask, bits, 16);
    AndTwice(bits, mask);
  }

  lemma SmallMod(v: nat, m: nat)
    requires v < m
    ensures v % m == v
  {
  }

  lemma PatternTwice(width: nat, big: bool, v: int)
    ensures NumberBytes(big, width, v % Pow256(width)) == NumberBytes(big, width, v)
  {
    SmallMod(v % Pow256(width), Pow256(width));
  }
}
