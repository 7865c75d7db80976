/**
 The pass-through encoder as a function of its state: what one option does, and the packet
 that a state stands for. Nothing here depends on the byte order of the host.
 */
module PassThru {
  import opened Wrappers
  import opened Bits
  import opened Bytes
  import opened Strto
  import opened CmdSend
  import Fields

  // ---- state ----

  /** Which of the three headers the selected protocol has. */
  datatype Layout = Layout(pri: bool, ext: bool, sec: bool)

  /** The fields whose default was overridden by an option. */
  datatype Overrides = Overrides(
    pktType: bool, pktSec: bool, seqFlags: bool, length: bool, endian: bool, checksum: bool)

  /** Words 0-2 are the primary header, 3-4 the extended header, 5 the cFS command header. */
  datatype RawState = State(
    words: seq<word>, layout: Layout, bigEndian: bool, overrides: Overrides, payload: Buffer)

  type State = s: RawState | |s.words| == 6 && |s.payload| <= MAX_PACKET
    witness Initial

  const Initial: RawState :=
    State([0, 0, 0, 0, 0, 0], Layout(true, false, true), true,
          Overrides(false, false, false, false, false, false), [])

  datatype Stepped = Stepped(state: State, rc: OptParse)

  // ---- options that write a header field ----

  datatype Group = Primary | Extended | Secondary

  datatype Field = Field(index: nat, mask: nat, group: Group)

  function FieldOf(id: OptionId): (f: Option<Field>)
    ensures f.Some? ==> f.value.index < 6 && 0 < f.value.mask < 0x1_0000
  {
    if id.PktApid? then Some(Field(0, 0x07FF, Primary))
    else if id.PktId? then Some(Field(0, 0xFFFF, Primary))
    else if id.PktSec? then Some(Field(0, 0x0800, Primary))
    else if id.PktType? then Some(Field(0, 0x1000, Primary))
    else if id.PktVer? then Some(Field(0, 0xE000, Primary))
    else if id.PktSeqFlg? then Some(Field(1, 0xC000, Primary))
    else if id.PktSeqCnt? then Some(Field(1, 0x3FFF, Primary))
    else if id.PktLen? then Some(Field(2, 0xFFFF, Primary))
    else if id.PktPb? then Some(Field(3, 0x0200, Extended))
    else if id.PktEdsVer? then Some(Field(3, 0xF800, Extended))
    else if id.PktEndian? then Some(Field(3, 0x0400, Extended))
    else if id.PktSubsys? then Some(Field(3, 0x01FF, Extended))
    else if id.PktSys? then Some(Field(4, 0xFFFF, Extended))
    else if id.CmdCode? || id.PktFc? then Some(Field(5, 0x7F00, Secondary))
    else if id.PktCksum? then Some(Field(5, 0x00FF, Secondary))
    else None
  }

  predicate Included(layout: Layout, group: Group) {
    match group
    case Primary => layout.pri
    case Extended => layout.ext
    case Secondary => layout.sec
  }

  /** A default is overridden by its own option. */
  function Overriding(o: Overrides, id: OptionId): Overrides {
    Overrides(o.pktType || id == PktType, o.pktSec || id == PktSec, o.seqFlags || id == PktSeqFlg,
              o.length || id == PktLen, o.endian || id == PktEndian, o.checksum || id == PktCksum)
  }

  /** The bits a text stores in a field: the whole text must be one number that fits. */
  function FieldBits(text: string, mask: nat): (bits: Option<nat>)
    requires mask > 0
    ensures bits.Some? ==> bits.value <= mask
  {
    var c := StrToUnsigned(text);
    if c.range || c.tail == 0 || c.tail != |text| then None else Fields.Place(c.value, mask)
  }

  function MergeWord(w: word, mask: nat, bits: nat): word
    requires mask < 0x1_0000
  {
    Fields.Pow64();
    MergeBelow(w, mask, bits, 16);
    Merge(w, mask, bits)
  }

  /** The number in a text written to the masked bits of word k, if the protocol has that word. */
  function FieldWrite(st: State, k: nat, text: string, mask: nat, fieldExists: bool): Stepped
    requires k < 6 && 0 < mask < 0x1_0000
  {
    var bits := if fieldExists then FieldBits(text, mask) else None;
    if bits == None then Stepped(st, Invalid)
    else Stepped(st.(words := st.words[k := MergeWord(st.words[k], mask, bits.value)]), Accepted)
  }

  /** A header option: the field write, and the note that a default is overridden even when it is refused. */
  function HeaderStep(st: State, f: Field, id: OptionId, text: string): Stepped
    requires f.index < 6 && 0 < f.mask < 0x1_0000
  {
    var written := FieldWrite(st, f.index, text, f.mask, Included(st.layout, f.group));
    Stepped(written.state.(overrides := Overriding(st.overrides, id)), written.rc)
  }

  // ---- options that append to the payload ----

  datatype Format = Integer(width: nat, signed: bool, forced: bool) | FloatFormat(width: nat) | TextFormat

  function FormatOf(id: OptionId): (f: Option<Format>)
    ensures f.Some? && !f.value.TextFormat? ==> f.value.width in {1, 2, 4, 8}
  {
    if id.Byte? || id.Int8? then Some(Integer(1, true, false))
    else if id.Int16b? then Some(Integer(2, true, true))
    else if id.Half? || id.Int16? then Some(Integer(2, true, false))
    else if id.Long? || id.Word? || id.Int32? then Some(Integer(4, true, false))
    else if id.Int32b? then Some(Integer(4, true, true))
    else if id.Int64b? then Some(Integer(8, true, true))
    else if id.Int64? then Some(Integer(8, true, false))
    else if id.Uint8? then Some(Integer(1, false, false))
    else if id.Uint16b? then Some(Integer(2, false, true))
    else if id.Uint16? then Some(Integer(2, false, false))
    else if id.Uint32b? then Some(Integer(4, false, true))
    else if id.Uint32? then Some(Integer(4, false, false))
    else if id.Uint64b? then Some(Integer(8, false, true))
    else if id.Uint64? then Some(Integer(8, false, false))
    else if id.Double? then Some(FloatFormat(8))
    else if id.Float? then Some(FloatFormat(4))
    else if id.String? then Some(TextFormat)
    else None
  }

  /** strtof (width 4) and strtod (width 8): the bit pattern of the number at the start of a text. */
  type FloatReader = (nat, string) -> Option<nat>

  /** The bytes an option appends: a body, then zeros. */
  datatype Chunk = Chunk(body: Buffer, padding: nat)

  /** The least and greatest number of an integer format. */
  function MinOf(width: nat, signed: bool): int { if signed then -(Pow256(width) / 2) else 0 }

  function MaxOf(width: nat, signed: bool): int {
    if signed then Pow256(width) / 2 - 1 else Pow256(width) - 1
  }

  function NumberBytes(bigEndian: bool, width: nat, v: int): (bs: Buffer)
    ensures |bs| == width
  {
    if bigEndian then BigEndian(width, v % Pow256(width)) else LittleEndian(width, v % Pow256(width))
  }

  function TextBytes(text: string): (bs: Buffer)
    requires forall i :: 0 <= i < |text| ==> text[i] as int < 0x100
    ensures |bs| == |text| && forall i :: 0 <= i < |text| ==> bs[i] == text[i] as int
  {
    seq(|text|, i requires 0 <= i < |text| => text[i] as int)
  }

  /** Payload text as an option writes it: "NNN:text". */
  predicate IsSized(text: string) {
    var c := StrToUnsigned(text);
    c.tail < |text| && text[c.tail] == ':' && c.value > 0 && |text| - c.tail - 1 <= c.value
  }

  /** The text after the colon, and zeros up to NNN bytes; both sizes are narrowed to 32 bits. */
  function TextChunk(text: CString): Chunk
    requires IsSized(text)
  {
    var c := StrToUnsigned(text);
    var rest := text[c.tail + 1..];
    Chunk(TextBytes(rest[..|rest| % U32]), (c.value - |rest|) % U32)
  }

  /** What a payload option appends in the byte order in force; None when its text is refused. */
  function Encoding(fp: FloatReader, bigEndian: bool, format: Format, text: CString): Option<Chunk> {
    match format
    case Integer(width, signed, forced) =>
      var c := if signed then StrToSigned(text) else StrToUnsigned(text);
      if c.tail == 0 || !(MinOf(width, signed) <= c.value <= MaxOf(width, signed)) then None
      else Some(Chunk(NumberBytes(bigEndian || forced, width, c.value), 0))
    case FloatFormat(width) =>
      if fp(width, text) == None then None
      else Some(Chunk(NumberBytes(bigEndian, width, fp(width, text).value), 0))
    case TextFormat =>
      if IsSized(text) then Some(TextChunk(text)) else None
  }

  function Zeros(n: nat): (bs: Buffer)
    ensures |bs| == n && forall i :: 0 <= i < n ==> bs[i] == 0
  {
    seq(n, i => 0)
  }

  /** A capacity test, made on the size modulo 2^32, lets a size through that the payload does not hold. */
  predicate Slips(size: nat) { size % U32 <= MAX_PACKET < size }

  /** Behind n bytes, the test on the body or the test on the padding lets too much through. */
  predicate WritesOutside(n: nat, chunk: Chunk) {
    var size := n + |chunk.body|;
    Slips(size) || (size <= MAX_PACKET && Slips(size + chunk.padding))
  }

  /** Appends the body and then the zeros, each part after a capacity test. */
  function Append(st: State, chunk: Chunk): Stepped {
    var size := |st.payload| + |chunk.body|;
    if size % U32 > MAX_PACKET then Stepped(st, Invalid)
    else if size > MAX_PACKET then Stepped(st, Overrun)
    else
      var copied := st.(payload := st.payload + chunk.body);
      if (size + chunk.padding) % U32 > MAX_PACKET then Stepped(copied, Invalid)
      else if size + chunk.padding > MAX_PACKET then Stepped(copied, Overrun)
      else Stepped(copied.(payload := copied.payload + Zeros(chunk.padding)), Accepted)
  }

  function PayloadStep(fp: FloatReader, st: State, format: Format, text: CString): Stepped {
    match Encoding(fp, st.bigEndian, format, text)
    case None => Stepped(st, Invalid)
    case Some(chunk) => Append(st, chunk)
  }

  // ---- one option ----

  function LayoutOf(p: Protocol): Option<Layout> {
    match p
    case Raw => Some(Layout(false, false, false))
    case CcsdsPri => Some(Layout(true, false, false))
    case CcsdsExt => Some(Layout(true, true, false))
    case CfsV1 => Some(Layout(true, false, true))
    case CfsV2 => Some(Layout(true, true, true))
    case NoProtocol => None
  }

  /** Selecting a protocol; an unknown one leaves no header at all. */
  function ProtocolStep(st: State, p: Protocol): Stepped {
    match LayoutOf(p)
    case Some(layout) => Stepped(st.(layout := layout), Accepted)
    case None => Stepped(st.(layout := Layout(false, false, false)), Invalid)
  }

  function EndianStep(st: State, text: string): Stepped {
    if text == "LE" then Stepped(st.(bigEndian := false), Accepted)
    else if text == "BE" then Stepped(st.(bigEndian := true), Accepted)
    else Stepped(st, Invalid)
  }

  function Step(fp: FloatReader, st: State, arg: Arg): Stepped {
    if arg.id.Endian? then EndianStep(st, arg.text)
    else if arg.id.ProtocolName? then ProtocolStep(st, ProtocolFromString(arg.text))
    else
      match FieldOf(arg.id)
      case Some(f) => HeaderStep(st, f, arg.id, arg.text)
      case None =>
        match FormatOf(arg.id)
        case Some(format) => PayloadStep(fp, st, format, arg.text)
        case None => Stepped(st, Undefined)
  }

  // ---- packing ----

  function HeaderSize(layout: Layout): (n: nat)
    ensures n <= 12
  {
    (if layout.pri then 6 else 0) + (if layout.ext then 4 else 0) + (if layout.sec then 2 else 0)
  }

  function Total(st: State): nat { HeaderSize(st.layout) + |st.payload| }

  /** The bits that packing sets in each header word. */
  function DefaultBits(st: State, k: nat): word {
    if k == 0 then
      (if st.overrides.pktType then 0 else 0x1000) +
      (if st.overrides.pktSec || !st.layout.sec then 0 else 0x0800)
    else if k == 1 then if st.overrides.seqFlags then 0 else 0xC000
    else if k == 3 then if st.overrides.endian || st.bigEndian then 0 else 0x0400
    else 0
  }

  function OrWord(a: word, b: word): word {
    Fields.Pow64();
    OrBelow(a, b, 16);
    Or(a, b)
  }

  /** Word k as packing leaves it. The length is the 16-bit truncation of the total less 7. */
  function FinalWord(st: State, k: nat): word
    requires k < 6
  {
    if k == 2 && !st.overrides.length then (Total(st) - 7) % 0x1_0000
    else OrWord(st.words[k], DefaultBits(st, k))
  }

  /** The state after packing. */
  function Finish(st: State): State {
    st.(words := [FinalWord(st, 0), FinalWord(st, 1), FinalWord(st, 2),
                  FinalWord(st, 3), FinalWord(st, 4), FinalWord(st, 5)])
  }

  function PrimaryBytes(st: State): (bs: Buffer)
    ensures |bs| == if st.layout.pri then 6 else 0
  {
    if st.layout.pri then BigEndian(2, st.words[0]) + BigEndian(2, st.words[1]) + BigEndian(2, st.words[2]) else []
  }

  function ExtendedBytes(st: State): (bs: Buffer)
    ensures |bs| == if st.layout.ext then 4 else 0
  {
    if st.layout.ext then BigEndian(2, st.words[3]) + BigEndian(2, st.words[4]) else []
  }

  function SecondaryBytes(st: State): (bs: Buffer)
    ensures |bs| == if st.layout.sec then 2 else 0
  {
    if st.layout.sec then BigEndian(2, st.words[5]) else []
  }

  /** The included headers, every word most significant byte first. */
  function HeaderBytes(st: State): (bs: Buffer)
    ensures |bs| == HeaderSize(st.layout)
  {
    PrimaryBytes(st) + ExtendedBytes(st) + SecondaryBytes(st)
  }

  /** 0xFF combined with every byte in turn. */
  function Checksum(bs: Buffer): byte {
    if bs == [] then 0xFF else XorByte(Checksum(bs[..|bs| - 1]), bs[|bs| - 1])
  }

  /** The header as emitted: the computed checksum replaces its last byte unless it was given. */
  function SealedHeader(st: State): (bs: Buffer)
    ensures |bs| == HeaderSize(st.layout)
  {
    var bs := HeaderBytes(st);
    if st.layout.sec && !st.overrides.checksum then bs[|bs| - 1 := Checksum(bs)] else bs
  }

  function Packet(st: State): (bs: Buffer)
    ensures |bs| == Total(st)
  {
    SealedHeader(Finish(st)) + st.payload
  }
}
