/**
 What a receiver finds in a packet. The decoder reads the primary header as section 4.1.3 of
 CCSDS 133.0-B-2 lays it out, byte by byte and without the encoder's masks.
 */
module PassThruPackets {
  import opened Wrappers
  import opened Bits
  import opened Bytes
  import opened PassThru
  import Fields

  datatype PrimaryHeader = PrimaryHeader(
    version: nat, packetType: nat, secondaryFlag: nat, apid: nat,
    sequenceFlags: nat, sequenceCount: nat, dataLength: nat)

  datatype ExtendedHeader = ExtendedHeader(
    edsVersion: nat, endian: nat, playback: nat, subsystem: nat, system: nat)

  datatype CommandHeader = CommandHeader(reserved: nat, functionCode: nat, checksum: nat)

  datatype Decoded = Decoded(
    pri: Option<PrimaryHeader>, ext: Option<ExtendedHeader>, sec: Option<CommandHeader>, payload: Buffer)

  function Pair(high: nat, low: nat): nat { 256 * high + low }

  function DecodePrimary(b: Buffer): PrimaryHeader
    requires |b| == 6
  {
    PrimaryHeader(b[0] / 32, b[0] / 16 % 2, b[0] / 8 % 2, Pair(b[0] % 8, b[1]),
                  b[2] / 64, Pair(b[2] % 64, b[3]), Pair(b[4], b[5]))
  }

  function DecodeExtended(b: Buffer): ExtendedHeader
    requires |b| == 4
  {
    ExtendedHeader(b[0] / 8, b[0] / 4 % 2, b[0] / 2 % 2, Pair(b[0] % 2, b[1]), Pair(b[2], b[3]))
  }

  function DecodeCommand(b: Buffer): CommandHeader
    requires |b| == 2
  {
    CommandHeader(b[0] / 128, b[0] % 128, b[1])
  }

  function Decode(layout: Layout, bs: Buffer): Option<Decoded> {
    var p := if layout.pri then 6 else 0;
    var e := p + if layout.ext then 4 else 0;
    var s := e + if layout.sec then 2 else 0;
    if |bs| < s then None
    else Some(Decoded(
      if layout.pri then Some(DecodePrimary(bs[..p])) else None,
      if layout.ext then Some(DecodeExtended(bs[p..e])) else None,
      if layout.sec then Some(DecodeCommand(bs[e..s])) else None,
      bs[s..]))
  }

  // ---- decoding against the encoder's words ----

  function PrimaryOf(ws: seq<word>): PrimaryHeader
    requires |ws| == 6
  {
    PrimaryHeader(
      Fields.Extract(ws[0], 0xE000), Fields.Extract(ws[0], 0x1000), Fields.Extract(ws[0], 0x0800),
      Fields.Extract(ws[0], 0x07FF), Fields.Extract(ws[1], 0xC000), Fields.Extract(ws[1], 0x3FFF),
      Fields.Extract(ws[2], 0xFFFF))
  }

  function ExtendedOf(ws: seq<word>): ExtendedHeader
    requires |ws| == 6
  {
    ExtendedHeader(
      Fields.Extract(ws[3], 0xF800), Fields.Extract(ws[3], 0x0400), Fields.Extract(ws[3], 0x0200),
      Fields.Extract(ws[3], 0x01FF), Fields.Extract(ws[4], 0xFFFF))
  }

  function CommandOf(ws: seq<word>): CommandHeader
    requires |ws| == 6
  {
    CommandHeader(Fields.Extract(ws[5], 0x8000), Fields.Extract(ws[5], 0x7F00), Fields.Extract(ws[5], 0x00FF))
  }

  lemma ExtractOne(w: nat, mask: nat, s: nat, k: nat, p: nat, q: nat)
    requires k > 0 && mask == BitRun(s, k) && p == Pow2(s) && q == Pow2(k)
    ensures mask > 0 && Fields.Extract(w, mask) == w / p % q
  {
    Fields.ExtractRun(w, s, k);
  }

  /** The masks of the header fields as a shift and a width. */
  lemma MaskShapes()
    ensures BitRun(13, 3) == 0xE000 && BitRun(12, 1) == 0x1000 && BitRun(11, 1) == 0x0800 && BitRun(0, 11) == 0x07FF
    ensures BitRun(14, 2) == 0xC000 && BitRun(0, 14) == 0x3FFF && BitRun(0, 16) == 0xFFFF
    ensures BitRun(11, 5) == 0xF800 && BitRun(10, 1) == 0x0400 && BitRun(9, 1) == 0x0200 && BitRun(0, 9) == 0x01FF
    ensures BitRun(15, 1) == 0x8000 && BitRun(8, 7) == 0x7F00 && BitRun(0, 8) == 0x00FF
  {
  }

  lemma Powers()
    ensures Pow2(0) == 1 && Pow2(1) == 2 && Pow2(2) == 4 && Pow2(3) == 8 && Pow2(5) == 32 && Pow2(7) == 128
    ensures Pow2(8) == 256 && Pow2(9) == 512 && Pow2(10) == 1024 && Pow2(11) == 2048 && Pow2(12) == 4096
    ensures Pow2(13) == 8192 && Pow2(14) == 16384 && Pow2(15) == 32768 && Pow2(16) == 65536
  {
  }

  /** Every mask selects a quotient and a remainder of the word. */
  lemma Selections(w: nat)
    ensures Fields.Extract(w, 0xE000) == w / 8192 % 8
    ensures Fields.Extract(w, 0x1000) == w / 4096 % 2
    ensures Fields.Extract(w, 0x0800) == w / 2048 % 2
    ensures Fields.Extract(w, 0x07FF) == w / 1 % 2048
    ensures Fields.Extract(w, 0xC000) == w / 16384 % 4
    ensures Fields.Extract(w, 0x3FFF) == w / 1 % 16384
    ensures Fields.Extract(w, 0xFFFF) == w / 1 % 65536
    ensures Fields.Extract(w, 0xF800) == w / 2048 % 32
    ensures Fields.Extract(w, 0x0400) == w / 1024 % 2
    ensures Fields.Extract(w, 0x0200) == w / 512 % 2
    ensures Fields.Extract(w, 0x01FF) == w / 1 % 512
    ensures Fields.Extract(w, 0x8000) == w / 32768 % 2
    ensures Fields.Extract(w, 0x7F00) == w / 256 % 128
    ensures Fields.Extract(w, 0x00FF) == w / 1 % 256
  {
    MaskShapes();
    Powers();
    ExtractOne(w, 0xE000, 13, 3, 8192, 8);
    ExtractOne(w, 0x1000, 12, 1, 4096, 2);
    ExtractOne(w, 0x0800, 11, 1, 2048, 2);
    ExtractOne(w, 0x07FF, 0, 11, 1, 2048);
    ExtractOne(w, 0xC000, 14, 2, 16384, 4);
    ExtractOne(w, 0x3FFF, 0, 14, 1, 16384);
    ExtractOne(w, 0xFFFF, 0, 16, 1, 65536);
    ExtractOne(w, 0xF800, 11, 5, 2048, 32);
    ExtractOne(w, 0x0400, 10, 1, 1024, 2);
    ExtractOne(w, 0x0200, 9, 1, 512, 2);
    ExtractOne(w, 0x01FF, 0, 9, 1, 512);
    ExtractOne(w, 0x8000, 15, 1, 32768, 2);
    ExtractOne(w, 0x7F00, 8, 7, 256, 128);
    ExtractOne(w, 0x00FF, 0, 8, 1, 256);
  }

  lemma IdentificationQuotients(w: word, h: byte, l: byte)
    requires w == 256 * h + l
    ensures w / 8192 % 8 == h / 32 && w / 4096 % 2 == h / 16 % 2 && w / 2048 % 2 == h / 8 % 2
    ensures w / 1 % 2048 == Pair(h % 8, l)
  {
  }

  lemma SequenceQuotients(w: word, h: byte, l: byte)
    requires w == 256 * h + l
    ensures w / 16384 % 4 == h / 64 && w / 1 % 16384 == Pair(h % 64, l) && w / 1 % 65536 == Pair(h, l)
  {
  }

  lemma QualifierQuotients(w: word, h: byte, l: byte)
    requires w == 256 * h + l
    ensures w / 2048 % 32 == h / 8 && w / 1024 % 2 == h / 4 % 2 && w / 512 % 2 == h / 2 % 2
    ensures w / 1 % 512 == Pair(h % 2, l)
  {
  }

  lemma CommandQuotients(w: word, h: byte, l: byte)
    requires w == 256 * h + l
    ensures w / 32768 % 2 == h / 128 && w / 256 % 128 == h % 128 && w / 1 % 256 == l
  {
  }

  lemma IdentificationWord(w: word, h: byte, l: byte)
    requires w == 256 * h + l
    ensures Fields.Extract(w, 0xE000) == h / 32
    ensures Fields.Extract(w, 0x1000) == h / 16 % 2
    ensures Fields.Extract(w, 0x0800) == h / 8 % 2
    ensures Fields.Extract(w, 0x07FF) == Pair(h % 8, l)
  {
    IdentificationQuotients(w, h, l);
    Selections(w);
  }

  lemma SequenceWord(w: word, h: byte, l: byte)
    requires w == 256 * h + l
    ensures Fields.Extract(w, 0xC000) == h / 64
    ensures Fields.Extract(w, 0x3FFF) == Pair(h % 64, l)
    ensures Fields.Extract(w, 0xFFFF) == Pair(h, l)
  {
    SequenceQuotients(w, h, l);
    Selections(w);
  }

  lemma QualifierWord(w: word, h: byte, l: byte)
    requires w == 256 * h + l
    ensures Fields.Extract(w, 0xF800) == h / 8
    ensures Fields.Extract(w, 0x0400) == h / 4 % 2
    ensures Fields.Extract(w, 0x0200) == h / 2 % 2
    ensures Fields.Extract(w, 0x01FF) == Pair(h % 2, l)
  {
    QualifierQuotients(w, h, l);
    Selections(w);
  }

  lemma CommandWord(w: word, h: byte, l: byte)
    requires w == 256 * h + l
    ensures Fields.Extract(w, 0x8000) == h / 128
    ensures Fields.Extract(w, 0x7F00) == h % 128
    ensures Fields.Extract(w, 0x00FF) == l
  {
    CommandQuotients(w, h, l);
    Selections(w);
  }

  lemma TwoBytes(w: word) returns (h: byte, l: byte)
    ensures w == 256 * h + l && BigEndian(2, w) == [h, l]
  {
    SwapWord(w);
    h, l := w / 256, w % 256;
  }

  lemma PrimaryWords(ws: seq<word>)
    requires |ws| == 6
    ensures PrimaryOf(ws) == DecodePrimary(BigEndian(2, ws[0]) + BigEndian(2, ws[1]) + BigEndian(2, ws[2]))
  {
    var h0, l0 := TwoBytes(ws[0]);
    var h1, l1 := TwoBytes(ws[1]);
    var h2, l2 := TwoBytes(ws[2]);
    PrimaryFrom(ws, h0, l0, h1, l1, h2, l2);
    assert BigEndian(2, ws[0]) + BigEndian(2, ws[1]) + BigEndian(2, ws[2]) == [h0, l0, h1, l1, h2, l2];
  }

  lemma PrimaryFrom(ws: seq<word>, h0: byte, l0: byte, h1: byte, l1: byte, h2: byte, l2: byte)
    requires |ws| == 6
    requires ws[0] == 256 * h0 + l0 && ws[1] == 256 * h1 + l1 && ws[2] == 256 * h2 + l2
    ensures PrimaryOf(ws) == DecodePrimary([h0, l0, h1, l1, h2, l2])
  {
    IdentificationWord(ws[0], h0, l0);
    SequenceWord(ws[1], h1, l1);
    SequenceWord(ws[2], h2, l2);
  }

  lemma ExtendedWords(ws: seq<word>)
    requires |ws| == 6
    ensures ExtendedOf(ws) == DecodeExtended(BigEndian(2, ws[3]) + BigEndian(2, ws[4]))
  {
    var h0, l0 := TwoBytes(ws[3]);
    var h1, l1 := TwoBytes(ws[4]);
    QualifierWord(ws[3], h0, l0);
    SequenceWord(ws[4], h1, l1);
    assert BigEndian(2, ws[3]) + BigEndian(2, ws[4]) == [h0, l0, h1, l1];
  }

  lemma CommandWords(ws: seq<word>)
    requires |ws| == 6
    ensures CommandOf(ws) == DecodeCommand(BigEndian(2, ws[5]))
  {
    var h, l := TwoBytes(ws[5]);
    CommandWord(ws[5], h, l);
  }

  /** What the decoder finds in the packet of any state, for each of the layouts. */
  function Expected(st: State): Decoded { Contents(Finish(st)) }

  function Contents(done: State): Decoded {
    var command := CommandOf(done.words);
    Decoded(
      if done.layout.pri then Some(PrimaryOf(done.words)) else None,
      if done.layout.ext then Some(ExtendedOf(done.words)) else None,
      if !done.layout.sec then None
      else if done.overrides.checksum then Some(command)
      else Some(command.(checksum := Checksum(HeaderBytes(done)))),
      done.payload)
  }

  lemma DecodePacket(st: State)
    ensures Decode(st.layout, Packet(st)) == Some(Expected(st))
  {
    DecodeSealed(Finish(st));
  }

  lemma DecodeSealed(done: State)
    ensures Decode(done.layout, SealedHeader(done) + done.payload) == Some(Contents(done))
  {
    SealedParts(done);
    DecodeParts(done.layout, PrimaryBytes(done), ExtendedBytes(done), CommandBytes(done), done.payload);
    DecodedHeaders(done);
  }

  /** The cFS command header as emitted. */
  function CommandBytes(done: State): (bs: Buffer)
    ensures |bs| == if done.layout.sec then 2 else 0
  {
    var bs := SecondaryBytes(done);
    if done.layout.sec && !done.overrides.checksum then bs[1 := Checksum(HeaderBytes(done))] else bs
  }

  /** Each header decodes to its part of the contents. */
  lemma DecodedHeaders(done: State)
    ensures done.layout.pri ==> Some(DecodePrimary(PrimaryBytes(done))) == Contents(done).pri
    ensures done.layout.ext ==> Some(DecodeExtended(ExtendedBytes(done))) == Contents(done).ext
    ensures done.layout.sec ==> Some(DecodeCommand(CommandBytes(done))) == Contents(done).sec
  {
    PrimaryWords(done.words);
    ExtendedWords(done.words);
    CommandWords(done.words);
  }

  lemma DecodeParts(layout: Layout, p: Buffer, e: Buffer, s: Buffer, payload: Buffer)
    requires |p| == (if layout.pri then 6 else 0) && |e| == (if layout.ext then 4 else 0)
    requires |s| == if layout.sec then 2 else 0
    ensures Decode(layout, p + e + s + payload) == Some(Decoded(
              if layout.pri then Some(DecodePrimary(p)) else None,
              if layout.ext then Some(DecodeExtended(e)) else None,
              if layout.sec then Some(DecodeCommand(s)) else None, payload))
  {
    var bs := p + e + s + payload;
    assert bs[..|p|] == p && bs[|p|..|p| + |e|] == e;
    assert bs[|p| + |e|..|p| + |e| + |s|] == s && bs[|p| + |e| + |s|..] == payload;
  }

  /** The checksum replaces the last byte only; the three headers keep their places. */
  lemma SealedParts(done: State)
    ensures SealedHeader(done) == PrimaryBytes(done) + ExtendedBytes(done) + CommandBytes(done)
  {
    if done.layout.sec {
      ReplaceLast(PrimaryBytes(done) + ExtendedBytes(done), SecondaryBytes(done), Checksum(HeaderBytes(done)));
    }
  }

  lemma ReplaceLast(front: Buffer, back: Buffer, b: byte)
    requires back != []
    ensures (front + back)[|front| + |back| - 1 := b] == front + back[|back| - 1 := b]
  {
  }
}
