/**
 What holds of every packet that an accepted run of options produces.
 */
module PassThruTheorems {
  import opened Wrappers
  import opened Bits
  import opened Bytes
  import opened Strto
  import opened CmdSend
  import opened PassThru
  import opened PassThruRuns
  import opened PassThruPackets
  import H = PassThruHeaders
  import Fields

  // ---- round trip of the header fields ----

  /** No later option writes into the field that option j writes. */
  ghost predicate LastWriter(args: seq<Arg>, j: nat) {
    && j < |args| && FieldOf(args[j].id).Some?
    && forall m :: j < m < |args| ==> !Overlap(args[m].id, args[j].id)
  }

  /** Two options write overlapping bits of the same word. */
  predicate Overlap(a: OptionId, b: OptionId) {
    && FieldOf(a).Some? && FieldOf(b).Some?
    && FieldOf(a).value.index == FieldOf(b).value.index
    && And(FieldOf(a).value.mask, FieldOf(b).value.mask) != 0
  }

  /** The component of a decoded packet that an option sets. */
  function FieldIn(d: Decoded, id: OptionId): Option<nat> {
    if FieldOf(id) == None || id.PktId? then None
    else
      match FieldOf(id).value.group
      case Primary => if d.pri.Some? then Some(PrimaryFieldIn(d.pri.value, id)) else None
      case Extended => if d.ext.Some? then Some(ExtendedFieldIn(d.ext.value, id)) else None
      case Secondary => if d.sec.Some? then Some(CommandFieldIn(d.sec.value, id)) else None
  }

  function PrimaryFieldIn(h: PrimaryHeader, id: OptionId): nat {
    if id.PktVer? then h.version
    else if id.PktType? then h.packetType
    else if id.PktSec? then h.secondaryFlag
    else if id.PktApid? then h.apid
    else if id.PktSeqFlg? then h.sequenceFlags
    else if id.PktSeqCnt? then h.sequenceCount
    else h.dataLength
  }

  function ExtendedFieldIn(h: ExtendedHeader, id: OptionId): nat {
    if id.PktEdsVer? then h.edsVersion
    else if id.PktEndian? then h.endian
    else if id.PktPb? then h.playback
    else if id.PktSubsys? then h.subsystem
    else h.system
  }

  function CommandFieldIn(h: CommandHeader, id: OptionId): nat {
    if id.PktCksum? then h.checksum else h.functionCode
  }

  /**
   Round trip: after any accepted run, the decoder finds in the packet the number that the last
   option for a field gave, for every field of every header of the final protocol.
   */
  lemma FieldReadsBack(fp: FloatReader, args: seq<Arg>, j: nat)
    requires Run(fp, Initial, args).accepted && LastWriter(args, j) && args[j].id != PktId
    ensures var st := Run(fp, Initial, args).state;
            var f := FieldOf(args[j].id).value;
            Included(st.layout, f.group) ==>
              && Decode(st.layout, Packet(st)).Some?
              && FieldIn(Decode(st.layout, Packet(st)).value, args[j].id)
                 == Some(Fields.Kept(StrToUnsigned(args[j].text).value, f.mask))
  {
    RunIsAccount(fp, args);
    WrittenField(fp, args, j);
    assert Given(args, args[j].id);
    if Included(LayoutAfter(args), FieldOf(args[j].id).value.group) {
      AccountField(fp, args, args[j].id);
    }
  }

  /** The decoder finds in a given field what the account of the options holds there. */
  lemma AccountField(fp: FloatReader, args: seq<Arg>, id: OptionId)
    requires |PayloadAfter(fp, args)| <= MAX_PACKET && FieldOf(id).Some? && id != PktId && Given(args, id)
    requires Included(LayoutAfter(args), FieldOf(id).value.group)
    ensures var f, st: State := FieldOf(id).value, Account(fp, args);
            && Decode(st.layout, Packet(st)).Some?
            && FieldIn(Decode(st.layout, Packet(st)).value, id)
               == Some(Fields.Extract(HeaderAfter(args, f.index), f.mask))
  {
    OwnDefault(fp, args, id);
    DecodedField(Account(fp, args), id);
  }

  /** So a numeral of any number that the field can hold comes back as that number. */
  lemma NumeralReadsBack(fp: FloatReader, args: seq<Arg>, j: nat, n: nat, notation: Notation)
    requires Run(fp, Initial, args).accepted && LastWriter(args, j) && args[j].id != PktId
    requires n <= Fields.FieldMax(FieldOf(args[j].id).value.mask) && args[j].text == Literal(n, notation)
    ensures var st := Run(fp, Initial, args).state;
            Included(st.layout, FieldOf(args[j].id).value.group) ==>
              && Decode(st.layout, Packet(st)).Some?
              && FieldIn(Decode(st.layout, Packet(st)).value, args[j].id) == Some(n)
  {
    FieldReadsBack(fp, args, j);
    KeptWhole(args[j].id, n);
    assert Literal(n, notation) == "" + Literal(n, notation) + "";
    UnsignedLiteral(false, n, notation, "");
  }

  /** The shift keeps every number that fits the field. */
  lemma KeptWhole(id: OptionId, n: nat)
    requires FieldOf(id).Some? && n <= Fields.FieldMax(FieldOf(id).value.mask)
    ensures Fields.Kept(n, FieldOf(id).value.mask) == n < U64
  {
    var (s, k) := H.Shape(id);
    H.FieldShape(id);
    Fields.KeptWhole(n, FieldOf(id).value.mask, s, k);
  }

  lemma OwnDefault(fp: FloatReader, args: seq<Arg>, id: OptionId)
    requires Given(args, id)
    ensures Overriding(Account(fp, args).overrides, id) == Account(fp, args).overrides
  {
  }

  /** The decoder finds in a field what the word of the state holds there, if the field's own default is overridden. */
  lemma DecodedField(st: State, id: OptionId)
    requires FieldOf(id).Some? && id != PktId && Overriding(st.overrides, id) == st.overrides
    requires Included(st.layout, FieldOf(id).value.group)
    ensures var f := FieldOf(id).value;
            && Decode(st.layout, Packet(st)).Some?
            && FieldIn(Decode(st.layout, Packet(st)).value, id) == Some(Fields.Extract(st.words[f.index], f.mask))
  {
    FinalField(st, id);
    DecodePacket(st);
    FieldOfContents(Finish(st), id);
    FinishWords(st, FieldOf(id).value.index);
  }

  lemma FinishWords(st: State, k: nat)
    requires k < 6
    ensures Finish(st).words[k] == FinalWord(st, k)
  {
  }

  /** `pktid` sets the first word; the default bits that it cannot override are added to it. */
  lemma PacketIdReadsBack(fp: FloatReader, args: seq<Arg>, j: nat)
    requires Run(fp, Initial, args).accepted && LastWriter(args, j) && args[j].id == PktId
    ensures var st := Run(fp, Initial, args).state;
            FinalWord(st, 0) == Or(Fields.Kept(StrToUnsigned(args[j].text).value, 0xFFFF), DefaultBits(st, 0))
  {
    RunIsAccount(fp, args);
    WrittenField(fp, args, j);
    WholeWord(HeaderAfter(args, 0));
  }

  lemma WholeWord(w: word)
    ensures Fields.Extract(w, 0xFFFF) == w
  {
    Selections(w);
    BelowModulus(w);
  }

  lemma BelowModulus(w: word)
    ensures w / 1 % 65536 == w
  {
  }

  /** In an accepted run the last option for a field decides what the field of the word holds. */
  lemma WrittenField(fp: FloatReader, args: seq<Arg>, j: nat)
    requires Run(fp, Initial, args).accepted && LastWriter(args, j)
    ensures var f := FieldOf(args[j].id).value;
            Fields.Extract(HeaderAfter(args, f.index), f.mask) == Fields.Kept(StrToUnsigned(args[j].text).value, f.mask)
  {
    var f := FieldOf(args[j].id).value;
    var w, value := HeaderAfter(args, f.index), StrToUnsigned(args[j].text).value;
    var (s, k) := H.Shape(args[j].id);
    H.FieldShape(args[j].id);
    FieldWritten(args, j);
    BitsAccepted(fp, args, j);
    Fields.FieldLaw(value, f.mask, s, k, w);
    MergeLaw(w, f.mask, StoredBits(args[j]));
    Fields.ExtractMasked(Merge(w, f.mask, StoredBits(args[j])), w, s, k);
  }

  /** Under the mask of an option that nothing later overlaps, the word holds that option's bits. */
  lemma FieldWritten(args: seq<Arg>, j: nat)
    requires LastWriter(args, j)
    ensures var f := FieldOf(args[j].id).value;
            And(HeaderAfter(args, f.index), f.mask) == And(StoredBits(args[j]), f.mask)
  {
    var f := FieldOf(args[j].id).value;
    var w, stored := HeaderAfter(args, f.index), StoredBits(args[j]);
    Fields.Pow64();
    forall i: nat ensures Bit(And(w, f.mask), i) == Bit(And(stored, f.mask), i) {
      BitAnd(w, f.mask, i);
      BitAnd(stored, f.mask, i);
      HeaderBit(args, f.index, i);
      if Bit(f.mask, i) {
        if i >= 16 { HighBits(f.mask, 16, i); }
        forall m | j < m < |args| ensures !Covers(args[m].id, f.index, i) {
          DisjointCover(args[m].id, args[j].id, i);
        }
        LastBitAt(args, j, f.index, i);
      }
    }
    SameBits(And(w, f.mask), And(stored, f.mask));
  }

  lemma DisjointCover(a: OptionId, b: OptionId, i: nat)
    requires FieldOf(b).Some? && !Overlap(a, b) && Bit(FieldOf(b).value.mask, i)
    ensures !Covers(a, FieldOf(b).value.index, i)
  {
    if Covers(a, FieldOf(b).value.index, i) {
      BitAnd(FieldOf(a).value.mask, FieldOf(b).value.mask, i);
      BitZero(i);
    }
  }

  lemma {:induction false} LastBitAt(args: seq<Arg>, j: nat, k: nat, i: nat)
    requires j < |args| && Covers(args[j].id, k, i)
    requires forall m :: j < m < |args| ==> !Covers(args[m].id, k, i)
    ensures LastBit(args, k, i) == Bit(StoredBits(args[j]), i)
    decreases |args|
  {
    if j < |args| - 1 {
      LastBitAt(args[..|args| - 1], j, k, i);
    }
  }

  /** Every header option of an accepted run was a number that its field accepts. */
  lemma {:induction false} BitsAccepted(fp: FloatReader, args: seq<Arg>, j: nat)
    requires Run(fp, Initial, args).accepted && j < |args| && FieldOf(args[j].id).Some?
    ensures var f := FieldOf(args[j].id).value;
            && FieldBits(args[j].text, f.mask) == Some(StoredBits(args[j]))
            && Fields.Place(StrToUnsigned(args[j].text).value, f.mask) == Some(StoredBits(args[j]))
  {
    PrefixAccepted(fp, Initial, args, j + 1);
    assert args[..j + 1][..j] == args[..j];
    StepAccepted(fp, Run(fp, Initial, args[..j]).state, args[j]);
  }

  lemma StepAccepted(fp: FloatReader, st: State, arg: Arg)
    requires FieldOf(arg.id).Some? && Continues(Step(fp, st, arg).rc)
    ensures var f := FieldOf(arg.id).value;
            && FieldBits(arg.text, f.mask) == Some(StoredBits(arg))
            && Fields.Place(StrToUnsigned(arg.text).value, f.mask) == Some(StoredBits(arg))
  {
    FieldIsOther(arg.id);
  }

  // ---- what packing adds ----

  lemma Apart(n: nat, mask: nat, s: nat, k: nat, p: nat, q: nat)
    requires mask == BitRun(s, k) && p == Pow2(s) && q == Pow2(k)
    requires n / p % q == 0
    ensures And(n, mask) == 0
  {
    AndRun(n, s, k);
  }

  /** Packing leaves the field of an option that overrides its own default as it was. */
  lemma FinalField(st: State, id: OptionId)
    requires FieldOf(id).Some? && id != PktId && Overriding(st.overrides, id) == st.overrides
    ensures var f := FieldOf(id).value;
            Fields.Extract(FinalWord(st, f.index), f.mask) == Fields.Extract(st.words[f.index], f.mask)
  {
    var f := FieldOf(id).value;
    var w, d := st.words[f.index], DefaultBits(st, f.index);
    DefaultOutside(st, id);
    AndOfOr(w, d, f.mask);
    var (s, k) := H.Shape(id);
    H.FieldShape(id);
    Fields.ExtractMasked(Or(w, d), w, s, k);
  }

  /** The default bits of a word lie outside every field whose option does not turn them off. */
  lemma DefaultOutside(st: State, id: OptionId)
    requires FieldOf(id).Some? && id != PktId && Overriding(st.overrides, id) == st.overrides
    ensures And(DefaultBits(st, FieldOf(id).value.index), FieldOf(id).value.mask) == 0
    ensures id == PktLen ==> st.overrides.length
  {
    var f := FieldOf(id).value;
    var d := DefaultBits(st, f.index);
    MaskShapes();
    Powers();
    if id.PktApid? {
      Apart(d, f.mask, 0, 11, 1, 2048);
    } else if id.PktVer? {
      Apart(d, f.mask, 13, 3, 8192, 8);
    } else if id.PktSec? {
      Apart(d, f.mask, 11, 1, 2048, 2);
    } else if id.PktType? {
      Apart(d, f.mask, 12, 1, 4096, 2);
    } else if id.PktSeqCnt? {
      Apart(d, f.mask, 0, 14, 1, 16384);
    } else if id.PktPb? {
      Apart(d, f.mask, 9, 1, 512, 2);
    } else if id.PktEdsVer? {
      Apart(d, f.mask, 11, 5, 2048, 32);
    } else if id.PktSubsys? {
      Apart(d, f.mask, 0, 9, 1, 512);
    }
  }

  lemma FieldOfContents(done: State, id: OptionId)
    requires FieldOf(id).Some? && id != PktId && Included(done.layout, FieldOf(id).value.group)
    requires id == PktCksum ==> done.overrides.checksum
    ensures var f := FieldOf(id).value;
            FieldIn(Contents(done), id) == Some(Fields.Extract(done.words[f.index], f.mask))
  {
    match FieldOf(id).value.group {
      case Primary => PrimaryField(Contents(done), done.words, id);
      case Extended => ExtendedField(Contents(done), done.words, id);
      case Secondary => SecondaryField(Contents(done), done.words, id, done.overrides.checksum);
    }
  }

  lemma PrimaryField(d: Decoded, ws: seq<word>, id: OptionId)
    requires |ws| == 6 && d.pri == Some(PrimaryOf(ws))
    requires FieldOf(id).Some? && id != PktId && FieldOf(id).value.group == Primary
    ensures FieldIn(d, id) == Some(Fields.Extract(ws[FieldOf(id).value.index], FieldOf(id).value.mask))
  {
  }

  lemma ExtendedField(d: Decoded, ws: seq<word>, id: OptionId)
    requires |ws| == 6 && d.ext == Some(ExtendedOf(ws))
    requires FieldOf(id).Some? && FieldOf(id).value.group == Extended
    ensures FieldIn(d, id) == Some(Fields.Extract(ws[FieldOf(id).value.index], FieldOf(id).value.mask))
  {
  }

  lemma SecondaryField(d: Decoded, ws: seq<word>, id: OptionId, given: bool)
    requires |ws| == 6 && d.sec.Some? && d.sec.value.functionCode == CommandOf(ws).functionCode
    requires given ==> d.sec == Some(CommandOf(ws))
    requires FieldOf(id).Some? && FieldOf(id).value.group == Secondary && (id == PktCksum ==> given)
    ensures FieldIn(d, id) == Some(Fields.Extract(ws[FieldOf(id).value.index], FieldOf(id).value.mask))
  {
  }

  // ---- defaults, length and checksum ----

  /** A field that no option overlaps is zero. */
  lemma Unwritten(args: seq<Arg>, id: OptionId)
    requires FieldOf(id).Some? && forall m :: 0 <= m < |args| ==> !Overlap(args[m].id, id)
    ensures And(HeaderAfter(args, FieldOf(id).value.index), FieldOf(id).value.mask) == 0
  {
    var f := FieldOf(id).value;
    var w := HeaderAfter(args, f.index);
    forall i: nat ensures Bit(And(w, f.mask), i) == Bit(0, i) {
      BitZero(i);
      BitAnd(w, f.mask, i);
      HeaderBit(args, f.index, i);
      if Bit(f.mask, i) {
        forall m | 0 <= m < |args| ensures !Covers(args[m].id, f.index, i) {
          DisjointCover(args[m].id, id, i);
        }
        NeverCovered(args, f.index, i);
      }
    }
    SameBits(And(w, f.mask), 0);
  }

  lemma {:induction false} NeverCovered(args: seq<Arg>, k: nat, i: nat)
    requires forall m :: 0 <= m < |args| ==> !Covers(args[m].id, k, i)
    ensures !LastBit(args, k, i)
  {
    if args != [] { NeverCovered(args[..|args| - 1], k, i); }
  }

  /** The extended header's endian bit and the checksum are written by no other option. */
  lemma OwnField(a: OptionId, b: OptionId)
    requires a != b && (b == PktEndian || b == PktCksum)
    ensures !Overlap(a, b)
  {
    MaskShapes();
    Powers();
    if FieldOf(a).Some? && FieldOf(a).value.index == FieldOf(b).value.index {
      var m, mask := FieldOf(a).value.mask, FieldOf(b).value.mask;
      if b == PktEndian {
        Apart(m, mask, 10, 1, 1024, 2);
      } else {
        Apart(m, mask, 0, 8, 1, 256);
      }
    }
  }

  lemma NotGiven(args: seq<Arg>, id: OptionId)
    requires !Given(args, id) && (id == PktEndian || id == PktCksum)
    ensures And(HeaderAfter(args, FieldOf(id).value.index), FieldOf(id).value.mask) == 0
  {
    forall m | 0 <= m < |args| ensures !Overlap(args[m].id, id) {
      OwnField(args[m].id, id);
    }
    Unwritten(args, id);
  }

  /** Setting all the bits under a mask fills the field. */
  lemma Filled(w: nat, d: nat, id: OptionId)
    requires FieldOf(id).Some? && And(d, FieldOf(id).value.mask) == FieldOf(id).value.mask
    ensures Fields.Extract(Or(w, d), FieldOf(id).value.mask) == Fields.FieldMax(FieldOf(id).value.mask)
  {
    var mask := FieldOf(id).value.mask;
    var (s, k) := H.Shape(id);
    H.FieldShape(id);
    forall i: nat ensures Bit(And(Or(w, d), mask), i) == Bit(And(mask, mask), i) {
      BitAnd(Or(w, d), mask, i);
      BitOr(w, d, i);
      BitAnd(d, mask, i);
      BitAnd(mask, mask, i);
    }
    SameBits(And(Or(w, d), mask), And(mask, mask));
    Fields.ExtractMasked(Or(w, d), mask, s, k);
    Fields.ExtractSelf(mask);
  }

  lemma Sets(w: nat, d: nat, id: OptionId, p: nat, q: nat)
    requires FieldOf(id).Some? && p == Pow2(H.Shape(id).0) && q == Pow2(H.Shape(id).1)
    requires d / p % q * p == FieldOf(id).value.mask
    ensures Fields.Extract(Or(w, d), FieldOf(id).value.mask) == q - 1
  {
    H.FieldShape(id);
    AndRun(d, H.Shape(id).0, H.Shape(id).1);
    Filled(w, d, id);
    Fields.MaxOfRun(H.Shape(id).0, H.Shape(id).1);
  }

  lemma TypeDefault(st: State)
    requires !st.overrides.pktType
    ensures Fields.Extract(FinalWord(st, 0), 0x1000) == 1
  {
    Powers();
    Sets(st.words[0], DefaultBits(st, 0), PktType, 4096, 2);
  }

  lemma SecondaryDefault(st: State)
    requires !st.overrides.pktSec && st.layout.sec
    ensures Fields.Extract(FinalWord(st, 0), 0x0800) == 1
  {
    Powers();
    Sets(st.words[0], DefaultBits(st, 0), PktSec, 2048, 2);
  }

  lemma SequenceDefaults(st: State)
    requires !st.overrides.seqFlags
    ensures Fields.Extract(FinalWord(st, 1), 0xC000) == 3
  {
    Powers();
    Sets(st.words[1], DefaultBits(st, 1), PktSeqFlg, 16384, 4);
  }

  lemma EndianDefault(st: State)
    requires !st.overrides.endian && And(st.words[3], 0x0400) == 0
    ensures Fields.Extract(FinalWord(st, 3), 0x0400) == if st.bigEndian then 0 else 1
  {
    Powers();
    if st.bigEndian {
      H.FieldShape(PktEndian);
      Fields.ExtractMasked(st.words[3], 0, 10, 1);
      Fields.ExtractZero(0x0400);
    } else {
      Sets(st.words[3], DefaultBits(st, 3), PktEndian, 1024, 2);
    }
  }

  /** The size of the headers that a protocol name selects. */
  function HeadersOf(name: string): nat {
    if name == "ccsdspri" then 6 else if name == "ccsdsext" then 10 else if name == "cfsv1" then 8 else 12
  }

  /**
   The last protocol option decides which headers the packet has, and how many bytes come before the
   payload: 6 for ccsdspri, 10 for ccsdsext, 8 for cfsv1, 12 for cfsv2.
   */
  lemma SelectedHeaders(fp: FloatReader, args: seq<Arg>, j: nat)
    requires Run(fp, Initial, args).accepted && j < |args| && args[j].id == ProtocolName
    requires forall m :: j < m < |args| ==> args[m].id != ProtocolName
    ensures var st, name := Run(fp, Initial, args).state, args[j].text;
            && (name == "ccsdspri" || name == "ccsdsext" || name == "cfsv1" || name == "cfsv2")
            && st.layout.pri
            && (st.layout.ext <==> name == "ccsdsext" || name == "cfsv2")
            && (st.layout.sec <==> name == "cfsv1" || name == "cfsv2")
            && |Packet(st)| == HeadersOf(name) + |st.payload|
  {
    RunIsAccount(fp, args);
    AcceptableAt(fp, args, j);
    NamedProtocol(fp, args[..j], args[j]);
    LastProtocol(args, j);
    HeadersSize(args[j].text, Run(fp, Initial, args).state);
  }

  lemma NamedProtocol(fp: FloatReader, prior: seq<Arg>, arg: Arg)
    requires Acceptable(fp, prior, arg) && arg.id == ProtocolName
    ensures IsProtocol(arg.text)
  {
  }

  lemma {:induction false} LastProtocol(args: seq<Arg>, j: nat)
    requires j < |args| && args[j].id.ProtocolName? && IsProtocol(args[j].text)
    requires forall m :: j < m < |args| ==> args[m].id != ProtocolName
    ensures var name := args[j].text;
            LayoutAfter(args) == Layout(true, name == "ccsdsext" || name == "cfsv2", name == "cfsv1" || name == "cfsv2")
    decreases |args|
  {
    if j < |args| - 1 {
      LastProtocol(args[..|args| - 1], j);
    }
  }

  lemma HeadersSize(name: string, st: State)
    requires IsProtocol(name)
    requires st.layout == Layout(true, name == "ccsdsext" || name == "cfsv2", name == "cfsv1" || name == "cfsv2")
    ensures |Packet(st)| == HeadersOf(name) + |st.payload|
  {
  }

  /** Without a protocol option the headers are those of cfsv1. */
  lemma DefaultHeaders(fp: FloatReader, args: seq<Arg>)
    requires Run(fp, Initial, args).accepted && forall m :: 0 <= m < |args| ==> args[m].id != ProtocolName
    ensures var st := Run(fp, Initial, args).state;
            st.layout == Layout(true, false, true) && |Packet(st)| == 8 + |st.payload|
  {
    RunIsAccount(fp, args);
    NoProtocolGiven(args);
  }

  lemma {:induction false} NoProtocolGiven(args: seq<Arg>)
    requires forall m :: 0 <= m < |args| ==> args[m].id != ProtocolName
    ensures LayoutAfter(args) == Layout(true, false, true)
  {
    if args != [] { NoProtocolGiven(args[..|args| - 1]); }
  }

  /** No option text removes the primary header. */
  lemma {:induction false} PrimaryAlways(args: seq<Arg>)
    ensures LayoutAfter(args).pri
  {
    if args != [] {
      PrimaryAlways(args[..|args| - 1]);
      NeverRaw(args[|args| - 1].text);
    }
  }

  /**
   The defaulted fields of every packet: command type, unsegmented, the secondary header flag
   of the cFS layouts, the endian bit of the mode in force at the end, and the length.
   */
  lemma DefaultedFields(fp: FloatReader, args: seq<Arg>)
    requires Run(fp, Initial, args).accepted
    ensures var st := Run(fp, Initial, args).state;
            && st.layout == LayoutAfter(args) && st.layout.pri && st.bigEndian == BigEndianAfter(args)
            && st.overrides == WithGiven(Initial.overrides, args) && st.payload == PayloadAfter(fp, args)
            && HasDefaults(st)
  {
    RunIsAccount(fp, args);
    AccountDefaults(fp, args);
  }

  lemma AccountDefaults(fp: FloatReader, args: seq<Arg>)
    requires |PayloadAfter(fp, args)| <= MAX_PACKET
    ensures Account(fp, args).layout.pri
    ensures !Given(args, PktEndian) ==> And(HeaderAfter(args, 3), 0x0400) == 0
    ensures HasDefaults(Account(fp, args))
  {
    PrimaryAlways(args);
    if !Given(args, PktEndian) { NoEndianBit(args); }
    DefaultsOfState(Account(fp, args));
  }

  lemma NoEndianBit(args: seq<Arg>)
    requires !Given(args, PktEndian)
    ensures And(HeaderAfter(args, 3), 0x0400) == 0
  {
    NotGiven(args, PktEndian);
  }

  /** What a decoder finds in the fields that packing fills in, unless an option overrides them. */
  ghost predicate HasDefaults(st: State)
    requires st.layout.pri
  {
    var d := Decode(st.layout, Packet(st));
    && d.Some? && d.value.pri.Some? && d.value.ext.Some? == st.layout.ext
    && d.value.payload == st.payload
    && (!st.overrides.pktType ==> d.value.pri.value.packetType == 1)
    && (!st.overrides.seqFlags ==> d.value.pri.value.sequenceFlags == 3)
    && (!st.overrides.pktSec && st.layout.sec ==> d.value.pri.value.secondaryFlag == 1)
    && (!st.overrides.endian && st.layout.ext ==> d.value.ext.value.endian == if st.bigEndian then 0 else 1)
  }

  lemma DefaultsOfState(st: State)
    requires st.layout.pri && (!st.overrides.endian ==> And(st.words[3], 0x0400) == 0)
    ensures HasDefaults(st)
  {
    DecodePacket(st);
    ContentsWords(st);
    if !st.overrides.pktType { TypeDefault(st); }
    if !st.overrides.pktSec && st.layout.sec { SecondaryDefault(st); }
    if !st.overrides.seqFlags { SequenceDefaults(st); }
    if !st.overrides.endian { EndianDefault(st); }
  }

  lemma ContentsWords(st: State)
    ensures var d := Expected(st);
            && d.payload == st.payload && d.pri.Some? == st.layout.pri && d.ext.Some? == st.layout.ext
            && (st.layout.pri ==>
                  && d.pri.value.packetType == Fields.Extract(FinalWord(st, 0), 0x1000)
                  && d.pri.value.secondaryFlag == Fields.Extract(FinalWord(st, 0), 0x0800)
                  && d.pri.value.sequenceFlags == Fields.Extract(FinalWord(st, 1), 0xC000)
                  && d.pri.value.dataLength == Fields.Extract(FinalWord(st, 2), 0xFFFF))
            && (st.layout.ext ==> d.ext.value.endian == Fields.Extract(FinalWord(st, 3), 0x0400))
  {
  }

  /**
   The length field: for every state, seven less than the size of the packet when that is not
   negative; the only packet an option list can make shorter than seven bytes is a bare primary
   header, whose length field wraps to 65535.
   */
  lemma LengthField(fp: FloatReader, args: seq<Arg>)
    requires Run(fp, Initial, args).accepted && !Given(args, PktLen)
    ensures var st := Run(fp, Initial, args).state;
            var d := Decode(st.layout, Packet(st));
            && d.Some? && d.value.pri.Some?
            && 6 <= |Packet(st)| <= MAX_PACKET + 12
            && (|Packet(st)| >= 7 <==> d.value.pri.value.dataLength + 7 == |Packet(st)|)
            && (|Packet(st)| == 6 <==> LayoutAfter(args) == Layout(true, false, false) && PayloadAfter(fp, args) == [])
            && (|Packet(st)| == 6 ==> d.value.pri.value.dataLength == 0xFFFF)
  {
    RunIsAccount(fp, args);
    PrimaryAlways(args);
    LengthOfState(Account(fp, args));
  }

  lemma LengthOfState(st: State)
    requires st.layout.pri && !st.overrides.length
    ensures var d := Decode(st.layout, Packet(st));
            && d.Some? && d.value.pri.Some?
            && 6 <= |Packet(st)| <= MAX_PACKET + 12
            && (|Packet(st)| >= 7 <==> d.value.pri.value.dataLength + 7 == |Packet(st)|)
            && (|Packet(st)| == 6 <==> st.layout == Layout(true, false, false) && st.payload == [])
            && (|Packet(st)| == 6 ==> d.value.pri.value.dataLength == 0xFFFF)
  {
    DecodePacket(st);
    ContentsWords(st);
    LengthWord(st);
  }

  lemma LengthWord(st: State)
    requires st.layout.pri && !st.overrides.length
    ensures 6 <= Total(st) <= MAX_PACKET + 12
    ensures Fields.Extract(FinalWord(st, 2), 0xFFFF) == if Total(st) >= 7 then Total(st) - 7 else 0xFFFF
    ensures Total(st) == 6 <==> st.layout == Layout(true, false, false) && st.payload == []
  {
    var length := FinalWord(st, 2);
    WholeWord(length);
    LengthWraps(Total(st));
  }

  lemma LengthWraps(total: nat)
    requires 6 <= total <= MAX_PACKET + 12
    ensures (total - 7) % 0x1_0000 == if total >= 7 then total - 7 else 0xFFFF
  {
  }

  // ---- the checksum ----

  lemma {:induction false} ChecksumIsXor(bs: Buffer)
    ensures Checksum(bs) == Xor(0xFF, XorAll(bs))
  {
    if bs == [] {
      XorLaws(0xFF, 0, 0);
    } else {
      var n := |bs| - 1;
      ChecksumIsXor(bs[..n]);
      XorLaws(0xFF, XorAll(bs[..n]), bs[n]);
    }
  }

  /** A zero last byte replaced by the checksum makes the XOR of all bytes 0xFF. */
  lemma SealedXor(bs: Buffer)
    requires bs != [] && bs[|bs| - 1] == 0
    ensures XorAll(bs[|bs| - 1 := Checksum(bs)]) == 0xFF
  {
    var n := |bs| - 1;
    var x := XorAll(bs[..n]);
    ChecksumIsXor(bs);
    XorLaws(x, 0, 0);
    assert XorAll(bs) == x;
    var sealed := bs[n := Checksum(bs)];
    assert sealed[..n] == bs[..n];
    XorLaws(x, 0xFF, x);
    XorLaws(0xFF, x, x);
    XorLaws(0xFF, 0, 0);
    XorLaws(x, x, 0xFF);
  }

  /**
   If the cFS header is included and `pktcksum` was never given, 0xFF and all emitted header
   bytes XOR to zero; the checksum does not cover the payload, so the residue of the whole
   packet is that of the payload.
   */
  lemma ChecksumLaw(fp: FloatReader, args: seq<Arg>)
    requires Run(fp, Initial, args).accepted
    requires LayoutAfter(args).sec && !Given(args, PktCksum)
    ensures var st := Run(fp, Initial, args).state;
            && Xor(0xFF, XorAll(SealedHeader(Finish(st)))) == 0
            && Xor(0xFF, XorAll(Packet(st))) == XorAll(PayloadAfter(fp, args))
  {
    RunIsAccount(fp, args);
    AccountSealed(fp, args);
  }

  lemma AccountSealed(fp: FloatReader, args: seq<Arg>)
    requires |PayloadAfter(fp, args)| <= MAX_PACKET
    requires LayoutAfter(args).sec && !Given(args, PktCksum)
    ensures var st: State := Account(fp, args);
            && Xor(0xFF, XorAll(SealedHeader(Finish(st)))) == 0
            && Xor(0xFF, XorAll(Packet(st))) == XorAll(st.payload)
  {
    NoChecksum(args);
    SealedState(Account(fp, args));
  }

  lemma NoChecksum(args: seq<Arg>)
    requires !Given(args, PktCksum)
    ensures And(HeaderAfter(args, 5), 0x00FF) == 0
  {
    NotGiven(args, PktCksum);
  }

  lemma SealedState(st: State)
    requires st.layout.sec && !st.overrides.checksum && And(st.words[5], 0x00FF) == 0
    ensures Xor(0xFF, XorAll(SealedHeader(Finish(st)))) == 0
    ensures Xor(0xFF, XorAll(Packet(st))) == XorAll(st.payload)
  {
    LowByteZero(st);
    SealedXor(HeaderBytes(Finish(st)));
    ResidueOf(SealedHeader(Finish(st)), st.payload);
  }

  lemma ResidueOf(header: Buffer, payload: Buffer)
    requires XorAll(header) == 0xFF
    ensures Xor(0xFF, XorAll(header)) == 0
    ensures Xor(0xFF, XorAll(header + payload)) == XorAll(payload)
  {
    var x := XorAll(payload);
    XorConcat(header, payload);
    XorLaws(0xFF, 0xFF, x);
    XorLaws(x, 0, 0);
    XorLaws(0, x, 0);
  }

  lemma LowByteZero(st: State)
    requires st.layout.sec && And(st.words[5], 0x00FF) == 0
    ensures var bs := HeaderBytes(Finish(st));
            |bs| >= 2 && bs[|bs| - 1] == 0
  {
    var w := Finish(st).words[5];
    assert w == st.words[5];
    MaskShapes();
    Powers();
    LowByte(w, 0x00FF);
    SwapWord(w);
    var bs := HeaderBytes(Finish(st));
    assert bs == PrimaryBytes(Finish(st)) + ExtendedBytes(Finish(st)) + BigEndian(2, w);
  }

  lemma LowByte(w: word, mask: nat)
    requires mask == BitRun(0, 8) && Pow2(8) == 256
    ensures And(w, mask) == w % 256
  {
    AndLow(w, 8);
  }
}
