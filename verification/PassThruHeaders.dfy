/**
 When a header option is accepted and what it changes, told option by option.
 */
module PassThruHeaders {
  import opened Wrappers
  import opened Bits
  import opened Strto
  import opened CmdSend
  import opened PassThru
  import opened PassThruPackets
  import Fields

  predicate InPrimary(id: OptionId) {
    id.PktId? || id.PktVer? || id.PktType? || id.PktSec? || id.PktApid? || id.PktSeqFlg? || id.PktSeqCnt? || id.PktLen?
  }

  predicate InExtended(id: OptionId) {
    id.PktEdsVer? || id.PktEndian? || id.PktPb? || id.PktSubsys? || id.PktSys?
  }

  predicate InCommand(id: OptionId) { id.CmdCode? || id.PktFc? || id.PktCksum? }

  predicate IsHeaderOption(id: OptionId) { InPrimary(id) || InExtended(id) || InCommand(id) }

  /** The headers of the protocol have the option's field. */
  predicate HasField(layout: Layout, id: OptionId) {
    (InPrimary(id) && layout.pri) || (InExtended(id) && layout.ext) || (InCommand(id) && layout.sec)
  }

  /** The position and the width of an option's field. */
  function Shape(id: OptionId): (nat, nat) {
    if id.PktApid? then (0, 11)
    else if id.PktSec? then (11, 1)
    else if id.PktType? then (12, 1)
    else if id.PktVer? then (13, 3)
    else if id.PktSeqFlg? then (14, 2)
    else if id.PktSeqCnt? then (0, 14)
    else if id.PktPb? then (9, 1)
    else if id.PktEdsVer? then (11, 5)
    else if id.PktEndian? then (10, 1)
    else if id.PktSubsys? then (0, 9)
    else if id.CmdCode? || id.PktFc? then (8, 7)
    else if id.PktCksum? then (0, 8)
    else (0, 16)
  }

  /** The word an option's field is in. */
  function WordOf(id: OptionId): nat {
    if id.PktSeqFlg? || id.PktSeqCnt? then 1
    else if id.PktLen? then 2
    else if id.PktSys? then 4
    else if InExtended(id) then 3
    else if InCommand(id) then 5
    else 0
  }

  /** Every field's mask is one run of bits, in its word. */
  lemma FieldShape(id: OptionId)
    requires FieldOf(id).Some?
    ensures Fields.IsRun(FieldOf(id).value.mask, Shape(id).0, Shape(id).1) && Shape(id).0 + Shape(id).1 <= 16
    ensures FieldOf(id).value.index == WordOf(id)
  {
    MaskShapes();
  }

  lemma HeaderOptions(id: OptionId)
    ensures FieldOf(id).Some? <==> IsHeaderOption(id)
    ensures FieldOf(id).Some? ==> forall layout :: Included(layout, FieldOf(id).value.group) <==> HasField(layout, id)
  {
  }

  /** The protocol has the field, and the whole text is one number of which the 64-bit shift keeps what fits. */
  predicate FieldAccepts(layout: Layout, id: OptionId, text: string) {
    var c := StrToUnsigned(text);
    var (s, k) := Shape(id);
    HasField(layout, id) && 0 < c.tail == |text| && !c.range && s <= 64 && c.value % Pow2(64 - s) < Pow2(k)
  }

  lemma AcceptsIff(layout: Layout, id: OptionId, text: string)
    requires FieldOf(id).Some?
    ensures var f := FieldOf(id).value;
            Included(layout, f.group) && FieldBits(text, f.mask).Some? <==> FieldAccepts(layout, id, text)
  {
    HeaderOptions(id);
    PlaceIff(id, StrToUnsigned(text).value);
    BitsIff(text, FieldOf(id).value.mask);
  }

  lemma BitsIff(text: string, mask: nat)
    requires mask > 0
    ensures var c := StrToUnsigned(text);
            && (FieldBits(text, mask).Some? <==>
                  !c.range && 0 < c.tail == |text| && Fields.Place(c.value, mask).Some?)
            && (FieldBits(text, mask).Some? ==> FieldBits(text, mask) == Fields.Place(c.value, mask))
  {
  }

  lemma PlaceIff(id: OptionId, value: nat)
    requires FieldOf(id).Some?
    ensures var (s, k) := Shape(id);
            s <= 64 && (Fields.Place(value, FieldOf(id).value.mask).Some? <==> value % Pow2(64 - s) < Pow2(k))
  {
    var (s, k) := Shape(id);
    var mask := FieldOf(id).value.mask;
    FieldShape(id);
    Fields.RunShift(s, k);
    Fields.FieldLaw(value, mask, s, k, 0);
  }

  /** The number in the field. */
  function FieldValue(w: word, s: nat, k: nat): nat { w / Pow2(s) % Pow2(k) }

  /** The bits of a word that do not belong to the field. */
  function Outside(w: word, s: nat, k: nat): nat { AndNot(w, BitRun(s, k)) }

  /**
   A header option, in any state: accepted exactly when the protocol has its field and the whole text
   is one number that fits. Then the field holds that number and no other bit of any word changes. A
   refusal changes no word.
   */
  lemma HeaderOption(fp: FloatReader, st: State, id: OptionId, text: CString)
    requires IsHeaderOption(id)
    ensures var s := Step(fp, st, Arg(id, text));
            var ws, k := s.state.words, WordOf(id);
            var (at, width) := Shape(id);
            && (s.rc == Accepted <==> FieldAccepts(st.layout, id, text))
            && (s.rc == Accepted || s.rc == Invalid)
            && s.state == st.(words := ws, overrides := s.state.overrides)
            && (s.rc == Invalid ==> ws == st.words)
            && (s.rc == Accepted ==>
                  && ws == st.words[k := ws[k]]
                  && FieldValue(ws[k], at, width) == StrToUnsigned(text).value % Pow2(64 - at)
                  && Outside(ws[k], at, width) == Outside(st.words[k], at, width))
  {
    HeaderOptions(id);
    NotAMode(id);
    AcceptsIff(st.layout, id, text);
    if FieldAccepts(st.layout, id, text) {
      AcceptedOption(st, id, text);
    }
  }

  lemma AcceptedOption(st: State, id: OptionId, text: CString)
    requires FieldOf(id).Some? && Included(st.layout, FieldOf(id).value.group)
    requires FieldBits(text, FieldOf(id).value.mask).Some?
    ensures var s := HeaderStep(st, FieldOf(id).value, id, text);
            var ws, k := s.state.words, WordOf(id);
            var (at, width) := Shape(id);
            && s.rc == Accepted && k < 6 && at <= 64 && ws == st.words[k := ws[k]]
            && FieldValue(ws[k], at, width) == StrToUnsigned(text).value % Pow2(64 - at)
            && Outside(ws[k], at, width) == Outside(st.words[k], at, width)
  {
    FieldShape(id);
    AcceptedWrite(st, FieldOf(id).value, id, text, Shape(id).0, Shape(id).1);
  }

  lemma AcceptedWrite(st: State, f: Field, id: OptionId, text: CString, at: nat, width: nat)
    requires f.index < 6 && 0 < f.mask < 0x1_0000 && at <= 64 && Fields.IsRun(f.mask, at, width)
    requires Included(st.layout, f.group) && FieldBits(text, f.mask).Some?
    ensures var s := HeaderStep(st, f, id, text);
            var ws, k := s.state.words, f.index;
            && s.rc == Accepted && ws == st.words[k := ws[k]]
            && FieldValue(ws[k], at, width) == StrToUnsigned(text).value % Pow2(64 - at)
            && Outside(ws[k], at, width) == Outside(st.words[k], at, width)
  {
    BitsIff(text, f.mask);
    StepAccepted(st, f, id, text);
    FieldWritten(st.words[f.index], f.mask, at, width, StrToUnsigned(text).value);
  }

  lemma StepAccepted(st: State, f: Field, id: OptionId, text: string)
    requires f.index < 6 && 0 < f.mask < 0x1_0000 && Included(st.layout, f.group) && FieldBits(text, f.mask).Some?
    ensures var s := HeaderStep(st, f, id, text);
            && s.rc == Accepted
            && s.state.words == st.words[f.index := MergeWord(st.words[f.index], f.mask, FieldBits(text, f.mask).value)]
  {
  }

  lemma NotAMode(id: OptionId)
    requires IsHeaderOption(id)
    ensures !id.Endian? && !id.ProtocolName? && FormatOf(id) == None
  {
  }

  lemma FieldWritten(w: word, mask: nat, s: nat, k: nat, value: nat)
    requires Fields.IsRun(mask, s, k) && 0 < mask < 0x1_0000 && Fields.Place(value, mask).Some?
    ensures var w' := MergeWord(w, mask, Fields.Place(value, mask).value);
            FieldValue(w', s, k) == value % Pow2(64 - s) && Outside(w', s, k) == Outside(w, s, k)
  {
    Fields.WrittenValue(w, mask, s, k, value);
  }
}
