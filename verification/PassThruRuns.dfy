/**
 Whole runs of the pass-through encoder: what a list of options adds up to, told without
 running it. Every bit of a header word comes from the last option whose field covers it, and
 the payload is the concatenation of what each option encodes to in the mode then in force.
 */
module PassThruRuns {
  import opened Wrappers
  import opened Bits
  import opened Bytes
  import opened Strto
  import opened CmdSend
  import opened PassThru
  import Fields
  import H = PassThruHeaders

  /**
   The state after a run, whether every option was handled, and whether it ended with an option that
   writes outside the payload. A refusal ends a run, and so does such a write.
   */
  datatype Outcome = Outcome(state: State, accepted: bool, overrun: bool)

  function Run(fp: FloatReader, st: State, args: seq<Arg>): Outcome {
    if args == [] then Outcome(st, true, false)
    else
      var before := Run(fp, st, args[..|args| - 1]);
      if !before.accepted then before
      else
        var s := Step(fp, before.state, args[|args| - 1]);
        Outcome(s.state, Continues(s.rc), s.rc.Overrun?)
  }

  // ---- the independent account ----

  predicate Given(args: seq<Arg>, id: OptionId) {
    exists j :: 0 <= j < |args| && args[j].id == id
  }

  /** The four names that select headers. */
  predicate IsProtocol(name: string) {
    name == "ccsdspri" || name == "ccsdsext" || name == "cfsv1" || name == "cfsv2"
  }

  /** The headers of the last protocol named: the primary one always, the others by name. */
  function LayoutAfter(args: seq<Arg>): Layout {
    if args == [] then Layout(true, false, true)
    else
      var last := args[|args| - 1];
      if last.id.ProtocolName? && IsProtocol(last.text) then
        Layout(true, last.text == "ccsdsext" || last.text == "cfsv2", last.text == "cfsv1" || last.text == "cfsv2")
      else LayoutAfter(args[..|args| - 1])
  }

  predicate BigEndianAfter(args: seq<Arg>) {
    if args == [] then true
    else
      var last := args[|args| - 1];
      if last.id.Endian? then last.text == "BE" else BigEndianAfter(args[..|args| - 1])
  }

  /** All that one payload option stands for in a given byte order. */
  function Encoded(fp: FloatReader, bigEndian: bool, arg: Arg): Buffer {
    match FormatOf(arg.id)
    case None => []
    case Some(format) =>
      match Encoding(fp, bigEndian, format, arg.text)
      case None => []
      case Some(chunk) => chunk.body + Zeros(chunk.padding)
  }

  function PayloadAfter(fp: FloatReader, args: seq<Arg>): Buffer {
    if args == [] then []
    else
      var prior := args[..|args| - 1];
      PayloadAfter(fp, prior) + Encoded(fp, BigEndianAfter(prior), args[|args| - 1])
  }

  /** The bits a header option stores. */
  function StoredBits(arg: Arg): nat {
    match FieldOf(arg.id)
    case None => 0
    case Some(f) =>
      match FieldBits(arg.text, f.mask)
      case None => 0
      case Some(bits) => bits
  }

  predicate Covers(id: OptionId, k: nat, i: nat) {
    FieldOf(id).Some? && FieldOf(id).value.index == k && Bit(FieldOf(id).value.mask, i)
  }

  /** Bit i of word k according to the last option that covers it; clear when none does. */
  predicate LastBit(args: seq<Arg>, k: nat, i: nat) {
    if args == [] then false
    else
      var last := args[|args| - 1];
      if Covers(last.id, k, i) then Bit(StoredBits(last), i) else LastBit(args[..|args| - 1], k, i)
  }

  /** The word whose low n bits, from bit i of word k on, are the last ones written. */
  function WordAfter(args: seq<Arg>, k: nat, i: nat, n: nat): (w: nat)
    ensures w < Pow2(n)
    decreases args, n
  {
    if n == 0 then 0 else 2 * WordAfter(args, k, i + 1, n - 1) + Flag(LastBit(args, k, i))
  }

  function HeaderAfter(args: seq<Arg>, k: nat): word {
    Fields.Pow64();
    WordAfter(args, k, 0, 16)
  }

  /** The overrides that a list of options adds to given ones. */
  function WithGiven(o: Overrides, args: seq<Arg>): Overrides {
    Overrides(
      o.pktType || Given(args, PktType), o.pktSec || Given(args, PktSec), o.seqFlags || Given(args, PktSeqFlg),
      o.length || Given(args, PktLen), o.endian || Given(args, PktEndian), o.checksum || Given(args, PktCksum))
  }

  function HeaderWords(args: seq<Arg>): (ws: seq<word>)
    ensures |ws| == 6 && forall k :: 0 <= k < 6 ==> ws[k] == HeaderAfter(args, k)
  {
    seq(6, k requires 0 <= k < 6 => HeaderAfter(args, k))
  }

  function Account(fp: FloatReader, args: seq<Arg>): RawState {
    State(HeaderWords(args),
          LayoutAfter(args), BigEndianAfter(args),
          WithGiven(Initial.overrides, args),
          PayloadAfter(fp, args))
  }

  /** Option j is acceptable after the options before it. */
  predicate Acceptable(fp: FloatReader, prior: seq<Arg>, arg: Arg) {
    if H.IsHeaderOption(arg.id) then H.FieldAccepts(LayoutAfter(prior), arg.id, arg.text)
    else if FormatOf(arg.id).Some? then
      && Encoding(fp, BigEndianAfter(prior), FormatOf(arg.id).value, arg.text).Some?
      && |PayloadAfter(fp, prior)| + |Encoded(fp, BigEndianAfter(prior), arg)| <= 2048
    else if arg.id.Endian? then arg.text == "LE" || arg.text == "BE"
    else if arg.id.ProtocolName? then IsProtocol(arg.text)
    else true
  }

  /** Every option is acceptable after the options before it. */
  predicate AllAcceptable(fp: FloatReader, args: seq<Arg>) {
    args == [] ||
    (AllAcceptable(fp, args[..|args| - 1]) && Acceptable(fp, args[..|args| - 1], args[|args| - 1]))
  }

  /**
   The encoder's state after an accepted run is the account of its options, and a run is
   accepted exactly when every option is acceptable after the ones before it.
   */
  lemma {:induction false} RunIsAccount(fp: FloatReader, args: seq<Arg>)
    ensures Run(fp, Initial, args).accepted <==> AllAcceptable(fp, args)
    ensures Run(fp, Initial, args).accepted ==> Run(fp, Initial, args).state == Account(fp, args)
  {
    if args == [] {
      forall k: nat | k < 6 ensures HeaderAfter([], k) == 0 {
        NoWrites(k, 0, 16);
      }
    } else {
      var prior := args[..|args| - 1];
      RunIsAccount(fp, prior);
      if Run(fp, Initial, prior).accepted {
        AccountStep(fp, args);
      }
    }
  }

  /** An option's text is let through by a capacity test, behind n payload bytes, although it does not fit. */
  predicate TextOverruns(n: nat, arg: Arg) {
    arg.id.String? && IsSized(arg.text) && WritesOutside(n, TextChunk(arg.text))
  }

  /** After options that are all acceptable, a text is let through although it does not fit. */
  predicate Overruns(fp: FloatReader, args: seq<Arg>) {
    args != [] && (Overruns(fp, args[..|args| - 1]) || OverrunsLast(fp, args[..|args| - 1], args[|args| - 1]))
  }

  predicate OverrunsLast(fp: FloatReader, prior: seq<Arg>, arg: Arg) {
    AllAcceptable(fp, prior) && TextOverruns(|PayloadAfter(fp, prior)|, arg)
  }

  /** A run ends with a write outside the payload exactly when, after acceptable options, a text is let through. */
  lemma {:induction false} RunOverruns(fp: FloatReader, args: seq<Arg>)
    ensures Run(fp, Initial, args).overrun <==> Overruns(fp, args)
  {
    if args != [] {
      var prior, last := args[..|args| - 1], args[|args| - 1];
      RunOverruns(fp, prior);
      RunIsAccount(fp, prior);
      AcceptedNeverOverran(fp, prior);
      if Run(fp, Initial, prior).accepted {
        StepOverruns(fp, Account(fp, prior), last);
      }
    }
  }

  lemma AcceptedNeverOverran(fp: FloatReader, args: seq<Arg>)
    ensures Run(fp, Initial, args).accepted ==> !Run(fp, Initial, args).overrun
  {
  }

  /** Only a text option writes outside the payload, and exactly when a capacity test lets too much through. */
  lemma StepOverruns(fp: FloatReader, st: State, arg: Arg)
    ensures Step(fp, st, arg).rc == Overrun <==> TextOverruns(|st.payload|, arg)
  {
    StringIsText(arg.id);
    if FieldOf(arg.id).Some? {
      FieldIsOther(arg.id);
    } else if FormatOf(arg.id).Some? {
      FormatIsOther(arg.id);
      PayloadStepOverruns(fp, st, FormatOf(arg.id).value, arg.text);
    }
  }

  lemma StringIsText(id: OptionId)
    ensures id.String? <==> FormatOf(id) == Some(TextFormat)
  {
  }

  lemma PayloadStepOverruns(fp: FloatReader, st: State, format: Format, text: CString)
    requires !format.TextFormat? ==> format.width in {1, 2, 4, 8}
    ensures PayloadStep(fp, st, format, text).rc == Overrun <==>
            format.TextFormat? && IsSized(text) && WritesOutside(|st.payload|, TextChunk(text))
  {
    var e := Encoding(fp, st.bigEndian, format, text);
    if e.Some? {
      AppendLaw(st, e.value);
      if !format.TextFormat? { FewBytesFit(|st.payload|, format.width); }
    }
  }

  lemma FewBytesFit(n: nat, width: nat)
    requires n <= MAX_PACKET && width <= 8
    ensures !Slips(n + width)
  {
  }

  /** Every option of an accepted run was acceptable after the ones before it. */
  lemma {:induction false} AcceptableAt(fp: FloatReader, args: seq<Arg>, j: nat)
    requires AllAcceptable(fp, args) && j < |args|
    ensures Acceptable(fp, args[..j], args[j])
    decreases |args|
  {
    var m := |args| - 1;
    if j < m {
      AcceptableAt(fp, args[..m], j);
      assert args[..m][..j] == args[..j];
    }
  }

  lemma {:induction false} NoWrites(k: nat, i: nat, n: nat)
    ensures WordAfter([], k, i, n) == 0
    decreases n
  {
    if n > 0 { NoWrites(k, i + 1, n - 1); }
  }

  /** One more option changes the account as the encoder changes its state. */
  lemma AccountStep(fp: FloatReader, args: seq<Arg>)
    requires args != [] && |PayloadAfter(fp, args[..|args| - 1])| <= MAX_PACKET
    ensures var prior, last := args[..|args| - 1], args[|args| - 1];
            var s := Step(fp, Account(fp, prior), last);
            && (Continues(s.rc) <==> Acceptable(fp, prior, last))
            && (Continues(s.rc) ==> s.state == Account(fp, args))
  {
    var last := args[|args| - 1];
    if FieldOf(last.id).Some? {
      FieldIsOther(last.id);
      AccountHeader(fp, args);
    } else if FormatOf(last.id).Some? {
      FormatIsOther(last.id);
      AccountPayload(fp, args);
    } else {
      AccountMode(fp, args);
    }
  }

  lemma AccountHeader(fp: FloatReader, args: seq<Arg>)
    requires args != [] && |PayloadAfter(fp, args[..|args| - 1])| <= MAX_PACKET
    requires FieldOf(args[|args| - 1].id).Some? && FormatOf(args[|args| - 1].id) == None
    requires !args[|args| - 1].id.Endian? && !args[|args| - 1].id.ProtocolName?
    ensures var prior, last := args[..|args| - 1], args[|args| - 1];
            var s := HeaderStep(Account(fp, prior), FieldOf(last.id).value, last.id, last.text);
            && (Continues(s.rc) <==> Acceptable(fp, prior, last))
            && (Continues(s.rc) ==> s.state == Account(fp, args))
  {
    var prior, last := args[..|args| - 1], args[|args| - 1];
    H.HeaderOptions(last.id);
    H.AcceptsIff(LayoutAfter(prior), last.id, last.text);
    AccountWords(args);
    AccountOverrides(fp, args);
    PayloadKept(fp, args);
  }

  lemma PayloadKept(fp: FloatReader, args: seq<Arg>)
    requires args != [] && FormatOf(args[|args| - 1].id) == None
    ensures PayloadAfter(fp, args) == PayloadAfter(fp, args[..|args| - 1])
  {
    assert Encoded(fp, BigEndianAfter(args[..|args| - 1]), args[|args| - 1]) == [];
  }

  lemma AccountPayload(fp: FloatReader, args: seq<Arg>)
    requires args != [] && |PayloadAfter(fp, args[..|args| - 1])| <= MAX_PACKET
    requires FieldOf(args[|args| - 1].id) == None && FormatOf(args[|args| - 1].id).Some?
    requires !args[|args| - 1].id.Endian? && !args[|args| - 1].id.ProtocolName?
    ensures var prior, last := args[..|args| - 1], args[|args| - 1];
            var s := PayloadStep(fp, Account(fp, prior), FormatOf(last.id).value, last.text);
            && (Continues(s.rc) <==> Acceptable(fp, prior, last))
            && (Continues(s.rc) ==> s.state == Account(fp, args))
  {
    var prior, last := args[..|args| - 1], args[|args| - 1];
    PayloadOptionKeeps(args);
    AcceptablePayload(fp, prior, last);
    var e := Encoding(fp, BigEndianAfter(prior), FormatOf(last.id).value, last.text);
    if e.Some? {
      AppendLaw(Account(fp, prior), e.value);
    }
  }

  lemma AcceptablePayload(fp: FloatReader, prior: seq<Arg>, arg: Arg)
    requires FieldOf(arg.id) == None && FormatOf(arg.id).Some?
    ensures Acceptable(fp, prior, arg) <==>
            && Encoding(fp, BigEndianAfter(prior), FormatOf(arg.id).value, arg.text).Some?
            && |PayloadAfter(fp, prior)| + |Encoded(fp, BigEndianAfter(prior), arg)| <= MAX_PACKET
  {
    H.HeaderOptions(arg.id);
  }

  lemma AcceptableMode(fp: FloatReader, prior: seq<Arg>, arg: Arg)
    requires FieldOf(arg.id) == None && FormatOf(arg.id) == None
    ensures Acceptable(fp, prior, arg) <==>
            if arg.id.Endian? then arg.text == "LE" || arg.text == "BE"
            else if arg.id.ProtocolName? then IsProtocol(arg.text)
            else true
  {
    H.HeaderOptions(arg.id);
  }

  lemma PayloadOptionKeeps(args: seq<Arg>)
    requires args != [] && FieldOf(args[|args| - 1].id) == None
    requires !args[|args| - 1].id.Endian? && !args[|args| - 1].id.ProtocolName?
    ensures HeaderWords(args) == HeaderWords(args[..|args| - 1])
    ensures WithGiven(Initial.overrides, args) == WithGiven(Initial.overrides, args[..|args| - 1])
    ensures LayoutAfter(args) == LayoutAfter(args[..|args| - 1])
    ensures BigEndianAfter(args) == BigEndianAfter(args[..|args| - 1])
  {
    AccountWords(args);
    OverridesKept(Initial.overrides, args);
  }

  lemma AppendLaw(st: State, chunk: Chunk)
    ensures var s := Append(st, chunk);
            && (Continues(s.rc) <==> s.rc == Accepted)
            && (s.rc == Overrun <==> WritesOutside(|st.payload|, chunk))
            && (s.rc == Accepted <==> |st.payload| + |chunk.body + Zeros(chunk.padding)| <= MAX_PACKET)
            && (s.rc == Accepted ==> s.state == st.(payload := st.payload + (chunk.body + Zeros(chunk.padding))))
  {
    assert st.payload + chunk.body + Zeros(chunk.padding) == st.payload + (chunk.body + Zeros(chunk.padding));
  }

  lemma AccountMode(fp: FloatReader, args: seq<Arg>)
    requires args != [] && |PayloadAfter(fp, args[..|args| - 1])| <= MAX_PACKET
    requires FieldOf(args[|args| - 1].id) == None && FormatOf(args[|args| - 1].id) == None
    ensures var prior, last := args[..|args| - 1], args[|args| - 1];
            var s := Step(fp, Account(fp, prior), last);
            && (Continues(s.rc) <==> Acceptable(fp, prior, last))
            && (Continues(s.rc) ==> s.state == Account(fp, args))
  {
    var last := args[|args| - 1];
    AccountKept(fp, args);
    AcceptableMode(fp, args[..|args| - 1], last);
    if last.id.Endian? {
      AccountEndian(fp, args);
    } else if last.id.ProtocolName? {
      AccountProtocol(fp, args);
    }
  }

  /** An option that is neither a field nor payload leaves the header words, the overrides and the payload. */
  lemma AccountKept(fp: FloatReader, args: seq<Arg>)
    requires args != [] && |PayloadAfter(fp, args[..|args| - 1])| <= MAX_PACKET
    requires FieldOf(args[|args| - 1].id) == None && FormatOf(args[|args| - 1].id) == None
    ensures HeaderWords(args) == HeaderWords(args[..|args| - 1])
    ensures Account(fp, args).overrides == Account(fp, args[..|args| - 1]).overrides
    ensures PayloadAfter(fp, args) == PayloadAfter(fp, args[..|args| - 1])
  {
    AccountWords(args);
    OverridesKept(Initial.overrides, args);
    PayloadKept(fp, args);
  }

  lemma OverridesKept(o: Overrides, args: seq<Arg>)
    requires args != [] && FieldOf(args[|args| - 1].id) == None
    ensures WithGiven(o, args) == WithGiven(o, args[..|args| - 1])
  {
    OverridesStep(o, args);
    NothingOverridden(WithGiven(o, args[..|args| - 1]), args[|args| - 1].id);
  }

  lemma NothingOverridden(o: Overrides, id: OptionId)
    requires FieldOf(id) == None
    ensures Overriding(o, id) == o
  {
  }

  lemma AccountEndian(fp: FloatReader, args: seq<Arg>)
    requires args != [] && |PayloadAfter(fp, args[..|args| - 1])| <= MAX_PACKET
    requires args[|args| - 1].id.Endian?
    requires HeaderWords(args) == HeaderWords(args[..|args| - 1])
    requires Account(fp, args).overrides == Account(fp, args[..|args| - 1]).overrides
    requires PayloadAfter(fp, args) == PayloadAfter(fp, args[..|args| - 1])
    ensures var s := EndianStep(Account(fp, args[..|args| - 1]), args[|args| - 1].text);
            Continues(s.rc) ==> s.state == Account(fp, args)
  {
    assert "LE"[0] != "BE"[0];
  }

  lemma AccountProtocol(fp: FloatReader, args: seq<Arg>)
    requires args != [] && |PayloadAfter(fp, args[..|args| - 1])| <= MAX_PACKET
    requires args[|args| - 1].id.ProtocolName?
    requires HeaderWords(args) == HeaderWords(args[..|args| - 1])
    requires Account(fp, args).overrides == Account(fp, args[..|args| - 1]).overrides
    requires PayloadAfter(fp, args) == PayloadAfter(fp, args[..|args| - 1])
    ensures var last := args[|args| - 1];
            var s := ProtocolStep(Account(fp, args[..|args| - 1]), ProtocolFromString(last.text));
            && (Continues(s.rc) <==> IsProtocol(last.text))
            && (Continues(s.rc) ==> s.state == Account(fp, args))
  {
    var prior, last := args[..|args| - 1], args[|args| - 1];
    NeverRaw(last.text);
    if IsProtocol(last.text) { LayoutStep(args); }
    ProtocolSelected(Account(fp, prior), Account(fp, args), ProtocolFromString(last.text), IsProtocol(last.text));
  }

  lemma LayoutStep(args: seq<Arg>)
    requires args != [] && args[|args| - 1].id.ProtocolName? && IsProtocol(args[|args| - 1].text)
    ensures var name := args[|args| - 1].text;
            LayoutAfter(args) == Layout(true, name == "ccsdsext" || name == "cfsv2", name == "cfsv1" || name == "cfsv2")
  {
  }

  lemma ProtocolSelected(before: RawState, after: RawState, p: Protocol, named: bool)
    requires |before.words| == 6 && |before.payload| <= MAX_PACKET
    requires LayoutOf(p).Some? <==> named
    requires LayoutOf(p).Some? ==> after == before.(layout := LayoutOf(p).value)
    ensures var s := ProtocolStep(before, p);
            && (Continues(s.rc) <==> named)
            && (Continues(s.rc) ==> s.state == after)
  {
  }

  /** No option text selects the headerless protocol, and the four names select their headers. */
  lemma NeverRaw(name: string)
    ensures ProtocolFromString(name) != Raw
    ensures LayoutOf(ProtocolFromString(name)).Some? <==>
            name == "ccsdspri" || name == "ccsdsext" || name == "cfsv1" || name == "cfsv2"
    ensures LayoutOf(ProtocolFromString(name)).Some? ==>
              LayoutOf(ProtocolFromString(name)).value
              == Layout(true, name == "ccsdsext" || name == "cfsv2", name == "cfsv1" || name == "cfsv2")
  {
  }

  lemma AccountWords(args: seq<Arg>)
    requires args != []
    ensures var prior, last := args[..|args| - 1], args[|args| - 1];
            var ws := HeaderWords(prior);
            match FieldOf(last.id)
            case None => HeaderWords(args) == ws
            case Some(f) => HeaderWords(args) == ws[f.index := MergeWord(ws[f.index], f.mask, StoredBits(last))]
  {
    var last := args[|args| - 1];
    var field := FieldOf(last.id);
    forall k: nat | k < 6 && !(field.Some? && field.value.index == k)
      ensures HeaderWords(args)[k] == HeaderWords(args[..|args| - 1])[k]
    {
      HeaderKept(args, k);
    }
    if field.Some? {
      HeaderMerged(args);
    }
  }

  lemma AccountOverrides(fp: FloatReader, args: seq<Arg>)
    requires args != []
    ensures Account(fp, args).overrides == Overriding(Account(fp, args[..|args| - 1]).overrides, args[|args| - 1].id)
  {
    OverridesStep(Initial.overrides, args);
  }

  lemma FieldIsOther(id: OptionId)
    requires FieldOf(id).Some?
    ensures FormatOf(id) == None && !id.Endian? && !id.ProtocolName?
  {
  }

  lemma FormatIsOther(id: OptionId)
    requires FormatOf(id).Some?
    ensures FieldOf(id) == None && !id.Endian? && !id.ProtocolName?
  {
  }

  lemma GivenStep(args: seq<Arg>, id: OptionId)
    requires args != []
    ensures Given(args, id) <==> Given(args[..|args| - 1], id) || args[|args| - 1].id == id
  {
    var n := |args| - 1;
    if Given(args[..n], id) {
      var j :| 0 <= j < n && args[..n][j].id == id;
      assert args[j].id == id;
    }
    if Given(args, id) && args[n].id != id {
      var j :| 0 <= j < |args| && args[j].id == id;
      assert args[..n][j].id == id;
    }
  }

  lemma OverridesStep(o: Overrides, args: seq<Arg>)
    requires args != []
    ensures WithGiven(o, args) == Overriding(WithGiven(o, args[..|args| - 1]), args[|args| - 1].id)
  {
    GivenStep(args, PktType);
    GivenStep(args, PktSec);
    GivenStep(args, PktSeqFlg);
    GivenStep(args, PktLen);
    GivenStep(args, PktEndian);
    GivenStep(args, PktCksum);
  }

  predicate Targets(arg: Arg, k: nat) {
    FieldOf(arg.id).Some? && FieldOf(arg.id).value.index == k
  }

  lemma LastBitStep(args: seq<Arg>, k: nat, i: nat)
    requires args != []
    ensures !Targets(args[|args| - 1], k) ==> (LastBit(args, k, i) <==> LastBit(args[..|args| - 1], k, i))
    ensures Targets(args[|args| - 1], k) ==>
              (LastBit(args, k, i) <==>
               if Bit(FieldOf(args[|args| - 1].id).value.mask, i) then Bit(StoredBits(args[|args| - 1]), i)
               else LastBit(args[..|args| - 1], k, i))
  {
  }

  lemma HeaderKept(args: seq<Arg>, k: nat)
    requires args != [] && !Targets(args[|args| - 1], k)
    ensures HeaderAfter(args, k) == HeaderAfter(args[..|args| - 1], k)
  {
    var new_, old_ := HeaderAfter(args, k), HeaderAfter(args[..|args| - 1], k);
    forall i: nat ensures Bit(new_, i) == Bit(old_, i) {
      HeaderBit(args, k, i);
      HeaderBit(args[..|args| - 1], k, i);
      LastBitStep(args, k, i);
    }
    SameBits(new_, old_);
  }

  lemma HeaderMerged(args: seq<Arg>)
    requires args != [] && FieldOf(args[|args| - 1].id).Some?
    ensures var prior, last := args[..|args| - 1], args[|args| - 1];
            var f := FieldOf(last.id).value;
            HeaderAfter(args, f.index) == MergeWord(HeaderAfter(prior, f.index), f.mask, StoredBits(last))
  {
    var prior, last := args[..|args| - 1], args[|args| - 1];
    var f := FieldOf(last.id).value;
    var new_, old_ := HeaderAfter(args, f.index), HeaderAfter(prior, f.index);
    var w := MergeWord(old_, f.mask, StoredBits(last));
    Fields.Pow64();
    forall i: nat ensures Bit(new_, i) == Bit(w, i) {
      HeaderBit(args, f.index, i);
      HeaderBit(prior, f.index, i);
      LastBitStep(args, f.index, i);
      BitMerge(old_, f.mask, StoredBits(last), i);
      if i >= 16 {
        HighBits(w, 16, i);
      }
    }
    SameBits(new_, w);
  }

  /** The bits of a header word of the account are the last ones written. */
  lemma HeaderBit(args: seq<Arg>, k: nat, i: nat)
    ensures Bit(HeaderAfter(args, k), i) <==> i < 16 && LastBit(args, k, i)
  {
    AccountBit(args, k, 0, 16, i);
  }

  lemma {:induction false} AccountBit(args: seq<Arg>, k: nat, i: nat, n: nat, j: nat)
    ensures Bit(WordAfter(args, k, i, n), j) <==> j < n && LastBit(args, k, i + j)
    decreases n
  {
    if n == 0 {
      BitZero(j);
    } else if j > 0 {
      AccountBit(args, k, i + 1, n - 1, j - 1);
    }
  }

  /** A refusal or an overrun ends the run: the remaining options change nothing. */
  lemma {:induction false} RunEnds(fp: FloatReader, st: State, args: seq<Arg>, n: nat)
    requires n <= |args| && !Run(fp, st, args[..n]).accepted
    ensures Run(fp, st, args) == Run(fp, st, args[..n])
  {
    if n < |args| {
      var m := |args| - 1;
      assert args[..m][..n] == args[..n];
      RunEnds(fp, st, args[..m], n);
    } else {
      assert args[..n] == args;
    }
  }

  /** Every prefix of an accepted run is accepted. */
  lemma PrefixAccepted(fp: FloatReader, st: State, args: seq<Arg>, n: nat)
    requires n <= |args| && Run(fp, st, args).accepted
    ensures Run(fp, st, args[..n]).accepted
  {
    if !Run(fp, st, args[..n]).accepted { RunEnds(fp, st, args, n); }
  }
}
