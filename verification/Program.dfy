/**
 The whole command utility: from the results of getopt, through the arbiter and its two
 parsers, to the packet and its hexdump.
 */
module Program {
  import opened Wrappers
  import opened Bits
  import opened Bytes
  import opened Strto
  import opened CmdSend
  import opened Arbiter
  import PassThru
  import PassThruRuns
  import PassThruTheorems
  import PassThruEncoder
  import EdsLookup
  import EdsObject
  import Collect
  import Hexdump

  // ---- the pass-through encoder on a given host ----

  /** The packet of a run of the pass-through encoder. */
  function PassThruPacket(fp: PassThru.FloatReader, args: seq<Arg>): Option<Buffer> {
    var r := PassThruRuns.Run(fp, PassThru.Initial, args);
    if r.accepted && PassThru.Total(r.state) <= MAX_PACKET then Some(PassThru.Packet(r.state)) else None
  }

  /** The packet is that of the account of the options, when every option is acceptable and it fits. */
  lemma PacketIsOfAccount(fp: PassThru.FloatReader, args: seq<Arg>)
    ensures PassThruPacket(fp, args) ==
            if PassThruRuns.AllAcceptable(fp, args) && AccountSize(fp, args) <= 2048
            then Some(PassThru.Packet(PassThruRuns.Account(fp, args))) else None
  {
    PassThruRuns.RunIsAccount(fp, args);
  }

  function AccountSize(fp: PassThru.FloatReader, args: seq<Arg>): nat {
    PassThru.HeaderSize(PassThruRuns.LayoutAfter(args)) + |PassThruRuns.PayloadAfter(fp, args)|
  }

  /** Gives an encoder the options until it refuses one or one writes outside the payload. */
  method ParseAll(encoder: PassThruEncoder.Encoder, args: seq<Arg>) returns (ok: bool, overrun: bool)
    requires encoder.Valid() && encoder.View() == PassThru.Initial
    modifies encoder, encoder.header, encoder.payload
    ensures encoder.Valid()
    ensures PassThruRuns.Outcome(encoder.View(), ok, overrun)
            == PassThruRuns.Run(encoder.fp, PassThru.Initial, args)
  {
    ok, overrun := true, false;
    var i := 0;
    while ok && i < |args|
      invariant i <= |args| && encoder.Valid()
      invariant PassThruRuns.Outcome(encoder.View(), ok, overrun)
                == PassThruRuns.Run(encoder.fp, PassThru.Initial, args[..i])
      decreases |args| - i
    {
      assert args[..i + 1][..i] == args[..i];
      var rc := encoder.ParseOption(args[i]);
      ok, overrun := Continues(rc), rc.Overrun?;
      i := i + 1;
    }
    if ok {
      assert args[..i] == args;
    } else {
      PassThruRuns.RunEnds(encoder.fp, PassThru.Initial, args, i);
    }
  }

  /** Creates the encoder, gives it the options and packs if it refused none. */
  method EncodeRun(little: bool, fp: PassThru.FloatReader, args: seq<Arg>)
    returns (packet: Option<Buffer>, overrun: bool)
    ensures packet == PassThruPacket(fp, args)
    ensures overrun == PassThruRuns.Run(fp, PassThru.Initial, args).overrun
  {
    var encoder := new PassThruEncoder.Encoder(little, fp);
    var ok: bool;
    ok, overrun := ParseAll(encoder, args);
    if !ok { return None, overrun; }
    PassThruRuns.AcceptedNeverOverran(fp, args);
    var out := new byte[MAX_PACKET](_ => 0);
    var packed, size := encoder.GetPackedObject(out, MAX_PACKET);
    packet := if packed then Some(out[..size]) else None;
  }

  /**
   The encoder on a host of either byte order: neither the packet nor whether an option writes
   outside the payload depends on the host.
   */
  method EncodeOnHost(little: bool, fp: PassThru.FloatReader, args: seq<Arg>)
    returns (packet: Option<Buffer>, overrun: bool)
    ensures packet == PassThruPacket(fp, args)
    ensures overrun <==> PassThruRuns.Overruns(fp, args)
  {
    packet, overrun := EncodeRun(little, fp, args);
    PassThruRuns.RunOverruns(fp, args);
  }

  // ---- the two parsers under the arbiter ----

  /** Nothing is known of a pass-through parser that has written outside its payload. */
  datatype ParserObj = EdsParser(eds: EdsLookup.EdsState) | PassThruParser(state: PassThru.State) | LostParser

  function EdsApi(db: EdsLookup.Database): Api<ParserObj> {
    Api(
      () => Some(EdsParser(EdsLookup.Initial)),
      (obj: ParserObj, arg: Arg) =>
        if obj.EdsParser? then
          var s := EdsLookup.Step(db, obj.eds, arg);
          (EdsParser(s.state), s.rc)
        else (obj, Undefined),
      (obj: ParserObj, capacity: nat) =>
        if obj.EdsParser? then
          var (st, packet) := EdsLookup.Pack(db, obj.eds);
          if packet.Some? && |packet.value| <= capacity then Packed(EdsParser(st), packet.value, Some(|packet.value|))
          else Packed(EdsParser(st), [], None)
        else Packed(obj, [], None))
  }

  function PassThruApi(fp: PassThru.FloatReader): Api<ParserObj> {
    Api(
      () => Some(PassThruParser(PassThru.Initial)),
      (obj: ParserObj, arg: Arg) =>
        if obj.PassThruParser? then
          var s := PassThru.Step(fp, obj.state, arg);
          if s.rc.Overrun? then (LostParser, Accepted) else (PassThruParser(s.state), s.rc)
        else (obj, Undefined),
      (obj: ParserObj, capacity: nat) =>
        if obj.PassThruParser? && PassThru.Total(obj.state) <= capacity then
          var packet := PassThru.Packet(obj.state);
          Packed(PassThruParser(PassThru.Finish(obj.state)), packet, Some(|packet|))
        else Packed(obj, [], None))
  }

  /** The parser table, with the EDS parser first in the builds that have it. */
  function ParserTable(eds: Option<EdsLookup.Database>, fp: PassThru.FloatReader): Table<ParserObj> {
    (if eds.Some? then [Some(EdsApi(eds.value))] else []) + [Some(PassThruApi(fp))]
  }

  function EdsPacket(db: EdsLookup.Database, args: seq<Arg>): Option<Buffer> {
    var r := EdsLookup.Run(db, EdsLookup.Initial, args);
    if r.accepted then EdsLookup.Pack(db, r.state).1 else None
  }

  /** What the program sends: the EDS packet if there is a nonempty one that fits, else the pass-through packet. */
  function Sent(eds: Option<EdsLookup.Database>, fp: PassThru.FloatReader, args: seq<Arg>): Buffer {
    var packet := if eds.Some? then EdsPacket(eds.value, args) else None;
    if packet.Some? && 0 < |packet.value| <= MAX_PACKET then packet.value
    else if PassThruPacket(fp, args).Some? then PassThruPacket(fp, args).value
    else []
  }

  lemma {:induction false} SoloPassThru(fp: PassThru.FloatReader, args: seq<Arg>)
    requires !PassThruRuns.Run(fp, PassThru.Initial, args).overrun
    ensures var r := PassThruRuns.Run(fp, PassThru.Initial, args);
            SoloRun(PassThruApi(fp), Instance(PassThruApi(fp)), args) == Slot(Some(PassThruParser(r.state)), r.accepted)
  {
    if args != [] { SoloPassThru(fp, args[..|args| - 1]); }
  }

  lemma {:induction false} SoloEds(db: EdsLookup.Database, args: seq<Arg>)
    ensures var r := EdsLookup.Run(db, EdsLookup.Initial, args);
            SoloRun(EdsApi(db), Instance(EdsApi(db)), args) == Slot(Some(EdsParser(r.state)), r.accepted)
  {
    if args != [] { SoloEds(db, args[..|args| - 1]); }
  }

  lemma TableLive(eds: Option<EdsLookup.Database>, fp: PassThru.FloatReader)
    ensures LiveCount(ParserTable(eds, fp)) == |ParserTable(eds, fp)|
  {
    var table := ParserTable(eds, fp);
    assert table[|table| - 1..] == [Some(PassThruApi(fp))];
    assert LiveCount([Some(PassThruApi(fp))]) == 1;
  }

  /** The pass-through parser in place j of a table supplies exactly its packet. */
  lemma PassThruSupplies(table: Table<ParserObj>, slots: seq<Slot<ParserObj>>, j: nat,
                         fp: PassThru.FloatReader, args: seq<Arg>)
    requires j < |slots| <= LiveCount(table) && table[j] == Some(PassThruApi(fp))
    requires slots[j] == SoloRun(PassThruApi(fp), Instance(PassThruApi(fp)), args)
    requires !PassThruRuns.Run(fp, PassThru.Initial, args).overrun
    ensures slots[j].isOk ==> Bounded(PackOf(table, slots, j), MAX_PACKET)
    ensures Supplies(table, slots, j) <==> PassThruPacket(fp, args).Some?
    ensures Supplies(table, slots, j) ==> OutputOf(table, slots, j) == PassThruPacket(fp, args).value
  {
    SoloPassThru(fp, args);
    NeverEmpty(fp, args);
    var packet := PassThruPacket(fp, args);
    if packet.Some? { assert packet.value[..|packet.value|] == packet.value; }
  }

  lemma NeverEmpty(fp: PassThru.FloatReader, args: seq<Arg>)
    ensures PassThruPacket(fp, args).Some? ==> |PassThruPacket(fp, args).value| >= 6
  {
    PassThruRuns.RunIsAccount(fp, args);
    PassThruTheorems.PrimaryAlways(args);
  }

  lemma EdsSupplies(table: Table<ParserObj>, slots: seq<Slot<ParserObj>>, j: nat,
                    db: EdsLookup.Database, args: seq<Arg>)
    requires j < |slots| <= LiveCount(table) && table[j] == Some(EdsApi(db))
    requires slots[j] == SoloRun(EdsApi(db), Instance(EdsApi(db)), args)
    ensures slots[j].isOk ==> Bounded(PackOf(table, slots, j), MAX_PACKET)
    ensures Supplies(table, slots, j) <==>
            EdsPacket(db, args).Some? && 0 < |EdsPacket(db, args).value| <= MAX_PACKET
    ensures Supplies(table, slots, j) ==> OutputOf(table, slots, j) == EdsPacket(db, args).value
  {
    SoloEds(db, args);
    var packet := EdsPacket(db, args);
    if packet.Some? { assert packet.value[..|packet.value|] == packet.value; }
  }

  /** Neither parser packs more than it may, whatever its object. */
  lemma PacksAreBounded(eds: Option<EdsLookup.Database>, fp: PassThru.FloatReader, slots: seq<Slot<ParserObj>>)
    requires |slots| <= LiveCount(ParserTable(eds, fp))
    ensures AllBounded(ParserTable(eds, fp), slots)
  {
    var table := ParserTable(eds, fp);
    forall j | 0 <= j < |slots| && slots[j].isOk ensures Bounded(PackOf(table, slots, j), MAX_PACKET) {
      if j == |table| - 1 {
        PassThruBounded(fp, slots[j].obj.value);
      } else {
        EdsBounded(eds.value, slots[j].obj.value);
      }
    }
  }

  lemma PassThruBounded(fp: PassThru.FloatReader, obj: ParserObj)
    ensures Bounded(PassThruApi(fp).pack(obj, MAX_PACKET), MAX_PACKET)
  {
    if obj.PassThruParser? && PassThru.Total(obj.state) <= MAX_PACKET {
      var packet := PassThru.Packet(obj.state);
      assert PassThruApi(fp).pack(obj, MAX_PACKET).written == packet;
    }
  }

  lemma EdsBounded(db: EdsLookup.Database, obj: ParserObj)
    ensures Bounded(EdsApi(db).pack(obj, MAX_PACKET), MAX_PACKET)
  {
  }

  /**
   The arbiter's content is what Sent says, for either table and all options, unless one of them
   writes outside the pass-through payload.
   */
  lemma ContentIsSent(eds: Option<EdsLookup.Database>, fp: PassThru.FloatReader, args: seq<Arg>)
    ensures var table := ParserTable(eds, fp);
            var slots := RunAll(table, Instances(table), args);
            && AllBounded(table, slots)
            && (!PassThruRuns.Overruns(fp, args) ==> Content(table, slots) == Sent(eds, fp, args))
  {
    var table := ParserTable(eds, fp);
    PacksAreBounded(eds, fp, RunAll(table, Instances(table), args));
    PassThruRuns.RunOverruns(fp, args);
    if !PassThruRuns.Overruns(fp, args) { DefinedContent(eds, fp, args); }
  }

  lemma DefinedContent(eds: Option<EdsLookup.Database>, fp: PassThru.FloatReader, args: seq<Arg>)
    requires !PassThruRuns.Run(fp, PassThru.Initial, args).overrun
    ensures var table := ParserTable(eds, fp);
            var slots := RunAll(table, Instances(table), args);
            AllBounded(table, slots) && Content(table, slots) == Sent(eds, fp, args)
  {
    var table := ParserTable(eds, fp);
    TableLive(eds, fp);
    var slots := RunAll(table, Instances(table), args);
    var last := |table| - 1;
    ParsersIndependent(table, Instances(table), args, last);
    PassThruSupplies(table, slots, last, fp, args);
    if eds.Some? {
      ParsersIndependent(table, Instances(table), args, 0);
      EdsSupplies(table, slots, 0, eds.value, args);
    }
  }

  /** Any `endian` option leaves at most one parser: "EDS" refuses the pass-through one, all else the EDS one. */
  lemma EndianChoosesParser(db: EdsLookup.Database, fp: PassThru.FloatReader, args: seq<Arg>, j: nat)
    requires j < |args| && args[j].id.Endian?
    ensures args[j].text != "EDS" ==> EdsPacket(db, args) == None
    ensures args[j].text == "EDS" ==> PassThruPacket(fp, args) == None
  {
    if args[j].text == "EDS" {
      EndianRefusedPassThru(fp, args, j);
    } else {
      EndianRefusedEds(db, args, j);
    }
  }

  /** Replacing an alias by the option that stands for it changes nothing for either parser. */
  lemma AliasesAgree(db: EdsLookup.Database, fp: PassThru.FloatReader, eds: EdsLookup.EdsState, st: PassThru.State,
                     id: OptionId, text: CString)
    requires id != PktName
    ensures PassThru.Step(fp, st, Arg(id, text)) == PassThru.Step(fp, st, Arg(Collect.Canonical(id), text))
    ensures EdsLookup.Step(db, eds, Arg(id, text)) == EdsLookup.Step(db, eds, Arg(Collect.Canonical(id), text))
  {
    var other := Collect.Canonical(id);
    if id != other {
      AliasTables(id, other);
      AliasPassThru(fp, st, id, other, text);
      AliasEds(db, eds, id, other, text);
    }
  }

  ghost predicate SameTables(id: OptionId, other: OptionId) {
    && PassThru.FieldOf(id) == PassThru.FieldOf(other) && PassThru.FormatOf(id) == PassThru.FormatOf(other)
    && !id.Endian? && !id.ProtocolName? && !other.Endian? && !other.ProtocolName?
    && forall o :: PassThru.Overriding(o, id) == PassThru.Overriding(o, other)
  }

  lemma AliasTables(id: OptionId, other: OptionId)
    requires id != PktName && other == Collect.Canonical(id) && id != other
    ensures SameTables(id, other)
  {
    AliasPairs(id);
    if id.CmdCode? {
      SameField(CmdCode, PktFc);
    } else if id.Byte? {
      SameFormat(Byte, Int8);
    } else if id.Half? {
      SameFormat(Half, Int16);
    } else if id.Long? {
      SameFormat(Long, Int32);
    } else {
      SameFormat(Word, Int32);
    }
  }

  lemma AliasPairs(id: OptionId)
    requires id != PktName && Collect.Canonical(id) != id
    ensures || (id.CmdCode? && Collect.Canonical(id) == PktFc) || (id.Byte? && Collect.Canonical(id) == Int8)
            || (id.Half? && Collect.Canonical(id) == Int16) || (id.Long? && Collect.Canonical(id) == Int32)
            || (id.Word? && Collect.Canonical(id) == Int32)
  {
  }

  lemma SameField(id: OptionId, other: OptionId)
    requires id.CmdCode? && other.PktFc?
    ensures SameTables(id, other)
  {
  }

  lemma SameFormat(id: OptionId, other: OptionId)
    requires (id.Byte? && other.Int8?) || (id.Half? && other.Int16?) || ((id.Long? || id.Word?) && other.Int32?)
    ensures SameTables(id, other)
  {
  }

  lemma AliasPassThru(fp: PassThru.FloatReader, st: PassThru.State, id: OptionId, other: OptionId, text: CString)
    requires SameTables(id, other)
    ensures PassThru.Step(fp, st, Arg(id, text)) == PassThru.Step(fp, st, Arg(other, text))
  {
    var field := PassThru.FieldOf(id);
    if field.Some? {
      assert PassThru.HeaderStep(st, field.value, id, text) == PassThru.HeaderStep(st, field.value, other, text);
    }
  }

  lemma AliasEds(db: EdsLookup.Database, st: EdsLookup.EdsState, id: OptionId, other: OptionId, text: CString)
    requires other == Collect.Canonical(id) && id != other && id != PktName
    ensures EdsLookup.Step(db, st, Arg(id, text)) == EdsLookup.Step(db, st, Arg(other, text))
  {
  }

  lemma EndianRefusedEds(db: EdsLookup.Database, args: seq<Arg>, j: nat)
    requires j < |args| && args[j].id.Endian? && args[j].text != "EDS"
    ensures !EdsLookup.Run(db, EdsLookup.Initial, args).accepted
  {
    assert args[..j + 1][..j] == args[..j];
    if EdsLookup.Run(db, EdsLookup.Initial, args).accepted {
      EdsLookup.PrefixAccepted(db, EdsLookup.Initial, args, j + 1);
    }
  }

  lemma EdsTextRefused(fp: PassThru.FloatReader, st: PassThru.State, arg: Arg)
    requires arg.id.Endian? && arg.text == "EDS"
    ensures PassThru.Step(fp, st, arg).rc == Invalid
  {
    assert "EDS"[0] != "LE"[0] && "EDS"[0] != "BE"[0];
  }

  lemma EndianRefusedPassThru(fp: PassThru.FloatReader, args: seq<Arg>, j: nat)
    requires j < |args| && args[j].id.Endian? && args[j].text == "EDS"
    ensures !PassThruRuns.Run(fp, PassThru.Initial, args).accepted
  {
    var upTo := args[..j + 1];
    assert upTo[j] == args[j];
    PrefixRefused(fp, upTo);
    PassThruRuns.RunEnds(fp, PassThru.Initial, args, j + 1);
  }

  lemma PrefixRefused(fp: PassThru.FloatReader, args: seq<Arg>)
    requires args != [] && args[|args| - 1].id.Endian? && args[|args| - 1].text == "EDS"
    ensures !PassThruRuns.Run(fp, PassThru.Initial, args).accepted
  {
    var n := |args| - 1;
    EdsTextRefused(fp, PassThruRuns.Run(fp, PassThru.Initial, args[..n]).state, args[n]);
  }

  // ---- both parsers as objects ----

  /** Gives one option to the EDS object unless it has refused one before. */
  method StepEds(parser: EdsObject.Object, ok: bool, ghost prior: seq<Arg>, arg: Arg) returns (stillOk: bool)
    requires parser.Valid()
    requires EdsLookup.Outcome(parser.View(), ok) == EdsLookup.Run(parser.db, EdsLookup.Initial, prior)
    modifies parser, parser.destIntf, parser.cmdName
    ensures parser.Valid()
    ensures stillOk ==> ok
    ensures EdsLookup.Outcome(parser.View(), stillOk) == EdsLookup.Run(parser.db, EdsLookup.Initial, prior + [arg])
  {
    assert (prior + [arg])[..|prior|] == prior;
    stillOk := ok;
    if ok {
      var rc := parser.ParseOption(arg);
      stillOk := rc != Invalid;
    }
  }

  /** Gives one option to the encoder unless it has refused one before. */
  method StepPassThru(parser: PassThruEncoder.Encoder, ok: bool, ghost prior: seq<Arg>, arg: Arg)
    returns (stillOk: bool, overrun: bool)
    requires parser.Valid()
    requires PassThruRuns.Outcome(parser.View(), ok, false) == PassThruRuns.Run(parser.fp, PassThru.Initial, prior)
    modifies parser, parser.header, parser.payload
    ensures parser.Valid() && (stillOk ==> ok)
    ensures PassThruRuns.Outcome(parser.View(), stillOk, overrun)
            == PassThruRuns.Run(parser.fp, PassThru.Initial, prior + [arg])
  {
    assert (prior + [arg])[..|prior|] == prior;
    stillOk, overrun := ok, false;
    if ok {
      var rc := parser.ParseOption(arg);
      stillOk, overrun := Continues(rc), rc.Overrun?;
    }
  }

  /** The EDS object's packet, when it is still good and the packet fits. */
  method PackEds(parser: EdsObject.Object, ok: bool, ghost args: seq<Arg>) returns (content: Buffer)
    requires parser.Valid()
    requires EdsLookup.Outcome(parser.View(), ok) == EdsLookup.Run(parser.db, EdsLookup.Initial, args)
    modifies parser, parser.destIntf, parser.cmdName
    ensures var packet := EdsPacket(parser.db, args);
            content == if packet.Some? && |packet.value| <= MAX_PACKET then packet.value else []
  {
    content := [];
    if ok {
      var packet := parser.GetPackedObject();
      if packet.Some? && |packet.value| <= MAX_PACKET {
        content := packet.value;
      }
    }
  }

  /** The encoder's packet, when it is still good and the packet fits. */
  method PackPassThru(parser: PassThruEncoder.Encoder, ok: bool, ghost args: seq<Arg>) returns (content: Buffer)
    requires parser.Valid()
    requires PassThruRuns.Outcome(parser.View(), ok, false) == PassThruRuns.Run(parser.fp, PassThru.Initial, args)
    modifies parser, parser.header, parser.payload
    ensures var packet := PassThruPacket(parser.fp, args);
            content == if packet.Some? then packet.value else []
  {
    content := [];
    if ok {
      var out := new byte[MAX_PACKET](_ => 0);
      var packed, size := parser.GetPackedObject(out, MAX_PACKET);
      if packed {
        content := out[..size];
      }
    }
  }

  /** Gives one option to both parsers and counts those that are still good. */
  method StepBoth(eds: EdsObject.Object, encoder: PassThruEncoder.Encoder, edsOk: bool, passThruOk: bool,
                  goodParsers: nat, ghost prior: seq<Arg>, arg: Arg)
    returns (edsStill: bool, passThruStill: bool, stillGood: nat, overrun: bool)
    requires eds.Valid() && encoder.Valid()
    requires {eds, eds.destIntf, eds.cmdName} !! {encoder, encoder.header, encoder.payload}
    requires goodParsers == (if edsOk then 1 else 0) + (if passThruOk then 1 else 0)
    requires EdsLookup.Outcome(eds.View(), edsOk) == EdsLookup.Run(eds.db, EdsLookup.Initial, prior)
    requires PassThruRuns.Outcome(encoder.View(), passThruOk, false)
             == PassThruRuns.Run(encoder.fp, PassThru.Initial, prior)
    modifies eds, eds.destIntf, eds.cmdName, encoder, encoder.header, encoder.payload
    ensures eds.Valid() && encoder.Valid()
    ensures stillGood == (if edsStill then 1 else 0) + (if passThruStill then 1 else 0)
    ensures EdsLookup.Outcome(eds.View(), edsStill) == EdsLookup.Run(eds.db, EdsLookup.Initial, prior + [arg])
    ensures PassThruRuns.Outcome(encoder.View(), passThruStill, overrun)
            == PassThruRuns.Run(encoder.fp, PassThru.Initial, prior + [arg])
  {
    stillGood := goodParsers;
    edsStill := StepEds(eds, edsOk, prior, arg);
    if edsOk && !edsStill {
      stillGood := stillGood - 1;
    }
    passThruStill, overrun := StepPassThru(encoder, passThruOk, prior, arg);
    if passThruOk && !passThruStill {
      stillGood := stillGood - 1;
    }
  }

  /**
   The option loop over both parsers: each sees every option until it refuses one, and the loop stops
   when both have. Their states are those of giving them all the options. Nothing is known once the
   encoder has written outside its payload.
   */
  method ParseBoth(eds: EdsObject.Object, encoder: PassThruEncoder.Encoder, args: seq<Arg>)
    returns (edsOk: bool, passThruOk: bool, overrun: bool)
    requires eds.Valid() && eds.View() == EdsLookup.Initial
    requires encoder.Valid() && encoder.View() == PassThru.Initial
    requires {eds, eds.destIntf, eds.cmdName} !! {encoder, encoder.header, encoder.payload}
    modifies eds, eds.destIntf, eds.cmdName, encoder, encoder.header, encoder.payload
    ensures eds.Valid() && encoder.Valid()
    ensures PassThruRuns.Outcome(encoder.View(), passThruOk, overrun)
            == PassThruRuns.Run(encoder.fp, PassThru.Initial, args)
    ensures !overrun ==>
              EdsLookup.Outcome(eds.View(), edsOk) == EdsLookup.Run(eds.db, EdsLookup.Initial, args)
  {
    edsOk, passThruOk, overrun := true, true, false;
    var goodParsers, i := 2, 0;
    while goodParsers > 0 && !overrun && i < |args|
      invariant i <= |args| && eds.Valid() && encoder.Valid()
      invariant goodParsers == (if edsOk then 1 else 0) + (if passThruOk then 1 else 0)
      invariant EdsLookup.Outcome(eds.View(), edsOk) == EdsLookup.Run(eds.db, EdsLookup.Initial, args[..i])
      invariant PassThruRuns.Outcome(encoder.View(), passThruOk, overrun)
                == PassThruRuns.Run(encoder.fp, PassThru.Initial, args[..i])
      decreases |args| - i
    {
      assert args[..i] + [args[i]] == args[..i + 1];
      edsOk, passThruOk, goodParsers, overrun :=
        StepBoth(eds, encoder, edsOk, passThruOk, goodParsers, args[..i], args[i]);
      i := i + 1;
    }
    if i < |args| {
      PassThruRuns.AcceptedNeverOverran(encoder.fp, args[..i]);
      PassThruRuns.RunEnds(encoder.fp, PassThru.Initial, args, i);
      if !overrun { RefusedEds(eds.db, args, i); }
    } else {
      assert args[..i] == args;
    }
  }

  lemma {:induction false} RefusedEds(db: EdsLookup.Database, args: seq<Arg>, n: nat)
    requires n <= |args| && !EdsLookup.Run(db, EdsLookup.Initial, args[..n]).accepted
    ensures EdsLookup.Run(db, EdsLookup.Initial, args) == EdsLookup.Run(db, EdsLookup.Initial, args[..n])
  {
    if n < |args| {
      var m := |args| - 1;
      assert args[..m][..n] == args[..n];
      RefusedEds(db, args[..m], n);
    } else {
      assert args[..n] == args;
    }
  }

  /** Lets both parsers in turn encode, until one has supplied content. */
  method Supply(eds: EdsObject.Object, encoder: PassThruEncoder.Encoder, edsOk: bool, passThruOk: bool,
                ghost args: seq<Arg>)
    returns (content: Buffer)
    requires eds.Valid() && encoder.Valid()
    requires {eds, eds.destIntf, eds.cmdName} !! {encoder, encoder.header, encoder.payload}
    requires EdsLookup.Outcome(eds.View(), edsOk) == EdsLookup.Run(eds.db, EdsLookup.Initial, args)
    requires PassThruRuns.Outcome(encoder.View(), passThruOk, false)
             == PassThruRuns.Run(encoder.fp, PassThru.Initial, args)
    modifies eds, eds.destIntf, eds.cmdName, encoder, encoder.header, encoder.payload
    ensures content == Sent(Some(eds.db), encoder.fp, args)
  {
    content := PackEds(eds, edsOk, args);
    if content == [] {
      content := PackPassThru(encoder, passThruOk, args);
    }
  }

  /**
   The build with both parsers: the second one packs only when the first supplied nothing. Whether
   an option writes outside the payload is the same on both hosts, and if none does, so is the content.
   */
  method RunBoth(little: bool, db: EdsLookup.Database, fp: PassThru.FloatReader, args: seq<Arg>)
    returns (content: Buffer, overrun: bool)
    ensures overrun <==> PassThruRuns.Overruns(fp, args)
    ensures !overrun ==> content == Sent(Some(db), fp, args)
  {
    PassThruRuns.RunOverruns(fp, args);
    var eds := new EdsObject.Object(db);
    var encoder := new PassThruEncoder.Encoder(little, fp);
    var edsOk, passThruOk;
    edsOk, passThruOk, overrun := ParseBoth(eds, encoder, args);
    content := [];
    if !overrun {
      content := Supply(eds, encoder, edsOk, passThruOk, args);
    }
  }

  /** The parsers of either build. */
  method RunParsers(little: bool, eds: Option<EdsLookup.Database>, fp: PassThru.FloatReader, args: seq<Arg>)
    returns (content: Buffer, overrun: bool)
    ensures overrun <==> PassThruRuns.Overruns(fp, args)
    ensures !overrun ==> content == Sent(eds, fp, args)
  {
    if eds.Some? {
      content, overrun := RunBoth(little, eds.value, fp, args);
    } else {
      var packet;
      packet, overrun := EncodeOnHost(little, fp, args);
      content := if packet.Some? then packet.value else [];
    }
  }

  /**
   The program: collects the options, runs the parsers, and prints the packet it would send.
   Nothing is sent when help is asked for; the printed lines read back as the packet. Nothing is said
   of the packet when an option writes outside the pass-through payload.
   */
  method CommandUtility(eds: Option<EdsLookup.Database>, fp: PassThru.FloatReader,
                        options: seq<Collect.Parsed>, others: seq<CString>)
    returns (packet: Buffer, lines: seq<string>)
    requires forall i :: 0 <= i < |options| ==> (options[i].letter as int) < 0x80
    ensures var args := Delivered(Collect.Entries(options) + Collect.Words(others));
            !PassThruRuns.Overruns(fp, args) ==>
              packet == if Collect.AnyHelp(options) then [] else Sent(eds, fp, args)
    ensures Hexdump.ReadLines(lines) == packet
  {
    var argV, showHelp, host, port := Collect.CollectOptions(options, others);
    var table := ParserTable(eds, fp);
    var data := new CommandData(table);
    ContentIsSent(eds, fp, Delivered(argV));
    data.Execute(argV, showHelp);
    packet := data.netBuf[..data.contentSize];
    lines := Hexdump.PrintHexdump(packet);
    Hexdump.HexdumpInverts(packet);
  }

  /**
   The program with its parsers as objects that are changed in place, on a host of either byte
   order. It tells whether an option writes outside the payload, which it would do before any help.
   */
  method CommandUtilityOnHost(little: bool, eds: Option<EdsLookup.Database>, fp: PassThru.FloatReader,
                              options: seq<Collect.Parsed>, others: seq<CString>)
    returns (packet: Buffer, lines: seq<string>, overrun: bool)
    requires forall i :: 0 <= i < |options| ==> (options[i].letter as int) < 0x80
    ensures var args := Delivered(Collect.Entries(options) + Collect.Words(others));
            && (overrun <==> PassThruRuns.Overruns(fp, args))
            && (!overrun ==> packet == if Collect.AnyHelp(options) then [] else Sent(eds, fp, args))
    ensures Hexdump.ReadLines(lines) == packet
  {
    var argV, showHelp, host, port := Collect.CollectOptions(options, others);
    packet, overrun := RunParsers(little, eds, fp, Delivered(argV));
    if showHelp {
      packet := [];
    }
    lines := Hexdump.PrintHexdump(packet);
    Hexdump.HexdumpInverts(packet);
  }
}
