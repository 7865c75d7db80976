/**
 The command-line program's arbiter: every parser sees every option until it refuses one, and
 the first parser that is still good and packs a nonempty packet supplies the content. Any
 number of parsers, each with an object of its own that only its functions understand.
 */
module Arbiter {
  import opened Wrappers
  import opened Bits
  import opened Bytes
  import opened CmdSend

  /** The outcome of packing: what was written to the buffer, and the size when it succeeded. */
  datatype Packed<+Obj> = Packed(obj: Obj, written: Buffer, size: Option<nat>)

  datatype Api<!Obj> = Api(
    instantiate: () -> Option<Obj>,
    parse: (Obj, Arg) -> (Obj, OptParse),
    pack: (Obj, nat) -> Packed<Obj>)

  datatype RawSlot<+Obj> = Slot(obj: Option<Obj>, isOk: bool)

  type Slot<+Obj> = s: RawSlot<Obj> | s.isOk ==> s.obj.Some? witness Slot(None, false)

  /** The parser table; a missing entry ends it. */
  type Table<!Obj> = seq<Option<Api<Obj>>>

  /** A packer stays within the capacity it is given, and reports no more than it wrote. */
  predicate Bounded<Obj>(p: Packed<Obj>, capacity: nat) {
    |p.written| <= capacity && (p.size.Some? ==> p.size.value <= |p.written|)
  }

  // ---- the runs of the parsers ----

  function LiveCount<Obj>(table: Table<Obj>): (n: nat)
    ensures n <= |table| && (forall j :: 0 <= j < n ==> table[j].Some?) && (n < |table| ==> table[n] == None)
  {
    if table == [] || table[0] == None then 0 else 1 + LiveCount(table[1..])
  }

  function Instance<Obj>(api: Api<Obj>): Slot<Obj> {
    var obj := api.instantiate();
    Slot(obj, obj.Some?)
  }

  function Instances<Obj>(table: Table<Obj>): (slots: seq<Slot<Obj>>)
    ensures |slots| == LiveCount(table)
    ensures forall j :: 0 <= j < |slots| ==> slots[j] == Instance(table[j].value)
  {
    seq(LiveCount(table), j requires 0 <= j < LiveCount(table) => Instance(table[j].value))
  }

  function CountOk<Obj>(slots: seq<Slot<Obj>>): nat {
    if slots == [] then 0 else CountOk(slots[..|slots| - 1]) + if slots[|slots| - 1].isOk then 1 else 0
  }

  /** One parser and one option. */
  function ParseSlot<Obj>(api: Api<Obj>, slot: Slot<Obj>, arg: Arg): Slot<Obj> {
    if !slot.isOk then slot
    else
      var (obj, rc) := api.parse(slot.obj.value, arg);
      Slot(Some(obj), rc != Invalid)
  }

  function ParseAll<Obj>(table: Table<Obj>, slots: seq<Slot<Obj>>, arg: Arg): (r: seq<Slot<Obj>>)
    requires |slots| <= LiveCount(table)
    ensures |r| == |slots|
    ensures forall j :: 0 <= j < |slots| ==> r[j] == ParseSlot(table[j].value, slots[j], arg)
  {
    seq(|slots|, j requires 0 <= j < |slots| => ParseSlot(table[j].value, slots[j], arg))
  }

  /** Every parser and every option, without any early exit. */
  function RunAll<Obj>(table: Table<Obj>, slots: seq<Slot<Obj>>, args: seq<Arg>): (r: seq<Slot<Obj>>)
    requires |slots| <= LiveCount(table)
    ensures |r| == |slots|
  {
    if args == [] then slots
    else ParseAll(table, RunAll(table, slots, args[..|args| - 1]), args[|args| - 1])
  }

  /** One parser on its own. */
  function SoloRun<Obj>(api: Api<Obj>, slot: Slot<Obj>, args: seq<Arg>): Slot<Obj> {
    if args == [] then slot else ParseSlot(api, SoloRun(api, slot, args[..|args| - 1]), args[|args| - 1])
  }

  /** The parsers do not see each other. */
  lemma {:induction false} ParsersIndependent<Obj>(table: Table<Obj>, slots: seq<Slot<Obj>>, args: seq<Arg>, j: nat)
    requires |slots| <= LiveCount(table) && j < |slots|
    ensures RunAll(table, slots, args)[j] == SoloRun(table[j].value, slots[j], args)
  {
    if args != [] {
      ParsersIndependent(table, slots, args[..|args| - 1], j);
    }
  }

  /** After a refusal a parser sees no further option. */
  lemma {:induction false} RefusalIsFinal<Obj>(api: Api<Obj>, slot: Slot<Obj>, args: seq<Arg>, n: nat)
    requires n <= |args| && !SoloRun(api, slot, args[..n]).isOk
    ensures SoloRun(api, slot, args) == SoloRun(api, slot, args[..n])
    decreases |args|
  {
    if n < |args| {
      var m := |args| - 1;
      assert args[..m][..n] == args[..n];
      RefusalIsFinal(api, slot, args[..m], n);
    } else {
      assert args[..n] == args;
    }
  }

  /** With no parser left, the remaining options change nothing. */
  lemma {:induction false} NoneLeft<Obj>(table: Table<Obj>, slots: seq<Slot<Obj>>, args: seq<Arg>)
    requires |slots| <= LiveCount(table) && CountOk(slots) == 0
    ensures RunAll(table, slots, args) == slots
  {
    if args != [] {
      NoneLeft(table, slots, args[..|args| - 1]);
      forall j | 0 <= j < |slots| ensures ParseSlot(table[j].value, slots[j], args[|args| - 1]) == slots[j] {
        NoneOk(slots, j);
      }
    }
  }

  lemma {:induction false} NoneOk<Obj>(slots: seq<Slot<Obj>>, j: nat)
    requires CountOk(slots) == 0 && j < |slots|
    ensures !slots[j].isOk
  {
    if j < |slots| - 1 { NoneOk(slots[..|slots| - 1], j); }
  }

  lemma {:induction false} RunAllConcat<Obj>(table: Table<Obj>, slots: seq<Slot<Obj>>, a: seq<Arg>, b: seq<Arg>)
    requires |slots| <= LiveCount(table)
    ensures RunAll(table, slots, a + b) == RunAll(table, RunAll(table, slots, a), b)
  {
    if b == [] {
      assert a + b == a;
    } else {
      var n := |b| - 1;
      RunAllConcat(table, slots, a, b[..n]);
      assert (a + b)[..|a| + n] == a + b[..n];
    }
  }

  // ---- who supplies the content ----

  function PackOf<Obj>(table: Table<Obj>, slots: seq<Slot<Obj>>, j: nat): Packed<Obj>
    requires j < |slots| <= LiveCount(table) && slots[j].isOk
  {
    table[j].value.pack(slots[j].obj.value, MAX_PACKET)
  }

  /** Parser j is good and packs a nonempty packet. */
  predicate Supplies<Obj>(table: Table<Obj>, slots: seq<Slot<Obj>>, j: nat)
    requires j < |slots| <= LiveCount(table)
  {
    slots[j].isOk && PackOf(table, slots, j).size.Some? && PackOf(table, slots, j).size.value > 0
  }

  function OutputOf<Obj>(table: Table<Obj>, slots: seq<Slot<Obj>>, j: nat): Buffer
    requires j < |slots| <= LiveCount(table) && Supplies(table, slots, j)
    requires Bounded(PackOf(table, slots, j), MAX_PACKET)
  {
    var p := PackOf(table, slots, j);
    p.written[..p.size.value]
  }

  /** The first parser that supplies a packet, at or after j. */
  function FirstSupplier<Obj>(table: Table<Obj>, slots: seq<Slot<Obj>>, j: nat): (r: nat)
    requires j <= |slots| <= LiveCount(table)
    ensures j <= r <= |slots|
    ensures forall i :: j <= i < r ==> !Supplies(table, slots, i)
    ensures r < |slots| ==> Supplies(table, slots, r)
    decreases |slots| - j
  {
    if j == |slots| || Supplies(table, slots, j) then j else FirstSupplier(table, slots, j + 1)
  }

  /** The parsers after encoding: each one asked has the object its packing left. */
  function AfterEncode<Obj>(table: Table<Obj>, slots: seq<Slot<Obj>>): (r: seq<Slot<Obj>>)
    requires |slots| <= LiveCount(table)
    ensures |r| == |slots|
    ensures forall j :: 0 <= j < |slots| ==> r[j].isOk == slots[j].isOk
  {
    var first := FirstSupplier(table, slots, 0);
    seq(|slots|, j requires 0 <= j < |slots| =>
      if slots[j].isOk && j <= first then Slot(Some(PackOf(table, slots, j).obj), true) else slots[j])
  }

  ghost predicate AllBounded<Obj>(table: Table<Obj>, slots: seq<Slot<Obj>>)
    requires |slots| <= LiveCount(table)
  {
    forall j :: 0 <= j < |slots| && slots[j].isOk ==> Bounded(PackOf(table, slots, j), MAX_PACKET)
  }

  /** The packet that is sent; empty when nobody supplies one. */
  ghost function Content<Obj>(table: Table<Obj>, slots: seq<Slot<Obj>>): Buffer
    requires |slots| <= LiveCount(table) && AllBounded(table, slots)
  {
    var r := FirstSupplier(table, slots, 0);
    if r < |slots| then OutputOf(table, slots, r) else []
  }

  lemma ContentBound<Obj>(table: Table<Obj>, slots: seq<Slot<Obj>>)
    requires |slots| <= LiveCount(table) && AllBounded(table, slots)
    ensures |Content(table, slots)| <= 2048
    ensures Content(table, slots) == [] <==> forall j :: 0 <= j < |slots| ==> !Supplies(table, slots, j)
  {
  }

  // ---- the program ----

  class CommandData<Obj> {
    const table: Table<Obj>
    const parser: array<Slot<Obj>>
    const netBuf: array<byte>
    var numParsers: nat
    var goodParsers: int
    var contentSize: nat

    ghost predicate Valid()
      reads this, parser, netBuf
    {
      && parser.Length == |table| && netBuf.Length == MAX_PACKET
      && parser as object != netBuf as object
      && numParsers <= LiveCount(table)
      && goodParsers == CountOk(parser[..numParsers])
      && contentSize <= MAX_PACKET
    }

    ghost function Slots(): seq<Slot<Obj>>
      requires numParsers <= parser.Length
      reads this, parser
    {
      parser[..numParsers]
    }

    constructor (table: Table<Obj>)
      ensures Valid() && fresh(parser) && fresh(netBuf)
      ensures this.table == table && numParsers == 0 && contentSize == 0
    {
      this.table := table;
      parser := new Slot<Obj>[|table|](_ => Slot(None, false));
      netBuf := new byte[MAX_PACKET](_ => 0);
      numParsers := 0;
      goodParsers := 0;
      contentSize := 0;
    }

    /** Creates the parsers; one that cannot be created is never good. */
    method InstantiateParsers()
      requires Valid() && numParsers == 0
      modifies this`numParsers, this`goodParsers, parser
      ensures Valid()
      ensures Slots() == Instances(table)
    {
      var j := 0;
      while j < |table|
        invariant j <= LiveCount(table) && numParsers == 0
        invariant parser[..j] == Instances(table)[..j]
        invariant goodParsers == CountOk(parser[..j])
      {
        if table[j] == None {
          break;
        }
        var obj := table[j].value.instantiate();
        parser[j] := Slot(obj, obj.Some?);
        if obj.Some? {
          goodParsers := goodParsers + 1;
        }
        assert parser[..j + 1][..j] == parser[..j];
        j := j + 1;
      }
      numParsers := j;
    }

    /** Gives one option to one parser. */
    method DoParseOption(j: nat, arg: Arg)
      requires Valid() && j < numParsers
      modifies this`goodParsers, parser
      ensures Valid()
      ensures Slots() == old(Slots())[j := ParseSlot(table[j].value, old(parser[j]), arg)]
    {
      if parser[j].isOk {
        var (obj, rc) := table[j].value.parse(parser[j].obj.value, arg);
        CountUpdate(Slots(), j, Slot(Some(obj), rc != Invalid));
        parser[j] := Slot(Some(obj), rc != Invalid);
        if rc == Invalid {
          goodParsers := goodParsers - 1;
        }
      }
      assert Slots() == old(Slots())[j := ParseSlot(table[j].value, old(parser[j]), arg)];
    }

    /** Gives one option to every parser. */
    method ForeachParse(arg: Arg)
      requires Valid()
      modifies this`goodParsers, parser
      ensures Valid()
      ensures Slots() == ParseAll(table, old(Slots()), arg)
    {
      for j := 0 to numParsers
        invariant Valid()
        invariant forall i :: 0 <= i < j ==> parser[i] == ParseSlot(table[i].value, old(parser[i]), arg)
        invariant forall i :: j <= i < numParsers ==> parser[i] == old(parser[i])
      {
        DoParseOption(j, arg);
        assert forall i :: 0 <= i < numParsers ==> parser[i] == Slots()[i];
      }
    }

    /** The option loop, which stops as soon as no parser is good. */
    method ProcessOptions(argV: seq<Collected>)
      requires Valid()
      modifies this`goodParsers, parser
      ensures Valid()
      ensures Slots() == RunAll(table, old(Slots()), Delivered(argV))
    {
      var i := 0;
      while goodParsers > 0 && i < |argV|
        invariant i <= |argV| && Valid()
        invariant Slots() == RunAll(table, old(Slots()), Delivered(argV[..i]))
        decreases |argV| - i
      {
        assert argV[..i + 1][..i] == argV[..i];
        DeliveredStep(argV[..i + 1]);
        if argV[i].text.Some? {
          ForeachParse(Arg(argV[i].id, argV[i].text.value));
        }
        i := i + 1;
      }
      assert argV[..|argV|] == argV;
      if goodParsers == 0 {
        var rest := DeliveredSplit(argV, i);
        RunAllConcat(table, old(Slots()), Delivered(argV[..i]), rest);
        NoneLeft(table, Slots(), rest);
      }
    }

    /** Lets every parser in turn encode, until one has supplied content. */
    method ForeachEncode()
      requires Valid() && contentSize == 0 && AllBounded(table, Slots())
      modifies this`contentSize, parser, netBuf
      ensures Valid()
      ensures netBuf[..contentSize] == Content(table, old(Slots()))
      ensures Slots() == AfterEncode(table, old(Slots()))
    {
      ghost var first := FirstSupplier(table, Slots(), 0);
      for j := 0 to numParsers
        invariant parser.Length == |table| && contentSize <= MAX_PACKET
        invariant forall i :: j <= i < numParsers ==> parser[i] == old(parser[i])
        invariant forall i :: 0 <= i < j ==> parser[i] == AfterEncode(table, old(Slots()))[i]
        invariant j <= first ==> contentSize == 0
        invariant j > first ==> netBuf[..contentSize] == Content(table, old(Slots())) && contentSize > 0
      {
        DoEncode(j, old(Slots()), first);
      }
      SameCount(old(Slots()), Slots());
    }

    /** Packs with one parser, if it is good and nothing has been supplied yet. */
    method DoEncode(j: nat, ghost slots: seq<Slot<Obj>>, ghost first: nat)
      requires parser.Length == |table| && netBuf.Length == MAX_PACKET && parser as object != netBuf as object
      requires |slots| == numParsers <= LiveCount(table) && AllBounded(table, slots)
      requires j < numParsers && parser[j] == slots[j] && first == FirstSupplier(table, slots, 0)
      requires contentSize <= MAX_PACKET
      requires j <= first ==> contentSize == 0
      requires j > first ==> netBuf[..contentSize] == Content(table, slots) && contentSize > 0
      modifies this`contentSize, parser, netBuf
      ensures forall i :: 0 <= i < parser.Length && i != j ==> parser[i] == old(parser[i])
      ensures parser[j] == AfterEncode(table, slots)[j]
      ensures contentSize <= MAX_PACKET
      ensures j + 1 <= first ==> contentSize == 0
      ensures j + 1 > first ==> netBuf[..contentSize] == Content(table, slots) && contentSize > 0
    {
      if contentSize == 0 && parser[j].isOk {
        var p := table[j].value.pack(parser[j].obj.value, netBuf.Length);
        assert p == PackOf(table, slots, j);
        assert j < first ==> !Supplies(table, slots, j);
        parser[j] := Slot(Some(p.obj), true);
        forall i | 0 <= i < |p.written| {
          netBuf[i] := p.written[i];
        }
        if p.size.Some? {
          contentSize := p.size.value;
        }
      }
    }

    /** The option loop and, unless help was asked for, the encoding. */
    method Execute(argV: seq<Collected>, showHelp: bool)
      requires Valid() && numParsers == 0 && contentSize == 0
      requires AllBounded(table, RunAll(table, Instances(table), Delivered(argV)))
      modifies this, parser, netBuf
      ensures Valid()
      ensures netBuf[..contentSize] ==
              if showHelp then [] else Content(table, RunAll(table, Instances(table), Delivered(argV)))
    {
      InstantiateParsers();
      ProcessOptions(argV);
      if !showHelp {
        ForeachEncode();
      }
    }
  }

  lemma {:induction false} CountUpdate<Obj>(slots: seq<Slot<Obj>>, j: nat, slot: Slot<Obj>)
    requires j < |slots|
    ensures CountOk(slots[j := slot]) ==
            CountOk(slots) - (if slots[j].isOk then 1 else 0) + (if slot.isOk then 1 else 0)
  {
    var n := |slots| - 1;
    if j < n {
      CountUpdate(slots[..n], j, slot);
      assert slots[j := slot][..n] == slots[..n][j := slot];
    } else {
      assert slots[j := slot][..n] == slots[..n];
    }
  }

  lemma {:induction false} SameCount<Obj>(a: seq<Slot<Obj>>, b: seq<Slot<Obj>>)
    requires |a| == |b| && forall j :: 0 <= j < |a| ==> a[j].isOk == b[j].isOk
    ensures CountOk(a) == CountOk(b)
  {
    if a != [] { SameCount(a[..|a| - 1], b[..|b| - 1]); }
  }

  lemma DeliveredStep(cs: seq<Collected>)
    requires cs != []
    ensures var d, last := Delivered(cs), cs[|cs| - 1];
            if last.text == None then d == Delivered(cs[..|cs| - 1])
            else d != [] && d[..|d| - 1] == Delivered(cs[..|cs| - 1]) && d[|d| - 1] == Arg(last.id, last.text.value)
  {
  }

  lemma {:induction false} DeliveredSplit(cs: seq<Collected>, i: nat) returns (rest: seq<Arg>)
    requires i <= |cs|
    ensures Delivered(cs) == Delivered(cs[..i]) + rest
    decreases |cs|
  {
    if i == |cs| {
      rest := [];
      assert cs[..i] == cs;
    } else {
      var n := |cs| - 1;
      var r := DeliveredSplit(cs[..n], i);
      assert cs[..n][..i] == cs[..i];
      rest := r + if cs[n].text.Some? then [Arg(cs[n].id, cs[n].text.value)] else [];
    }
  }
}
