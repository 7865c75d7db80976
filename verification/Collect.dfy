/**
 From the list that getopt returns to the list the parsers see: every option letter is looked up
 in a reverse table, so that aliases come out as the last option with that letter, and the
 arguments that are not options follow after all the options.
 */
module Collect {
  import opened Wrappers
  import opened CBuffers
  import opened Strto
  import opened CmdSend

  /** One result of getopt: the letter of an option, or '?', and its argument. */
  datatype Parsed = Parsed(letter: char, arg: Option<CString>)

  /** One more than the greatest option number. */
  const COUNT: nat := 45

  /** The option with a given number; number 0 is not an option. */
  function IdAt(n: nat): OptionId {
    match n
    case 1 => Help
    case 2 => Verbose
    case 3 => PktApid
    case 4 => PktPb
    case 5 => CmdCode
    case 6 => PktFc
    case 7 => PktEdsVer
    case 8 => Endian
    case 9 => PktSeqFlg
    case 10 => PktName
    case 11 => PktSeqCnt
    case 12 => Host
    case 13 => PktId
    case 14 => PktEndian
    case 15 => PktLen
    case 16 => Port
    case 17 => ProtocolName
    case 18 => PktCksum
    case 19 => PktSec
    case 20 => PktType
    case 21 => PktSubsys
    case 22 => PktVer
    case 23 => PktSys
    case 24 => Byte
    case 25 => Int8
    case 26 => Double
    case 27 => Float
    case 28 => Half
    case 29 => Int16
    case 30 => Int16b
    case 31 => Int32b
    case 32 => Int64b
    case 33 => Long
    case 34 => Word
    case 35 => Int32
    case 36 => Uint8
    case 37 => Uint16
    case 38 => Uint32
    case 39 => Uint64
    case 40 => Int64
    case 41 => String
    case 42 => Uint16b
    case 43 => Uint32b
    case 44 => Uint64b
    case _ => None_
  }

  function LetterOf(id: OptionId): char {
    match id
    case None_ => NUL
    case Help => '?'
    case Verbose => 'v'
    case PktApid => 'A'
    case PktPb => 'B'
    case CmdCode => 'C'
    case PktFc => 'C'
    case PktEdsVer => 'D'
    case Endian => 'E'
    case PktSeqFlg => 'F'
    case PktName => 'G'
    case PktSeqCnt => 'G'
    case Host => 'H'
    case PktId => 'I'
    case PktEndian => 'J'
    case PktLen => 'L'
    case Port => 'P'
    case ProtocolName => 'Q'
    case PktCksum => 'R'
    case PktSec => 'S'
    case PktType => 'T'
    case PktSubsys => 'U'
    case PktVer => 'V'
    case PktSys => 'Y'
    case Byte => 'b'
    case Int8 => 'b'
    case Double => 'd'
    case Float => 'f'
    case Half => 'h'
    case Int16 => 'h'
    case Int16b => 'i'
    case Int32b => 'j'
    case Int64b => 'k'
    case Long => 'l'
    case Word => 'l'
    case Int32 => 'l'
    case Uint8 => 'm'
    case Uint16 => 'n'
    case Uint32 => 'o'
    case Uint64 => 'p'
    case Int64 => 'q'
    case String => 's'
    case Uint16b => 'w'
    case Uint32b => 'x'
    case Uint64b => 'y'
  }

  predicate TakesArgument(id: OptionId) {
    !id.None_? && !id.Help? && !id.Verbose?
  }

  /** The last option numbered below n with a given letter. */
  function LastWith(letter: char, n: nat): OptionId {
    if n <= 1 then None_ else if LetterOf(IdAt(n - 1)) == letter then IdAt(n - 1) else LastWith(letter, n - 1)
  }

  function Lookup(letter: char): OptionId { LastWith(letter, COUNT) }

  /** Builds the reverse table, indexed by the code of the letter. */
  method BuildLookup() returns (table: array<OptionId>)
    ensures fresh(table) && table.Length == 0x80
    ensures forall c: char :: c as int < 0x80 ==> table[c as int] == Lookup(c)
  {
    LettersAreAscii();
    table := new OptionId[0x80](_ => None_);
    for n := 1 to COUNT
      invariant forall c: char :: c as int < 0x80 ==> table[c as int] == LastWith(c, n)
    {
      table[LetterOf(IdAt(n)) as int] := IdAt(n);
    }
  }

  lemma LettersAreAscii()
    ensures forall id: OptionId :: (LetterOf(id) as int) < 0x80
  {
  }

  /** An option that asks for help, or that the table does not know. */
  predicate AsksHelp(p: Parsed) {
    LetterOf(Lookup(p.letter)) != p.letter || Lookup(p.letter).Help?
  }

  predicate AnyHelp(ps: seq<Parsed>) {
    ps != [] && (AsksHelp(ps[|ps| - 1]) || AnyHelp(ps[..|ps| - 1]))
  }

  /** The list entry for one result of getopt. */
  function Entry(p: Parsed): Collected {
    var id := Lookup(p.letter);
    if AsksHelp(p) || id.Verbose? || id.Host? || id.Port? || !TakesArgument(id) then Collected(id, None)
    else Collected(id, p.arg)
  }

  function Entries(ps: seq<Parsed>): (r: seq<Collected>)
    ensures |r| == |ps| && forall i :: 0 <= i < |ps| ==> r[i] == Entry(ps[i])
  {
    seq(|ps|, i requires 0 <= i < |ps| => Entry(ps[i]))
  }

  function Words(ws: seq<CString>): (r: seq<Collected>)
    ensures |r| == |ws| && forall i :: 0 <= i < |ws| ==> r[i] == Collected(None_, Some(ws[i]))
  {
    seq(|ws|, i requires 0 <= i < |ws| => Collected(None_, Some(ws[i])))
  }

  /** The host or port after one more option: its argument, cut to the size of the buffer, if it is the wanted one. */
  function Chosen(p: Parsed, wanted: OptionId, n: nat, current: CString): CString {
    if !AsksHelp(p) && Lookup(p.letter) == wanted && p.arg.Some? then Truncated(p.arg.value, n) else current
  }

  /** The host or port in force after the options: the last one given. */
  function Destination(ps: seq<Parsed>, wanted: OptionId, n: nat, default: CString): CString {
    if ps == [] then default
    else Chosen(ps[|ps| - 1], wanted, n, Destination(ps[..|ps| - 1], wanted, n, default))
  }

  /** Handles one result of getopt: its list entry, and the settings it changes. */
  method Categorize(table: array<OptionId>, p: Parsed, showHelp: bool, host: CString, port: CString)
    returns (entry: Collected, help: bool, newHost: CString, newPort: CString)
    requires (p.letter as int) < 0x80 && table.Length == 0x80 && table[p.letter as int] == Lookup(p.letter)
    ensures entry == Entry(p) && (help <==> showHelp || AsksHelp(p))
    ensures newHost == Chosen(p, Host, 127, host) && newPort == Chosen(p, Port, 31, port)
  {
    var id := table[p.letter as int];
    entry, help, newHost, newPort := Collected(id, None), showHelp, host, port;
    if LetterOf(id) != p.letter || id.Help? {
      help := true;
    } else if id.Verbose? {
    } else if id.Host? {
      if p.arg.Some? { newHost := Truncated(p.arg.value, 127); }
    } else if id.Port? {
      if p.arg.Some? { newPort := Truncated(p.arg.value, 31); }
    } else if TakesArgument(id) {
      entry := Collected(id, p.arg);
    }
  }

  /** The list entries of the options, and the settings that the options change on the way. */
  method CollectEntries(options: seq<Parsed>)
    returns (argV: seq<Collected>, showHelp: bool, host: CString, port: CString)
    requires forall i :: 0 <= i < |options| ==> (options[i].letter as int) < 0x80
    ensures argV == Entries(options) && (showHelp <==> AnyHelp(options))
    ensures host == Destination(options, Host, 127, "127.0.0.1")
    ensures port == Destination(options, Port, 31, "1234")
  {
    var table := BuildLookup();
    argV, showHelp, host, port := [], false, "127.0.0.1", "1234";
    for i := 0 to |options|
      invariant forall c: char :: c as int < 0x80 ==> table[c as int] == Lookup(c)
      invariant argV == Entries(options)[..i]
      invariant showHelp <==> AnyHelp(options[..i])
      invariant host == Destination(options[..i], Host, 127, "127.0.0.1")
      invariant port == Destination(options[..i], Port, 31, "1234")
    {
      assert options[..i + 1][..i] == options[..i];
      var entry;
      entry, showHelp, host, port := Categorize(table, options[i], showHelp, host, port);
      argV := argV + [entry];
    }
    assert options[..|options|] == options;
  }

  /** Builds the argument list: first the options, then the other arguments. */
  method CollectOptions(options: seq<Parsed>, others: seq<CString>)
    returns (argV: seq<Collected>, showHelp: bool, host: CString, port: CString)
    requires forall i :: 0 <= i < |options| ==> (options[i].letter as int) < 0x80
    ensures argV == Entries(options) + Words(others)
    ensures showHelp <==> AnyHelp(options)
    ensures host == Destination(options, Host, 127, "127.0.0.1")
    ensures port == Destination(options, Port, 31, "1234")
  {
    argV, showHelp, host, port := CollectEntries(options);
    for i := 0 to |others|
      invariant argV == Entries(options) + Words(others)[..i]
    {
      argV := argV + [Collected(None_, Some(others[i]))];
    }
  }

  /** strncpy into a zeroed buffer with room for n characters. */
  function Truncated(s: CString, n: nat): CString {
    if |s| > n then s[..n] else s
  }

  // ---- aliases ----

  /** The option that stands for all the aliases of an option. */
  function Canonical(id: OptionId): OptionId {
    match id
    case CmdCode => PktFc
    case PktName => PktSeqCnt
    case Byte => Int8
    case Half => Int16
    case Long => Int32
    case Word => Int32
    case _ => id
  }

  /** The inverse of the numbering, for proofs. */
  ghost function NumberOf(id: OptionId): nat {
    match id
    case None_ => 0
    case Help => 1
    case Verbose => 2
    case PktApid => 3
    case PktPb => 4
    case CmdCode => 5
    case PktFc => 6
    case PktEdsVer => 7
    case Endian => 8
    case PktSeqFlg => 9
    case PktName => 10
    case PktSeqCnt => 11
    case Host => 12
    case PktId => 13
    case PktEndian => 14
    case PktLen => 15
    case Port => 16
    case ProtocolName => 17
    case PktCksum => 18
    case PktSec => 19
    case PktType => 20
    case PktSubsys => 21
    case PktVer => 22
    case PktSys => 23
    case Byte => 24
    case Int8 => 25
    case Double => 26
    case Float => 27
    case Half => 28
    case Int16 => 29
    case Int16b => 30
    case Int32b => 31
    case Int64b => 32
    case Long => 33
    case Word => 34
    case Int32 => 35
    case Uint8 => 36
    case Uint16 => 37
    case Uint32 => 38
    case Uint64 => 39
    case Int64 => 40
    case String => 41
    case Uint16b => 42
    case Uint32b => 43
    case Uint64b => 44
  }

  lemma NumberOfId(id: OptionId)
    ensures NumberOf(id) < COUNT && IdAt(NumberOf(id)) == id
  {
    if NumberOf(id) < 24 {} else {}
  }

  /** The option that stands for its aliases comes last among them. */
  lemma CanonicalIsLast(id: OptionId)
    ensures NumberOf(id) <= NumberOf(Canonical(id)) && LetterOf(Canonical(id)) == LetterOf(id)
  {
  }

  lemma NumberAt(n: nat)
    requires n < COUNT
    ensures NumberOf(IdAt(n)) == n
  {
  }

  /** The inverse of the letters, for proofs: the option an upper-case letter or a question mark stands for. */
  ghost function UpperMeaning(letter: char): OptionId {
    if letter == '?' then Help
    else if letter == 'A' then PktApid
    else if letter == 'B' then PktPb
    else if letter == 'C' then PktFc
    else if letter == 'D' then PktEdsVer
    else if letter == 'E' then Endian
    else if letter == 'F' then PktSeqFlg
    else if letter == 'G' then PktSeqCnt
    else if letter == 'H' then Host
    else if letter == 'I' then PktId
    else if letter == 'J' then PktEndian
    else if letter == 'L' then PktLen
    else if letter == 'P' then Port
    else if letter == 'Q' then ProtocolName
    else if letter == 'R' then PktCksum
    else if letter == 'S' then PktSec
    else if letter == 'T' then PktType
    else if letter == 'U' then PktSubsys
    else if letter == 'V' then PktVer
    else if letter == 'Y' then PktSys
    else None_
  }

  /** The option a lower-case letter stands for. */
  ghost function LowerMeaning(letter: char): OptionId {
    if letter == 'v' then Verbose
    else if letter == 'b' then Int8
    else if letter == 'd' then Double
    else if letter == 'f' then Float
    else if letter == 'h' then Int16
    else if letter == 'i' then Int16b
    else if letter == 'j' then Int32b
    else if letter == 'k' then Int64b
    else if letter == 'l' then Int32
    else if letter == 'm' then Uint8
    else if letter == 'n' then Uint16
    else if letter == 'o' then Uint32
    else if letter == 'p' then Uint64
    else if letter == 'q' then Int64
    else if letter == 's' then String
    else if letter == 'w' then Uint16b
    else if letter == 'x' then Uint32b
    else if letter == 'y' then Uint64b
    else None_
  }

  ghost function MeaningOf(letter: char): OptionId {
    if letter < 'a' then UpperMeaning(letter) else LowerMeaning(letter)
  }

  lemma MeaningIsCanonical(id: OptionId)
    ensures MeaningOf(LetterOf(id)) == Canonical(id)
  {
    if LetterOf(id) < 'a' { UpperIsCanonical(id); } else { LowerIsCanonical(id); }
  }

  lemma UpperIsCanonical(id: OptionId)
    requires LetterOf(id) < 'a'
    ensures UpperMeaning(LetterOf(id)) == Canonical(id)
  {
    if NumberOf(id) < 8 {} else if NumberOf(id) < 15 {} else {}
  }

  lemma LowerIsCanonical(id: OptionId)
    requires LetterOf(id) >= 'a'
    ensures LowerMeaning(LetterOf(id)) == Canonical(id)
  {
    if NumberOf(id) < 29 {} else if NumberOf(id) < 36 {} else {}
  }

  /** Looking up the letter of an option gives the one option that stands for its aliases. */
  lemma LookupCanonical(id: OptionId)
    requires id != None_
    ensures Lookup(LetterOf(id)) == Canonical(id)
  {
    var m := NumberOf(Canonical(id));
    NumberOfId(Canonical(id));
    CanonicalIsLast(id);
    MeaningIsCanonical(id);
    forall k: nat | m < k < COUNT ensures LetterOf(IdAt(k)) != LetterOf(id) {
      NumberAt(k);
      CanonicalIsLast(IdAt(k));
      MeaningIsCanonical(IdAt(k));
    }
    LastIs(LetterOf(id), COUNT, m);
  }

  lemma {:induction false} LastIs(letter: char, n: nat, m: nat)
    requires 0 < m < n && LetterOf(IdAt(m)) == letter
    requires forall k :: m < k < n ==> LetterOf(IdAt(k)) != letter
    ensures LastWith(letter, n) == IdAt(m)
    decreases n
  {
    if m < n - 1 { LastIs(letter, n - 1, m); }
  }

  /** A letter is found exactly when some option has it. */
  lemma {:induction false} LookupFinds(letter: char, n: nat)
    requires n <= COUNT && letter != NUL
    ensures LastWith(letter, n) != None_ ==> LetterOf(LastWith(letter, n)) == letter
    ensures LastWith(letter, n) == None_ <==> forall k :: 1 <= k < n ==> LetterOf(IdAt(k)) != letter
    decreases n
  {
    if n > 1 { LookupFinds(letter, n - 1); }
  }

  // ---- what reaches the parsers ----

  /**
   The parsers first see the options, none of them an alias or an argument without option, and
   then the arguments that are not options, in the given order.
   */
  lemma DeliveredInOrder(options: seq<Parsed>, others: seq<CString>)
    requires forall i :: 0 <= i < |options| ==> options[i].letter != NUL
    ensures Delivered(Entries(options) + Words(others)) == Delivered(Entries(options)) + WordArgs(others)
    ensures AllCanonical(Delivered(Entries(options)))
  {
    OptionsDelivered(options);
    WordsDelivered(Entries(options), others);
  }

  /** What a letter stands for, from the literal table of letters, is what is looked up. */
  lemma LookupMeaning(letter: char)
    requires letter != NUL
    ensures Lookup(letter) == MeaningOf(letter)
    ensures Lookup(letter) != None_ <==> LetterOf(Lookup(letter)) == letter
  {
    if MeaningOf(letter) != None_ {
      LetterOfMeaning(letter);
      NumberOfId(MeaningOf(letter));
    }
    LookupFinds(letter, COUNT);
    if Lookup(letter) != None_ {
      LookupCanonical(Lookup(letter));
      MeaningIsCanonical(Lookup(letter));
    }
  }

  lemma LetterOfMeaning(letter: char)
    requires MeaningOf(letter) != None_
    ensures LetterOf(MeaningOf(letter)) == letter && NumberOf(MeaningOf(letter)) >= 1
  {
    if letter < 'a' { LetterOfUpper(letter); } else { LetterOfLower(letter); }
  }

  lemma LetterOfUpper(letter: char)
    requires UpperMeaning(letter) != None_
    ensures LetterOf(UpperMeaning(letter)) == letter && NumberOf(UpperMeaning(letter)) >= 1
  {
    if letter < 'H' {} else if letter < 'R' {} else {}
  }

  lemma LetterOfLower(letter: char)
    requires LowerMeaning(letter) != None_
    ensures LetterOf(LowerMeaning(letter)) == letter && NumberOf(LowerMeaning(letter)) >= 1
  {
    if letter < 'j' {} else if letter < 'o' {} else {}
  }

  /** Every option but these four and those without an argument goes to the parsers with its text. */
  ghost predicate IsSeen(p: Parsed) {
    var id := MeaningOf(p.letter);
    p.arg.Some? && id != None_ && id != Help && id != Verbose && id != Host && id != Port
  }

  /** What the parsers see of the results of getopt, all of it and in order. */
  ghost function Seen(ps: seq<Parsed>): seq<Arg> {
    if ps == [] then []
    else
      var last := ps[|ps| - 1];
      Seen(ps[..|ps| - 1]) + if IsSeen(last) then [Arg(MeaningOf(last.letter), last.arg.value)] else []
  }

  /** Whatever getopt returns, the parsers see just that. */
  lemma {:induction false} OptionsSeen(ps: seq<Parsed>)
    requires forall i :: 0 <= i < |ps| ==> ps[i].letter != NUL
    ensures Delivered(Entries(ps)) == Seen(ps)
  {
    if ps != [] {
      var n := |ps| - 1;
      OptionsSeen(ps[..n]);
      assert Entries(ps)[..n] == Entries(ps[..n]);
      EntrySeen(ps[n]);
    }
  }

  lemma EntrySeen(p: Parsed)
    requires p.letter != NUL
    ensures Entry(p).text.Some? <==> IsSeen(p)
    ensures IsSeen(p) ==> Entry(p) == Collected(MeaningOf(p.letter), p.arg)
  {
    LookupMeaning(p.letter);
  }

  function CanonicalArgs(ids: seq<OptionId>, texts: seq<CString>): (args: seq<Arg>)
    requires |ids| == |texts|
    ensures |args| == |ids| && forall i :: 0 <= i < |ids| ==> args[i] == Arg(Canonical(ids[i]), texts[i])
  {
    seq(|ids|, i requires 0 <= i < |ids| => Arg(Canonical(ids[i]), texts[i]))
  }

  /**
   Options given with their letters and texts, none of them help, verbose, host or port, reach the
   parsers all, in order, with their texts, each as the one that stands for its aliases.
   */
  lemma GivenOptionsSeen(ids: seq<OptionId>, texts: seq<CString>, ps: seq<Parsed>)
    requires |ids| == |texts| == |ps|
    requires forall i :: 0 <= i < |ids| ==>
               ids[i] != None_ && ids[i] != Help && ids[i] != Verbose && ids[i] != Host && ids[i] != Port
    requires forall i :: 0 <= i < |ids| ==> ps[i] == Parsed(LetterOf(ids[i]), Some(texts[i]))
    ensures Delivered(Entries(ps)) == CanonicalArgs(ids, texts)
  {
    forall i | 0 <= i < |ids| ensures Entries(ps)[i] == Collected(Canonical(ids[i]), Some(texts[i])) {
      GivenEntry(ids[i], texts[i]);
    }
    AllDelivered(Entries(ps), CanonicalArgs(ids, texts));
  }

  lemma {:induction false} AllDelivered(cs: seq<Collected>, args: seq<Arg>)
    requires |cs| == |args| && forall i :: 0 <= i < |cs| ==> cs[i] == Collected(args[i].id, Some(args[i].text))
    ensures Delivered(cs) == args
  {
    if cs != [] {
      var n := |cs| - 1;
      AllDelivered(cs[..n], args[..n]);
      assert args == args[..n] + [args[n]];
    }
  }

  lemma GivenEntry(id: OptionId, text: CString)
    requires id != None_ && id != Help && id != Verbose && id != Host && id != Port
    ensures Entry(Parsed(LetterOf(id), Some(text))) == Collected(Canonical(id), Some(text))
  {
    OnlyNoneIsNul(id);
    MeaningIsCanonical(id);
    OrdinaryCanonical(id);
    EntrySeen(Parsed(LetterOf(id), Some(text)));
  }

  lemma OnlyNoneIsNul(id: OptionId)
    ensures LetterOf(id) == NUL <==> id == None_
  {
  }

  lemma OrdinaryCanonical(id: OptionId)
    requires id != None_ && id != Help && id != Verbose && id != Host && id != Port
    ensures var c := Canonical(id);
            c != None_ && c != Help && c != Verbose && c != Host && c != Port
  {
  }

  ghost predicate WantsHelp(p: Parsed) { p.letter == '?' || MeaningOf(p.letter) == None_ }

  ghost predicate SomeWants(ps: seq<Parsed>) { exists i :: 0 <= i < |ps| && WantsHelp(ps[i]) }

  /** Help is shown exactly when some result of getopt is '?' or a letter that no option has. */
  lemma {:induction false} HelpAsked(ps: seq<Parsed>)
    requires forall i :: 0 <= i < |ps| ==> ps[i].letter != NUL
    ensures AnyHelp(ps) <==> SomeWants(ps)
  {
    if ps != [] {
      var n := |ps| - 1;
      HelpAsked(ps[..n]);
      AskIsWant(ps[n]);
      WantedLater(ps);
    }
  }

  lemma WantedLater(ps: seq<Parsed>)
    requires ps != []
    ensures SomeWants(ps) <==> SomeWants(ps[..|ps| - 1]) || WantsHelp(ps[|ps| - 1])
  {
    var n := |ps| - 1;
    if SomeWants(ps[..n]) {
      var i :| 0 <= i < n && WantsHelp(ps[..n][i]);
      assert WantsHelp(ps[i]);
    }
    if SomeWants(ps) {
      var i :| 0 <= i < |ps| && WantsHelp(ps[i]);
      if i < n { assert WantsHelp(ps[..n][i]); }
    }
  }

  lemma AskIsWant(p: Parsed)
    requires p.letter != NUL
    ensures AsksHelp(p) <==> WantsHelp(p)
  {
    LookupMeaning(p.letter);
    OnlyHelpIsHelp(p.letter);
  }

  lemma OnlyHelpIsHelp(letter: char)
    ensures MeaningOf(letter) == Help <==> letter == '?'
  {
  }

  /** The letter of the host and that of the port. */
  predicate IsAddress(wanted: OptionId, letter: char) {
    (wanted == Host && letter == 'H') || (wanted == Port && letter == 'P')
  }

  /** The last host (port) given is the one in force, cut to n characters. */
  lemma {:induction false} LastAddress(ps: seq<Parsed>, wanted: OptionId, letter: char, n: nat, default: CString,
                                             j: nat)
    requires IsAddress(wanted, letter) && j < |ps| && ps[j].letter == letter && ps[j].arg.Some?
    requires forall i :: 0 <= i < |ps| ==> ps[i].letter != NUL
    requires forall m :: j < m < |ps| ==> ps[m].letter != letter || ps[m].arg == None
    ensures var address, text := Destination(ps, wanted, n, default), ps[j].arg.value;
            address <= text && |address| == if |text| > n then n else |text|
    decreases |ps|
  {
    var m := |ps| - 1;
    ChosenIs(ps[m], wanted, letter, n, Destination(ps[..m], wanted, n, default));
    if j < m { LastAddress(ps[..m], wanted, letter, n, default, j); }
  }

  /** Without one the default stays. */
  lemma {:induction false} NoAddress(ps: seq<Parsed>, wanted: OptionId, letter: char, n: nat, default: CString)
    requires IsAddress(wanted, letter)
    requires forall i :: 0 <= i < |ps| ==> ps[i].letter != NUL && (ps[i].letter != letter || ps[i].arg == None)
    ensures Destination(ps, wanted, n, default) == default
  {
    if ps != [] {
      var m := |ps| - 1;
      ChosenIs(ps[m], wanted, letter, n, Destination(ps[..m], wanted, n, default));
      NoAddress(ps[..m], wanted, letter, n, default);
    }
  }

  lemma ChosenIs(p: Parsed, wanted: OptionId, letter: char, n: nat, current: CString)
    requires p.letter != NUL && IsAddress(wanted, letter)
    ensures Chosen(p, wanted, n, current) ==
            if p.letter == letter && p.arg.Some? then Truncated(p.arg.value, n) else current
  {
    LookupMeaning(p.letter);
    AddressLetter(p.letter);
  }

  lemma AddressLetter(letter: char)
    ensures MeaningOf(letter) == Host <==> letter == 'H'
    ensures MeaningOf(letter) == Port <==> letter == 'P'
  {
  }

  /** The parsers never see `pktname`: its letter is that of `pktseqcnt`, which they see instead. */
  lemma NeverPktName(options: seq<Parsed>, others: seq<CString>)
    requires forall i :: 0 <= i < |options| ==> options[i].letter != NUL
    ensures var all := Delivered(Entries(options) + Words(others));
            forall i :: 0 <= i < |all| ==> all[i].id != PktName
    ensures Lookup(LetterOf(PktName)) == PktSeqCnt
  {
    DeliveredInOrder(options, others);
    LookupCanonical(PktName);
  }

  /** No argument without option, and no option that is an alias. */
  predicate AllCanonical(args: seq<Arg>) {
    forall i :: 0 <= i < |args| ==> args[i].id != None_ && Canonical(args[i].id) == args[i].id
  }

  lemma {:induction false} OptionsDelivered(options: seq<Parsed>)
    requires forall i :: 0 <= i < |options| ==> options[i].letter != NUL
    ensures AllCanonical(Delivered(Entries(options)))
  {
    if options != [] {
      var n := |options| - 1;
      OptionsDelivered(options[..n]);
      assert Entries(options)[..n] == Entries(options[..n]);
      if Entry(options[n]).text.Some? { EntryCanonical(options[n]); }
    }
  }

  /** An option that keeps its text is the one that stands for its aliases. */
  lemma EntryCanonical(p: Parsed)
    requires p.letter != NUL && Entry(p).text.Some?
    ensures Entry(p).id != None_ && Canonical(Entry(p).id) == Entry(p).id
  {
    LookupFinds(p.letter, COUNT);
    LookupCanonical(Lookup(p.letter));
  }

  /** The arguments that are not options as the parsers see them. */
  function WordArgs(others: seq<CString>): (r: seq<Arg>)
    ensures |r| == |others| && forall i :: 0 <= i < |others| ==> r[i] == Arg(None_, others[i])
  {
    seq(|others|, i requires 0 <= i < |others| => Arg(None_, others[i]))
  }

  lemma {:induction false} WordsDelivered(front: seq<Collected>, others: seq<CString>)
    ensures Delivered(front + Words(others)) == Delivered(front) + WordArgs(others)
  {
    if others == [] {
      assert front + Words(others) == front;
    } else {
      var m := |others| - 1;
      LastWord(others);
      WordsDelivered(front, others[..m]);
      OneMoreWord(front + Words(others[..m]), others[m]);
      assert front + Words(others) == front + Words(others[..m]) + [Collected(None_, Some(others[m]))];
    }
  }

  lemma LastWord(others: seq<CString>)
    requires others != []
    ensures var m := |others| - 1;
            && Words(others) == Words(others[..m]) + [Collected(None_, Some(others[m]))]
            && WordArgs(others) == WordArgs(others[..m]) + [Arg(None_, others[m])]
  {
  }

  lemma OneMoreWord(cs: seq<Collected>, w: CString)
    ensures Delivered(cs + [Collected(None_, Some(w))]) == Delivered(cs) + [Arg(None_, w)]
  {
    assert (cs + [Collected(None_, Some(w))])[..|cs|] == cs;
  }
}
