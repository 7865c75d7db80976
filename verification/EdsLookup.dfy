/**
 The EDS parser's destination lookup. Which destination and command an option list names is
 looked up once, at the first argument that is not an option or when packing, and both verdicts
 are kept. The EDS database itself is a parameter.
 */
module EdsLookup {
  import opened Wrappers
  import opened Bytes
  import opened Strto
  import opened CmdSend
  import opened CBuffers

  /** What the EDS libraries answer. */
  datatype Database = Database(
    knowsNumber: nat -> bool,           // a numeric destination is a known topic
    knowsName: string -> bool,          // a component interface of that full name exists
    hasTopic: string -> bool,           // that interface has a topic and interface information
    hasArgument: string -> bool,        // the telecommand argument type of a destination is known
    hasCommand: (string, string) -> bool, // a destination has the named command code, or needs none
    hasDetail: (string, string) -> bool,  // type information and initialisation succeed
    takesScalar: (OptionId, string) -> bool, // a header field's type converts the text
    encode: (string, string, seq<Arg>) -> Option<Buffer>)  // the packet for the values set so far

  datatype Lookup = Failed | Unknown | Success

  /** The destination and command texts, the two verdicts, and the values set in the command. */
  datatype EdsState = EdsState(dest: string, cmd: string, intf: Lookup, payload: Lookup, values: seq<Arg>)

  const Initial: EdsState := EdsState("", "", Unknown, Unknown, [])

  const OPTARG_SIZE: nat := 64

  /** A text cut to what its buffer holds besides the NUL. */
  function Cut(s: string): (r: string)
    ensures r <= s && |r| == if |s| < 64 then |s| else 63
  {
    if |s| >= OPTARG_SIZE then s[..OPTARG_SIZE - 1] else s
  }

  // ---- the implicit "Application" component ----

  /** The index of the last slash, or None. */
  function LastSlash(s: string): (r: Option<nat>)
    ensures r.Some? ==> r.value < |s| && s[r.value] == '/' && '/' !in s[r.value + 1..]
    ensures r == None ==> '/' !in s
  {
    if s == "" then None
    else if s[|s| - 1] == '/' then Some(|s| - 1)
    else LastSlash(s[..|s| - 1])
  }

  const COMPONENT: string := "Application"

  predicate CanInsert(dest: string) {
    LastSlash(dest).Some? && |dest| + |COMPONENT| + 1 < OPTARG_SIZE
  }

  function Inserted(dest: string): (r: string)
    requires CanInsert(dest)
    ensures |r| < OPTARG_SIZE
  {
    var p := LastSlash(dest).value;
    dest[..p] + "/" + COMPONENT + dest[p..]
  }

  // ---- lookup ----

  predicate IsNumeric(dest: string) {
    StrToUnsigned(dest).tail != 0 && StrToUnsigned(dest).tail == |dest|
  }

  /** The destination text after the lookup: the component is inserted when the plain name is unknown. */
  function Resolved(db: Database, dest: string): string {
    if !IsNumeric(dest) && !db.knowsName(dest) && CanInsert(dest) then Inserted(dest) else dest
  }

  predicate DestKnown(db: Database, dest: string) {
    var name := Resolved(db, dest);
    (if IsNumeric(dest) then db.knowsNumber(StrToUnsigned(dest).value) else db.knowsName(name) && db.hasTopic(name))
    && db.hasArgument(name)
  }

  function CheckIntf(db: Database, st: EdsState): EdsState {
    if st.intf != Unknown then st
    else
      var name := Resolved(db, st.dest);
      var ok := DestKnown(db, st.dest) && db.hasCommand(name, st.cmd);
      st.(dest := name, intf := if ok then Success else Failed)
  }

  function CheckPayload(db: Database, st: EdsState): EdsState {
    if st.payload != Unknown then st
    else
      var s := CheckIntf(db, st);
      s.(payload := if s.intf == Success && db.hasDetail(s.dest, s.cmd) then Success else Failed)
  }

  // ---- options ----

  datatype Stepped = Stepped(state: EdsState, rc: OptParse)

  /**
   "destination" or "destination.command"; the command part only where it is allowed. A colon is
   looked for in the destination in force, not in the new text, and leads to a refusal.
   */
  function ParseDest(st: EdsState, text: string, allowCmd: bool): Stepped {
    var n := IndexOf(text, '.');
    var cmd := if n < |text| then text[n + 1..] else "";
    var s := st.(dest := Cut(text[..n]));
    if ':' in st.dest then Stepped(st, Invalid)
    else if cmd == "" then Stepped(s, Accepted)
    else if allowCmd then Stepped(s.(cmd := Cut(cmd)), Accepted)
    else Stepped(s, Invalid)
  }

  predicate IsScalar(id: OptionId) {
    id.PktPb? || id.PktSeqFlg? || id.PktSeqCnt? || id.PktEndian? || id.PktSubsys? || id.PktVer? || id.PktSys?
  }

  predicate IsDest(id: OptionId) { id.PktEdsVer? || id.PktId? || id.PktApid? }

  function Step(db: Database, st: EdsState, arg: Arg): Stepped {
    if arg.id.Endian? then Stepped(st, if arg.text == "EDS" then Accepted else Invalid)
    else if arg.id.ProtocolName? then
      Stepped(st, if ProtocolFromString(arg.text) == NoProtocol then Invalid else Accepted)
    else if IsDest(arg.id) then ParseDest(st, arg.text, !arg.id.PktApid?)
    else if arg.id.CmdCode? || arg.id.PktFc? then Stepped(st.(cmd := Cut(arg.text)), Accepted)
    else if IsScalar(arg.id) then
      if db.takesScalar(arg.id, arg.text) then Stepped(st.(values := st.values + [arg]), Accepted)
      else Stepped(st, Undefined)
    else if arg.id.None_? then
      var s := CheckPayload(db, st);
      Stepped(if s.payload == Success then s.(values := s.values + [arg]) else s, Undefined)
    else Stepped(st, Undefined)
  }

  /** Packing looks the destination up if that has not happened yet. */
  function Pack(db: Database, st: EdsState): (EdsState, Option<Buffer>) {
    var s := CheckPayload(db, st);
    (s, if s.payload == Success then db.encode(s.dest, s.cmd, s.values) else None)
  }

  datatype Outcome = Outcome(state: EdsState, accepted: bool)

  function Run(db: Database, st: EdsState, args: seq<Arg>): Outcome {
    if args == [] then Outcome(st, true)
    else
      var before := Run(db, st, args[..|args| - 1]);
      if !before.accepted then before
      else
        var s := Step(db, before.state, args[|args| - 1]);
        Outcome(s.state, s.rc != Invalid)
  }

  // ---- the cache ----

  /** A payload verdict rests on an interface verdict. */
  predicate Consistent(st: EdsState) {
    (st.payload != Unknown ==> st.intf != Unknown) && (st.payload == Success ==> st.intf == Success)
  }

  /** Every verdict of a keeps in b. */
  predicate Keeps(a: EdsState, b: EdsState) {
    (a.intf != Unknown ==> b.intf == a.intf) && (a.payload != Unknown ==> b.payload == a.payload)
  }

  /** Over any run each verdict is reached at most once and never changes, and the two stay consistent. */
  lemma {:induction false} VerdictsAreFinal(db: Database, st: EdsState, args: seq<Arg>, n: nat)
    requires Consistent(st) && n <= |args|
    ensures Consistent(Run(db, st, args).state)
    ensures Keeps(Run(db, st, args[..n]).state, Run(db, st, args).state)
    decreases |args|
  {
    if args == [] || n == |args| {
      assert args[..n] == args;
    }
    if args != [] {
      var m := |args| - 1;
      VerdictsAreFinal(db, st, args[..m], if n < m then n else m);
      StepKeeps(db, Run(db, st, args[..m]).state, args[m]);
      if n <= m { assert args[..m][..n] == args[..n]; }
    }
  }

  lemma StepKeeps(db: Database, st: EdsState, arg: Arg)
    requires Consistent(st)
    ensures Consistent(Step(db, st, arg).state) && Keeps(st, Step(db, st, arg).state)
  {
  }

  /** The verdict on a destination and command. */
  function Verdict(db: Database, dest: string, cmd: string): Lookup {
    var name := Resolved(db, dest);
    if DestKnown(db, dest) && db.hasCommand(name, cmd) && db.hasDetail(name, cmd) then Success else Failed
  }

  /** Options alone look nothing up. */
  lemma {:induction false} OptionsLookNothingUp(db: Database, options: seq<Arg>)
    requires forall i :: 0 <= i < |options| ==> options[i].id != None_
    ensures Run(db, Initial, options).state.intf == Unknown && Run(db, Initial, options).state.payload == Unknown
  {
    if options != [] { OptionsLookNothingUp(db, options[..|options| - 1]); }
  }

  /** The arguments after the first one that is not an option leave the verdict of the first. */
  lemma {:induction false} WordsKeepVerdict(db: Database, st: EdsState, words: seq<Arg>)
    requires st.intf == Unknown && st.payload == Unknown && words != []
    requires forall i :: 0 <= i < |words| ==> words[i].id == None_
    ensures var r := Run(db, st, words);
            && r.accepted && r.state.payload == Verdict(db, st.dest, st.cmd)
            && r.state.dest == Resolved(db, st.dest) && r.state.cmd == st.cmd
  {
    var n := |words| - 1;
    if n > 0 {
      WordsKeepVerdict(db, st, words[..n]);
    } else {
      assert words[..0] == [];
    }
  }

  lemma {:induction false} RunConcat(db: Database, st: EdsState, a: seq<Arg>, b: seq<Arg>)
    requires Run(db, st, a).accepted
    ensures Run(db, st, a + b) == Run(db, Run(db, st, a).state, b)
  {
    if b == [] {
      assert a + b == a;
    } else {
      var n := |b| - 1;
      RunConcat(db, st, a, b[..n]);
      assert (a + b)[..|a| + n] == a + b[..n];
    }
  }

  /** The options that name a destination. */
  predicate NamesDest(id: OptionId) { id == PktEdsVer || id == PktId || id == PktApid }

  /** The destination that a list of options names: that of the last option giving one. */
  function DestNamed(args: seq<Arg>): string {
    if args == [] then ""
    else
      var last := args[|args| - 1];
      if NamesDest(last.id) then Cut(last.text[..IndexOf(last.text, '.')]) else DestNamed(args[..|args| - 1])
  }

  /** The command part of a destination option, after the first dot. */
  function CommandPart(text: string): string {
    var n := IndexOf(text, '.');
    if n < |text| then text[n + 1..] else ""
  }

  /** The command that a list of options names. */
  function CmdNamed(args: seq<Arg>): string {
    if args == [] then ""
    else
      var last := args[|args| - 1];
      if last.id == CmdCode || last.id == PktFc then Cut(last.text)
      else if NamesDest(last.id) && CommandPart(last.text) != "" then Cut(CommandPart(last.text))
      else CmdNamed(args[..|args| - 1])
  }

  lemma {:induction false} NamedByOptions(db: Database, options: seq<Arg>)
    requires forall i :: 0 <= i < |options| ==> options[i].id != None_
    requires Run(db, Initial, options).accepted
    ensures Run(db, Initial, options).state.dest == DestNamed(options)
    ensures Run(db, Initial, options).state.cmd == CmdNamed(options)
  {
    if options != [] {
      var n := |options| - 1;
      NamedByOptions(db, options[..n]);
      OptionNames(db, Run(db, Initial, options[..n]).state, options[n]);
    }
  }

  /** What one option does to the destination and command texts. */
  lemma OptionNames(db: Database, st: EdsState, arg: Arg)
    requires arg.id != None_ && Step(db, st, arg).rc != Invalid
    ensures var s := Step(db, st, arg).state;
            && s.dest == (if NamesDest(arg.id) then Cut(arg.text[..IndexOf(arg.text, '.')]) else st.dest)
            && s.cmd == (if arg.id == CmdCode || arg.id == PktFc then Cut(arg.text)
                         else if NamesDest(arg.id) && CommandPart(arg.text) != "" then Cut(CommandPart(arg.text))
                         else st.cmd)
  {
  }

  lemma {:induction false} PrefixAccepted(db: Database, st: EdsState, args: seq<Arg>, n: nat)
    requires n <= |args| && Run(db, st, args).accepted
    ensures Run(db, st, args[..n]).accepted
    decreases |args| - n
  {
    if n < |args| {
      PrefixAccepted(db, st, args, n + 1);
      assert args[..n + 1][..n] == args[..n];
    } else {
      assert args[..n] == args;
    }
  }

  /** A destination with a colon can only be the last one: any later destination option is refused. */
  lemma ColonIsLast(db: Database, options: seq<Arg>, j: nat)
    requires forall i :: 0 <= i < |options| ==> options[i].id != None_
    requires j < |options| && ':' in DestNamed(options[..j]) && NamesDest(options[j].id)
    ensures !Run(db, Initial, options).accepted
  {
    assert options[..j + 1][..j] == options[..j];
    if Run(db, Initial, options).accepted {
      PrefixAccepted(db, Initial, options, j);
      NamedByOptions(db, options[..j]);
      PrefixAccepted(db, Initial, options, j + 1);
    }
  }

  /**
   Since the collected options come before the other arguments, the verdict that decides whether
   anything is packed is the one on the destination and command that all the options together name.
   */
  lemma VerdictOnFinalText(db: Database, options: seq<Arg>, words: seq<Arg>)
    requires forall i :: 0 <= i < |options| ==> options[i].id != None_
    requires forall i :: 0 <= i < |words| ==> words[i].id == None_
    requires Run(db, Initial, options).accepted
    ensures var verdict := Verdict(db, DestNamed(options), CmdNamed(options));
            var done := Run(db, Initial, options + words);
            && done.accepted
            && Pack(db, done.state).0.payload == verdict
            && (words != [] ==> done.state.payload == verdict)
            && (Pack(db, done.state).1.Some? ==> verdict == Success)
  {
    var named := Run(db, Initial, options).state;
    NamedByOptions(db, options);
    OptionsLookNothingUp(db, options);
    RunConcat(db, Initial, options, words);
    if words != [] { WordsKeepVerdict(db, named, words); }
  }

  /**
   The order matters: a destination given after a first argument is too late for the lookup, for
   any two plain names of which the first is unknown.
   */
  lemma StaleVerdict(db: Database, first: Arg, word: Arg, second: Arg)
    requires first.id == PktApid && second.id == PktApid && word.id == None_
    requires '.' !in first.text && ':' !in first.text && |first.text| < OPTARG_SIZE
    requires '.' !in second.text && |second.text| < OPTARG_SIZE
    requires !DestKnown(db, first.text) && Verdict(db, second.text, "") == Success
    ensures var r := Run(db, Initial, [first] + [word] + [second]);
            r.accepted && r.state.dest == second.text && r.state.payload == Failed
  {
    var looked := CheckPayload(db, Initial.(dest := first.text));
    NameThenWord(db, first, word);
    NoColonAdded(db, first.text);
    RunStep(db, Initial, [first] + [word], second);
    PlainDest(looked, second.text, false);
  }

  lemma NameThenWord(db: Database, first: Arg, word: Arg)
    requires first.id == PktApid && word.id == None_
    requires '.' !in first.text && |first.text| < OPTARG_SIZE && !DestKnown(db, first.text)
    ensures var looked := CheckPayload(db, Initial.(dest := first.text));
            looked.payload == Failed && Run(db, Initial, [first] + [word]) == Outcome(looked, true)
  {
    RunStep(db, Initial, [], first);
    assert [] + [first] == [first];
    PlainDest(Initial, first.text, false);
    UnknownFails(db, Initial.(dest := first.text), word);
    RunStep(db, Initial, [first], word);
  }

  /** The first argument that is not an option finds an unknown destination. */
  lemma UnknownFails(db: Database, st: EdsState, word: Arg)
    requires st.intf == Unknown && st.payload == Unknown && !DestKnown(db, st.dest) && word.id.None_?
    ensures CheckPayload(db, st).payload == Failed
    ensures Step(db, st, word) == Stepped(CheckPayload(db, st), Undefined)
  {
  }

  lemma RunStep(db: Database, st: EdsState, args: seq<Arg>, arg: Arg)
    requires Run(db, st, args).accepted
    ensures var s := Step(db, Run(db, st, args).state, arg);
            Run(db, st, args + [arg]) == Outcome(s.state, s.rc != Invalid)
  {
    assert (args + [arg])[..|args|] == args;
  }

  /** The inserted component brings in no colon. */
  lemma NoColonAdded(db: Database, dest: string)
    requires ':' !in dest
    ensures ':' !in Resolved(db, dest)
  {
    assert ':' !in COMPONENT;
  }

  lemma PlainDest(st: EdsState, text: string, allowCmd: bool)
    requires '.' !in text && |text| < OPTARG_SIZE && ':' !in st.dest
    ensures ParseDest(st, text, allowCmd) == Stepped(st.(dest := text), Accepted)
  {
    assert IndexOf(text, '.') == |text| && text[..|text|] == text;
  }
}
