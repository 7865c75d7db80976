/**
 Whole runs of the EDS parser, told without running it: which option lists it accepts, the texts
 and values they leave, what it packs, and which answers of the database decide that.
 */
module EdsRuns {
  import opened Wrappers
  import opened Bits
  import opened Bytes
  import opened Strto
  import opened CmdSend
  import opened EdsLookup
  import N = Numerals

  predicate NoWords(options: seq<Arg>) {
    forall i :: 0 <= i < |options| ==> options[i].id != None_
  }

  /** The header fields that are set by name. */
  predicate SetsScalar(id: OptionId) {
    || id == PktPb || id == PktSeqFlg || id == PktSeqCnt || id == PktEndian
    || id == PktSubsys || id == PktVer || id == PktSys
  }

  /** The header values that the database takes. */
  function ScalarsTaken(db: Database, options: seq<Arg>): seq<Arg> {
    if options == [] then []
    else
      var last := options[|options| - 1];
      ScalarsTaken(db, options[..|options| - 1])
      + if SetsScalar(last.id) && db.takesScalar(last.id, last.text) then [last] else []
  }

  /** An option is acceptable after the options before it. */
  predicate Acceptable(prior: seq<Arg>, arg: Arg) {
    if arg.id == Endian then arg.text == "EDS"
    else if arg.id == ProtocolName then
      arg.text == "ccsdspri" || arg.text == "ccsdsext" || arg.text == "cfsv1" || arg.text == "cfsv2"
    else if NamesDest(arg.id) then
      ':' !in DestNamed(prior) && (arg.id == PktApid ==> CommandPart(arg.text) == "")
    else true
  }

  predicate AllAcceptable(options: seq<Arg>) {
    options == [] ||
    (AllAcceptable(options[..|options| - 1]) && Acceptable(options[..|options| - 1], options[|options| - 1]))
  }

  /** The state after options that are all acceptable. */
  function Account(db: Database, options: seq<Arg>): EdsState {
    EdsState(DestNamed(options), CmdNamed(options), Unknown, Unknown, ScalarsTaken(db, options))
  }

  /** A list of options is accepted exactly when each is acceptable, and then leaves the account of them. */
  lemma {:induction false} RunIsAccount(db: Database, options: seq<Arg>)
    requires NoWords(options)
    ensures Run(db, Initial, options).accepted <==> AllAcceptable(options)
    ensures Run(db, Initial, options).accepted ==> Run(db, Initial, options).state == Account(db, options)
  {
    if options != [] {
      var n := |options| - 1;
      RunIsAccount(db, options[..n]);
      if Run(db, Initial, options[..n]).accepted { AccountStep(db, options); }
    }
  }

  lemma AccountStep(db: Database, options: seq<Arg>)
    requires options != [] && options[|options| - 1].id != None_
    ensures var prior, last := options[..|options| - 1], options[|options| - 1];
            var s := Step(db, Account(db, prior), last);
            && (s.rc != Invalid <==> Acceptable(prior, last))
            && (s.rc != Invalid ==> s.state == Account(db, options))
  {
    var prior, last := options[..|options| - 1], options[|options| - 1];
    StepAnswers(db, Account(db, prior), last);
    StepKeepsRest(db, Account(db, prior), last);
    if Step(db, Account(db, prior), last).rc != Invalid { OptionNames(db, Account(db, prior), last); }
  }

  /** Which options are refused. */
  lemma StepAnswers(db: Database, st: EdsState, arg: Arg)
    ensures Step(db, st, arg).rc != Invalid <==>
            if arg.id == Endian then arg.text == "EDS"
            else if arg.id == ProtocolName then
              arg.text == "ccsdspri" || arg.text == "ccsdsext" || arg.text == "cfsv1" || arg.text == "cfsv2"
            else if NamesDest(arg.id) then
              ':' !in st.dest && (arg.id == PktApid ==> CommandPart(arg.text) == "")
            else true
  {
  }

  /** What an option does to the verdicts and the values. */
  lemma StepKeepsRest(db: Database, st: EdsState, arg: Arg)
    requires arg.id != None_
    ensures var s := Step(db, st, arg).state;
            && s.intf == st.intf && s.payload == st.payload
            && s.values == st.values + if SetsScalar(arg.id) && db.takesScalar(arg.id, arg.text) then [arg] else []
  {
  }

  /**
   What is packed in the end: the database encodes the destination and command that the options name,
   with the header values taken and all the arguments, in order; nothing when the verdict is not success.
   */
  lemma PackedInTheEnd(db: Database, options: seq<Arg>, words: seq<Arg>)
    requires NoWords(options) && forall i :: 0 <= i < |words| ==> words[i].id == None_
    requires AllAcceptable(options)
    ensures var dest, cmd := DestNamed(options), CmdNamed(options);
            var done := Run(db, Initial, options + words);
            && done.accepted
            && Pack(db, done.state).1 ==
               if Verdict(db, dest, cmd) == Success
               then db.encode(Resolved(db, dest), cmd, ScalarsTaken(db, options) + words) else None
  {
    RunIsAccount(db, options);
    RunConcat(db, Initial, options, words);
    WordsAdd(db, Account(db, options), words);
    PackLooked(db, Account(db, options), words);
  }

  /** The arguments that are not options are added as values when the verdict is success. */
  lemma {:induction false} WordsAdd(db: Database, st: EdsState, words: seq<Arg>)
    requires st.intf == Unknown && st.payload == Unknown
    requires forall i :: 0 <= i < |words| ==> words[i].id == None_
    ensures var r := Run(db, st, words);
            && r.accepted
            && (words == [] ==> r.state == st)
            && (words != [] ==>
                  && r.state.payload == Verdict(db, st.dest, st.cmd)
                  && r.state.dest == Resolved(db, st.dest) && r.state.cmd == st.cmd
                  && r.state.values ==
                     if Verdict(db, st.dest, st.cmd) == Success then st.values + words else st.values)
  {
    if words != [] {
      var n := |words| - 1;
      WordsAdd(db, st, words[..n]);
      assert words == words[..n] + [words[n]];
      WordStep(db, Run(db, st, words[..n]).state, words[n]);
    }
  }

  lemma WordStep(db: Database, st: EdsState, word: Arg)
    requires word.id == None_
    requires st.payload == Unknown ==> st.intf == Unknown
    ensures var s := Step(db, st, word);
            && s.rc == Undefined
            && s.state.cmd == st.cmd
            && (st.payload == Unknown ==>
                  s.state.payload == Verdict(db, st.dest, st.cmd) && s.state.dest == Resolved(db, st.dest))
            && (st.payload != Unknown ==> s.state.payload == st.payload && s.state.dest == st.dest)
            && s.state.values == if s.state.payload == Success then st.values + [word] else st.values
  {
  }

  lemma PackLooked(db: Database, st: EdsState, words: seq<Arg>)
    requires st.intf == Unknown && st.payload == Unknown
    requires forall i :: 0 <= i < |words| ==> words[i].id == None_
    ensures Pack(db, Run(db, st, words).state).1 ==
            if Verdict(db, st.dest, st.cmd) == Success
            then db.encode(Resolved(db, st.dest), st.cmd, st.values + words) else None
  {
    WordsAdd(db, st, words);
    if words == [] { assert st.values + words == st.values; }
  }

  // ---- the answers behind the verdict ----

  /** The database answers for a resolved name and a command. */
  predicate Answers(db: Database, name: string, cmd: string) {
    db.hasArgument(name) && db.hasCommand(name, cmd) && db.hasDetail(name, cmd)
  }

  /** A destination that is a number. */
  lemma NumberVerdict(db: Database, dest: string, cmd: string, n: nat, notation: Notation)
    requires n < U64 && dest == Literal(n, notation)
    ensures Verdict(db, dest, cmd) == Success <==> db.knowsNumber(n) && Answers(db, dest, cmd)
    ensures Resolved(db, dest) == dest
  {
    assert dest == "" + Literal(n, notation) + "";
    UnsignedLiteral(false, n, notation, "");
  }

  /** A text that begins with something other than a blank, a sign or a digit is no number. */
  predicate IsName(dest: string) {
    dest == "" || (!N.IsBlank(dest[0]) && dest[0] != '+' && dest[0] != '-' && N.NoDigit(dest[0], 10))
  }

  lemma NamesAreNotNumbers(dest: string)
    requires IsName(dest)
    ensures !IsNumeric(dest)
  {
    assert dest == "" + ("" + dest);
    N.NothingConverted("", "", dest, dest);
  }

  /** The name of a component interface as it is. */
  lemma NameVerdict(db: Database, dest: string, cmd: string)
    requires IsName(dest) && db.knowsName(dest)
    ensures Verdict(db, dest, cmd) == Success <==> db.hasTopic(dest) && Answers(db, dest, cmd)
    ensures Resolved(db, dest) == dest
  {
    NamesAreNotNumbers(dest);
  }

  /** An unknown name with room for the component: it is inserted before the last slash. */
  lemma ComponentVerdict(db: Database, dest: string, cmd: string, front: string, back: string)
    requires IsName(dest) && !db.knowsName(dest)
    requires dest == front + "/" + back && '/' !in back && |dest| + 12 < 64
    ensures var name := front + "/Application/" + back;
            && Resolved(db, dest) == name
            && (Verdict(db, dest, cmd) == Success <==>
                  db.knowsName(name) && db.hasTopic(name) && Answers(db, name, cmd))
  {
    NamesAreNotNumbers(dest);
    InsertedName(dest, front, back);
  }

  lemma InsertedName(dest: string, front: string, back: string)
    requires dest == front + "/" + back && '/' !in back && |dest| + 12 < 64
    ensures CanInsert(dest) && Inserted(dest) == front + "/Application/" + back
  {
    LastSlashIs(dest, front, back);
    assert dest[..|front|] == front && dest[|front|..] == "/" + back;
    assert front + "/" + COMPONENT + ("/" + back) == front + "/Application/" + back;
  }

  lemma {:induction false} LastSlashIs(dest: string, front: string, back: string)
    requires dest == front + "/" + back && '/' !in back
    ensures LastSlash(dest) == Some(|front|)
    decreases |back|
  {
    var n := |dest| - 1;
    if back == "" {
      assert dest[n] == '/';
    } else {
      var m := |back| - 1;
      assert dest[n] == back[m] && dest[..n] == front + "/" + back[..m];
      LastSlashIs(dest[..n], front, back[..m]);
    }
  }

  /** An unknown name without a slash, or with no room, stays and fails. */
  lemma UnknownVerdict(db: Database, dest: string, cmd: string)
    requires IsName(dest) && !db.knowsName(dest) && ('/' !in dest || |dest| + 12 >= 64)
    ensures Verdict(db, dest, cmd) == Failed && Resolved(db, dest) == dest
  {
    NamesAreNotNumbers(dest);
  }
}
