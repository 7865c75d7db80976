/**
 The EDS parser as the program runs it: the destination and command texts live in 64-byte
 buffers that options overwrite and the lookup edits in place. View() is the state they stand for.
 */
module EdsObject {
  import opened Wrappers
  import opened Bytes
  import opened Strto
  import opened CmdSend
  import opened CBuffers
  import opened EdsLookup

  /** memmove of n characters to a higher place that may overlap. */
  method MoveRight(buf: array<char>, src: nat, dst: nat, n: nat)
    requires src <= dst && dst + n <= buf.Length
    modifies buf
    ensures forall k :: dst <= k < dst + n ==> buf[k] == old(buf[k - dst + src])
    ensures forall i :: 0 <= i < buf.Length && !(dst <= i < dst + n) ==> buf[i] == old(buf[i])
  {
    for i := n downto 0
      invariant forall k :: dst + i <= k < dst + n ==> buf[k] == old(buf[k - dst + src])
      invariant forall k :: 0 <= k < buf.Length && !(dst + i <= k < dst + n) ==> buf[k] == old(buf[k])
    {
      buf[dst + i] := buf[src + i];
    }
  }

  /** memcpy of a text into a buffer. */
  method CopyIn(buf: array<char>, at: nat, text: string)
    requires at + |text| <= buf.Length
    modifies buf
    ensures forall k :: at <= k < at + |text| ==> buf[k] == text[k - at]
    ensures forall i :: 0 <= i < buf.Length && !(at <= i < at + |text|) ==> buf[i] == old(buf[i])
  {
    for i := 0 to |text|
      invariant forall k :: at <= k < at + i ==> buf[k] == text[k - at]
      invariant forall k :: 0 <= k < buf.Length && !(at <= k < at + i) ==> buf[k] == old(buf[k])
    {
      buf[at + i] := text[i];
    }
  }

  /** strrchr for a slash in the first n characters. */
  method FindLastSlash(buf: array<char>, n: nat) returns (p: Option<nat>)
    requires n <= buf.Length
    ensures p == LastSlash(buf[..n])
  {
    var i := n;
    while i > 0 && buf[i - 1] != '/'
      invariant 0 <= i <= n && LastSlash(buf[..i]) == LastSlash(buf[..n])
    {
      assert buf[..i][..i - 1] == buf[..i - 1];
      i := i - 1;
    }
    p := if i > 0 then Some(i - 1) else None;
  }

  /** Moves the text from index p on to the right and writes a slash and a name into the gap. */
  method InsertAt(buf: array<char>, p: nat, n: nat, name: string)
    requires p < n && n + |name| + 1 < buf.Length && NUL !in name
    requires NUL !in buf[..n] && buf[n] == NUL
    modifies buf
    ensures Text(buf[..]) == old(buf[..p]) + "/" + name + old(buf[p..n]) && Terminated(buf[..])
  {
    ghost var was := buf[..n];
    MoveRight(buf, p, p + |name| + 1, 1 + n - p);
    CopyIn(buf, p + 1, name);
    buf[p] := '/';
    InsertedText(buf[..], was, p, name);
    assert was[..p] == old(buf[..p]) && was[p..] == old(buf[p..n]);
  }

  /** Inserts the component name before the last slash, if there is one and the buffer has room. */
  method InsertComponent(buf: array<char>) returns (inserted: bool)
    requires buf.Length == OPTARG_SIZE && Terminated(buf[..])
    modifies buf
    ensures inserted <==> CanInsert(old(Text(buf[..])))
    ensures Terminated(buf[..])
    ensures Text(buf[..]) == if inserted then Inserted(old(Text(buf[..]))) else old(Text(buf[..]))
    ensures !inserted ==> buf[..] == old(buf[..])
  {
    var len := StrLen(buf);
    var separator := FindLastSlash(buf, len);
    inserted := separator.Some? && len + |COMPONENT| + 1 < buf.Length;
    if inserted {
      var p := separator.value;
      ComponentText();
      assert buf[..p] == buf[..len][..p] && buf[p..len] == buf[..len][p..];
      InsertAt(buf, p, len, COMPONENT);
    }
  }

  lemma InsertedText(s: seq<char>, was: string, p: nat, name: string)
    requires p < |was| && |was| + |name| + 1 < |s| && NUL !in was && NUL !in name
    requires forall k :: 0 <= k < p ==> s[k] == was[k]
    requires s[p] == '/' && forall k :: p + 1 <= k < p + 1 + |name| ==> s[k] == name[k - p - 1]
    requires forall k :: p + |name| + 1 <= k < |was| + |name| + 1 ==> s[k] == was[k - |name| - 1]
    requires s[|was| + |name| + 1] == NUL
    ensures Text(s) == was[..p] + "/" + name + was[p..] && Terminated(s)
  {
    var q := p + 1 + |name|;
    assert s[..p] == was[..p];
    assert s[p + 1..q] == name;
    assert s[q..q + |was| - p] == was[p..];
    JoinedText(s, was[..p], name, was[p..]);
  }

  lemma ComponentText()
    ensures NUL !in COMPONENT
  {
  }

  lemma JoinedText(s: seq<char>, front: string, name: string, back: string)
    requires |front| + 1 + |name| + |back| < |s| && NUL !in front && NUL !in name && NUL !in back
    requires s[..|front|] == front && s[|front|] == '/'
    requires s[|front| + 1..|front| + 1 + |name|] == name
    requires s[|front| + 1 + |name|..|front| + 1 + |name| + |back|] == back
    requires s[|front| + 1 + |name| + |back|] == NUL
    ensures Text(s) == front + "/" + name + back && Terminated(s)
  {
    var t := front + "/" + name + back;
    var p, q := |front|, |front| + 1 + |name|;
    assert s[..|t|] == s[..p] + [s[p]] + s[p + 1..q] + s[q..|t|];
    TextIs(s, t);
  }

  class Object {
    const db: Database
    const destIntf: array<char>
    const cmdName: array<char>
    var intfState: Lookup
    var payloadState: Lookup
    var values: seq<Arg>

    ghost predicate Valid()
      reads this, destIntf, cmdName
    {
      && destIntf.Length == OPTARG_SIZE && cmdName.Length == OPTARG_SIZE && destIntf != cmdName
      && Terminated(destIntf[..]) && cmdName[OPTARG_SIZE - 1] == NUL && Terminated(cmdName[..])
    }

    ghost function View(): EdsState
      requires Valid()
      reads this, destIntf, cmdName
    {
      EdsState(Text(destIntf[..]), Text(cmdName[..]), intfState, payloadState, values)
    }

    constructor (db: Database)
      ensures Valid() && View() == Initial && this.db == db && fresh(destIntf) && fresh(cmdName)
    {
      this.db := db;
      destIntf := new char[OPTARG_SIZE](_ => NUL);
      cmdName := new char[OPTARG_SIZE](_ => NUL);
      intfState := Unknown;
      payloadState := Unknown;
      values := [];
      new;
      TextIs(destIntf[..], "");
      TextIs(cmdName[..], "");
    }

    /** Resolves the destination text; the component is tried when the plain name is unknown. */
    method ProcessDestIntf() returns (ok: bool)
      requires Valid()
      modifies destIntf
      ensures Valid()
      ensures ok == DestKnown(db, old(View()).dest)
      ensures View() == old(View()).(dest := Resolved(db, old(View()).dest))
    {
      var dest := DestText();
      var c := StrToUnsigned(dest);
      if c.tail != 0 && c.tail == |dest| {
        ok := db.knowsNumber(c.value) && db.hasArgument(dest);
        return;
      }
      var found := db.knowsName(dest);
      if !found {
        var inserted := InsertComponent(destIntf);
        if inserted {
          dest := DestText();
          found := db.knowsName(dest);
        }
      }
      ok := found && db.hasTopic(dest) && db.hasArgument(dest);
    }

    /** The destination text as a value. */
    method DestText() returns (dest: string)
      requires Valid()
      ensures dest == View().dest
    {
      var n := StrLen(destIntf);
      dest := destIntf[..n];
    }

    method CmdText() returns (cmd: string)
      requires Valid()
      ensures cmd == View().cmd
    {
      var n := StrLen(cmdName);
      cmd := cmdName[..n];
    }

    method CheckValidIntf() returns (ok: bool)
      requires Valid()
      modifies this`intfState, destIntf
      ensures Valid()
      ensures View() == CheckIntf(db, old(View())) && (ok <==> View().intf == Success)
    {
      if intfState == Unknown {
        var known := ProcessDestIntf();
        if !known {
          intfState := Failed;
        } else {
          var dest := DestText();
          var cmd := CmdText();
          intfState := if db.hasCommand(dest, cmd) then Success else Failed;
        }
      }
      ok := intfState == Success;
    }

    method CheckValidPayload() returns (ok: bool)
      requires Valid()
      modifies this`intfState, this`payloadState, destIntf
      ensures Valid()
      ensures View() == CheckPayload(db, old(View())) && (ok <==> View().payload == Success)
    {
      if payloadState == Unknown {
        var valid := CheckValidIntf();
        if !valid {
          payloadState := Failed;
        } else {
          var dest := DestText();
          var cmd := CmdText();
          payloadState := if db.hasDetail(dest, cmd) then Success else Failed;
        }
      }
      ok := payloadState == Success;
    }

    /** Stores a text, cut to the size of the buffer. */
    static method Store(buf: array<char>, text: string)
      requires buf.Length == OPTARG_SIZE && NUL !in text
      modifies buf
      ensures Terminated(buf[..]) && Text(buf[..]) == Cut(text)
      ensures old(buf[OPTARG_SIZE - 1]) == NUL ==> buf[OPTARG_SIZE - 1] == NUL
    {
      var len := |text|;
      if len >= buf.Length {
        len := buf.Length - 1;
      }
      CopyIn(buf, 0, text[..len]);
      buf[len] := NUL;
      assert buf[..len] == text[..len] == Cut(text);
      TextIs(buf[..], Cut(text));
    }

    /**
     A destination, with a command after the first dot where that is allowed. Both callers allow
     an instance number, so that a colon in the destination in force is refused.
     */
    method ParseDestFull(text: CString, allowCmd: bool) returns (rc: OptParse)
      requires Valid()
      modifies destIntf, cmdName
      ensures Valid()
      ensures Stepped(View(), rc) == ParseDest(old(View()), text, allowCmd)
    {
      var dest := DestText();
      if ':' in dest {
        return Invalid;
      }
      var sep := IndexOf(text, '.');
      Store(destIntf, text[..sep]);
      if sep < |text| {
        sep := sep + 1;
      }
      var cmd := text[sep..];
      if |cmd| > 0 {
        if allowCmd {
          Store(cmdName, cmd);
        } else {
          return Invalid;
        }
      }
      rc := Accepted;
    }

    /** strncpy of at most 63 characters, which pads with NUL and leaves the last place alone. */
    method ParseCmdOnly(text: CString)
      requires Valid()
      modifies cmdName
      ensures Valid()
      ensures View() == old(View()).(cmd := Cut(text))
    {
      var len := if |text| > cmdName.Length - 1 then cmdName.Length - 1 else |text|;
      CopyIn(cmdName, 0, text[..len]);
      for i := len to cmdName.Length - 1
        invariant forall k :: len <= k < i ==> cmdName[k] == NUL
        invariant forall k :: 0 <= k < len ==> cmdName[k] == text[k]
        invariant cmdName[OPTARG_SIZE - 1] == NUL
      {
        cmdName[i] := NUL;
      }
      assert cmdName[..len] == text[..len] == Cut(text);
      TextIs(cmdName[..], Cut(text));
    }

    method ParseOption(arg: Arg) returns (rc: OptParse)
      requires Valid()
      modifies this, destIntf, cmdName
      ensures Valid()
      ensures Stepped(View(), rc) == Step(db, old(View()), arg)
    {
      rc := Undefined;
      if arg.id.Endian? {
        rc := if arg.text == "EDS" then Accepted else Invalid;
      } else if arg.id.ProtocolName? {
        rc := if ProtocolFromString(arg.text) == NoProtocol then Invalid else Accepted;
      } else if arg.id.PktEdsVer? || arg.id.PktId? {
        rc := ParseDestFull(arg.text, true);
      } else if arg.id.PktApid? {
        rc := ParseDestFull(arg.text, false);
      } else if arg.id.CmdCode? || arg.id.PktFc? {
        ParseCmdOnly(arg.text);
        rc := Accepted;
      } else if IsScalar(arg.id) {
        if db.takesScalar(arg.id, arg.text) {
          values := values + [arg];
          rc := Accepted;
        }
      } else if arg.id.None_? {
        var ok := CheckValidPayload();
        if ok {
          values := values + [arg];
        }
      }
    }

    method GetPackedObject() returns (packet: Option<Buffer>)
      requires Valid()
      modifies this`intfState, this`payloadState, destIntf
      ensures Valid()
      ensures (View(), packet) == Pack(db, old(View()))
    {
      var ok := CheckValidPayload();
      if !ok {
        return None;
      }
      var dest := DestText();
      var cmd := CmdText();
      packet := db.encode(dest, cmd, values);
    }
  }
}
