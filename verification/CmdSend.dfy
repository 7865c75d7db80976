/** What the command-line options look like to every parser. */
module CmdSend {
  import opened Wrappers
  import opened Strto

  const MAX_PACKET: nat := 2048

  datatype Protocol = NoProtocol | Raw | CcsdsPri | CcsdsExt | CfsV1 | CfsV2

  /** The name "raw" is recognised only to silence the error message; it selects nothing. */
  function ProtocolFromString(name: string): Protocol {
    if name == "ccsdspri" then CcsdsPri
    else if name == "ccsdsext" then CcsdsExt
    else if name == "cfsv1" then CfsV1
    else if name == "cfsv2" then CfsV2
    else NoProtocol
  }

  /**
   The result codes, and Overrun, which is not a code: a capacity test has let through more data
   than the payload holds, and from there on the program's behaviour is not defined.
   */
  datatype OptParse = Invalid | Undefined | Accepted | Overrun

  /** The parser goes on to the next option. */
  predicate Continues(rc: OptParse) { rc.Accepted? || rc.Undefined? }

  datatype OptionId =
    | None_ | Help | Verbose | PktApid | PktPb | CmdCode | PktFc | PktEdsVer | Endian | PktSeqFlg
    | PktName | PktSeqCnt | Host | PktId | PktEndian | PktLen | Port | ProtocolName | PktCksum | PktSec
    | PktType | PktSubsys | PktVer | PktSys | Byte | Int8 | Double | Float | Half | Int16
    | Int16b | Int32b | Int64b | Long | Word | Int32 | Uint8 | Uint16 | Uint32 | Uint64
    | Int64 | String | Uint16b | Uint32b | Uint64b

  /** An option as a parser sees it; options without a text never reach a parser. */
  datatype Arg = Arg(id: OptionId, text: CString)

  /** An entry of the collected argument list; help, verbose, host and port entries have no text. */
  datatype Collected = Collected(id: OptionId, text: Option<CString>)

  /** The options that reach the parsers, in order. */
  function Delivered(cs: seq<Collected>): seq<Arg> {
    if cs == [] then []
    else
      var last := cs[|cs| - 1];
      Delivered(cs[..|cs| - 1]) + if last.text.Some? then [Arg(last.id, last.text.value)] else []
  }
}
