# Command utility: a model of the packet encoder and its arbiter

The command utility turns a list of command-line options into one packet for a cFS target, prints
it as a hexdump and sends it. Several parsers look at the same option list. A parser that finds an
option invalid drops out; the first remaining one that packs a nonempty packet supplies the content.
The pass-through parser is always present: it edits bit fields in six big-endian header words,
appends typed values to a payload of at most 2048 bytes, fills in the fields nobody set, and emits
the CCSDS primary header (section 4.1.3 of CCSDS 133.0-B-2), the optional extended header, the
optional cFS command header and the payload. In builds with electronic data sheets (EDS) an EDS
parser comes before it.

This project models that path, from the results of getopt to the printed lines, and proves what
holds over all option lists.

## How the model is built

| module | content |
|---|---|
| `Bits`, `Fields`, `Bytes` | C's bitwise operators defined bit by bit, the masked write of a field, byte orders and the host's memory, XOR |
| `Strto`, `Numerals` | `strtoul`, `strtoull` and `strtoll` with base 0 (section 7.22.1.4 of ISO C11), and what they return for every text, from literal tables of the digits |
| `CmdSend`, `Collect` | options, protocols, the reverse letter table and the collected argument list |
| `PassThru` | what one option does to the encoder's state, and the packet of a state, as functions |
| `PassThruEncoder` | the encoder as an object with stored words and a payload array, each method proved against `PassThru` |
| `PassThruHeaders` | every header option's word, bits and header, by name, and when it is accepted |
| `PassThruRuns` | whole runs: the account of a list of options, told without running it |
| `PassThruPackets` | the receiver's decoder, byte by byte and without masks |
| `PassThruTheorems`, `PassThruPayload`, `PassThruOrder` | what every packet of an accepted run satisfies |
| `Arbiter` | any number of parsers over one option list, as the program's object and as functions |
| `EdsLookup`, `EdsRuns`, `EdsObject`, `CBuffers` | the EDS parser's cached destination lookup, the account of its runs, and its 64-byte text buffers |
| `Hexdump` | the printer with its two line buffers, and a reader of its lines |
| `Program` | the whole program, from the results of getopt to the printed lines, with the parsers as functions and as objects |

Numbers are unbounded; 16-, 32- and 64-bit wrap-around is written out where the program has it. The
host's byte order is a parameter, so that storing a header word swapped, setting swapped constant
bits and copying memory are all modelled. `EncodeOnHost` proves that the packet does not depend on it.

`PassThru.Step` is the step-by-step specification, for every state and option. It is tied in both directions: the object refines
it (`Encoder.ParseOption`, `Encoder.GetPackedObject`), and its runs are equal to an account that
does no stepping (`RunIsAccount`): every header bit is that of the last option covering it, and the
payload is the concatenation of what each option encodes to in the byte order then in force.

The tables and conversions that the specification and the objects share are each pinned by results that
name neither: the protocols by `SelectedHeaders`, the header options by `HeaderOption`, the payload
formats by `FormatByName`, `Ranges`, `TextReadsBack` and `FloatReadsBack`, the reading of numbers by the
digit tables of `Numerals`, the letters and the delivery of options by `LookupMeaning` and `OptionsSeen`,
the EDS parser by `EdsRuns`, and the printed characters by `LineShape`.

## What the code does and its help text or comments do not say

- The help text lists the protocol `raw` and its examples use it, but every option list with it is
  refused (`NeverRaw`).
- The checksum covers only the header bytes, since it is computed before the payload is copied
  (`ChecksumLaw`).
- A header number too large for its field is accepted when the 64-bit shift drops the excess bits;
  `PlainRule` gives the exact condition, `OversizedAccepted` an input: 2^56 is stored as function code 0.
- Payload integers ignore overflow: 2^64 is accepted for a signed 64-bit option as 2^63 - 1, and
  -(2^64 - 1) for an unsigned byte as 1 (`OutOfRangeAccepted`; `NumeralRule` says exactly when).
- The help text gives -127 and so on as the least signed numbers; -128 and so on are accepted
  (`IntegerOption`).
- The sizes of `NNN:text` are narrowed to 32 bits, so that fewer than NNN bytes may be appended
  (`EncodedSize` says exactly when; `OversizedText` is an input that appends five instead of 2^32 + 5),
  and the capacity tests add in 32 bits, so that a size which does not fit may pass: `SizedText` and
  `RunOverruns` say exactly when, `WrappingText` gives inputs. What the program does from there on is
  not defined; the model reports it as `Overrun` and ends the run.
- The length field of a bare six-byte primary header wraps to 65535; in every other packet it is the
  size less seven (`LengthField`).
- A refused option still marks its field as overridden; that never shows in a packet, because the
  refusal ends the run.
- The instance number of an EDS destination is looked for in the destination in force, not in the new
  text, so that a colon does not select an instance but makes the next destination option fail
  (`ColonIsLast`).
- Creating the EDS parser without a known header type frees the object, clears the pointer and then
  writes through it (src/eds_encode.c:729-733), so that the program fails there instead of going on
  without that parser.
- The EDS parser cuts an argument `x=y` at the equals sign in place, and the pass-through parser then
  sees the cut text; it does not look at it (`WordIgnored`).
- A destination option after a non-option argument would be too late for the EDS lookup
  (`StaleVerdict`). The collected list always has the options first, so the verdict is the one on the
  final texts (`VerdictOnFinalText`, `DeliveredInOrder`).

## Model

| member | source | states |
|---|---|---|
| `Fields.FieldLaw` | src/passthru_encode.c:196-234 | for every field of consecutive bits, every number and word: accepted exactly when what the 64-bit shift keeps is at most the field's maximum; the field then reads back as that number and no other bit changes |
| `Fields.PlainRule` | src/passthru_encode.c:218-219 | "accepted if and only if it fits" holds exactly when the number is below 2^(64-shift) or what is left of it does not fit either |
| `Fields.OversizedAccepted` | src/passthru_encode.c:218-219 | 2^56 is accepted for the 7-bit function code and stores 0 |
| `PassThruEncoder.FindShift` | src/passthru_encode.c:187-190 | for any nonzero mask the loop ends at the lowest set bit: that bit is set and none below it |
| `PassThruEncoder.CalcChecksum` | src/passthru_encode.c:302-310 | the loop's result is 0xFF combined by XOR with every byte |
| `PassThruEncoder.NarrowingTest` | src/passthru_encode.c:449-451 | comparing a number with its conversion to an 8-, 16-, 32- or 64-bit type accepts exactly the numbers in the type's range, and the conversion keeps the bit pattern |
| `PassThruEncoder.Encoder.constructor` | src/passthru_encode.c:317-329 | a new encoder is in the initial state: cfsv1, big-endian, zero words, empty payload |
| `PassThruEncoder.Encoder.SetProtocol` | src/passthru_encode.c:121-155 | the included headers after selecting a protocol; an unknown one includes none and is refused |
| `PassThruEncoder.Encoder.ProcessField` | src/passthru_encode.c:167-235 | the in-place write of one field of a stored word on a host of either byte order, and all its refusals, which change nothing |
| `PassThruEncoder.Encoder.CopyData` | src/passthru_encode.c:243-264 | for every 32-bit size: bytes are appended, or refused without a change, or the 32-bit sum wraps and the test lets through more than the payload holds, which is reported as an overrun |
| `PassThruEncoder.Encoder.PadData` | src/passthru_encode.c:272-293 | the same for a run of equal bytes |
| `PassThruEncoder.Encoder.ParseInteger` | src/passthru_encode.c:444-466 | conversion, narrowing test, byte order in memory and copy together append the number's bytes in the order in force, on either host |
| `PassThruEncoder.Encoder.ParseString` | src/passthru_encode.c:734-778 | an NNN:text option copies the text and pads it, both sizes narrowed to 32 bits; a text without a colon, with NNN zero or longer than NNN is refused without a change; a failed pad leaves the copied text; an overrun of either part is reported |
| `PassThruEncoder.Encoder.ParseOption` | src/passthru_encode.c:336-784 | the whole option switch: new state and result code are those of `PassThru.Step`, for every option, text and state; where the program would write outside the payload, both report an overrun |
| `PassThruEncoder.Encoder.SetDefaults` | src/passthru_encode.c:828-848 | the default bits set in stored words give exactly the finished state |
| `PassThruEncoder.Encoder.CopyHeaders` | src/passthru_encode.c:850-866 | copying raw stored words emits the included headers most significant byte first |
| `PassThruEncoder.Encoder.GetPackedObject` | src/passthru_encode.c:803-879 | succeeds exactly when the packet fits; emits exactly the packet of the state and its size and leaves the finished state; a refusal changes neither state nor buffer |
| `PassThruHeaders.HeaderOption` | src/passthru_encode.c:364-443 | for every state, header option and text: accepted exactly when the protocol has the option's header, the whole text is one number without overflow, and what the 64-bit shift keeps of it fits the field; the field, at its literal word and bits, then holds that number and no other bit of any word changes; a refusal changes no word |
| `PassThruRuns.RunIsAccount` | src/passthru_encode.c:336-784 | a run is accepted, that is neither refused nor ended by an overrun, exactly when every option is acceptable after the ones before it (a protocol by its four names, a header option by `FieldAccepts`, a payload option by its text and 2048 bytes), and then its state is the account of the options: last covering write of every header bit, final protocol and byte order, concatenated payload |
| `PassThruRuns.RunOverruns` | src/passthru_encode.c:243-293 | a run ends with a write outside the payload exactly when, after options that are all acceptable, the 32-bit test on a text or on its padding lets a size through that does not fit |
| `PassThruRuns.StepOverruns` | src/passthru_encode.c:243-293 | for every option and state: only a text option writes outside the payload, and exactly when one of the two tests lets its size through |
| `PassThruRuns.HeaderBit` | src/passthru_encode.c:233-233 | bit i of a header word of the account is set exactly when the last option covering it stored a set bit |
| `PassThruRuns.PrefixAccepted` | src/passthru_encode.c:336-784 | every prefix of an accepted run is accepted |
| `PassThruRuns.RunEnds` | src/cmd_send.c:452-462 | once an option is refused or overruns, the remaining options change nothing |
| `PassThruRuns.NeverRaw` | src/cmd_send.c:347-375 | no text selects the headerless protocol, and a text selects headers exactly when it is ccsdspri, ccsdsext, cfsv1 or cfsv2, each with its own headers |
| `PassThruPackets.DecodePacket` | src/passthru_encode.c:850-876 | for every state and all eight combinations of headers, the receiver's decoder recovers every emitted header field and the payload |
| `PassThruTheorems.SelectedHeaders` | src/passthru_encode.c:121-155 | in any accepted run the last protocol option is one of the four names; there is an extended header exactly for ccsdsext and cfsv2, a command header exactly for cfsv1 and cfsv2, and the packet is 6, 10, 8 or 12 bytes longer than its payload for ccsdspri, ccsdsext, cfsv1 and cfsv2 |
| `PassThruTheorems.DefaultHeaders` | src/passthru_encode.c:317-329 | without a protocol option the headers are those of cfsv1, eight bytes |
| `PassThruTheorems.FieldReadsBack` | src/passthru_encode.c:364-443 | after any accepted run the decoder finds in the packet the number given by the last option for a field, for every field of every included header |
| `PassThruTheorems.NumeralReadsBack` | src/passthru_encode.c:364-443 | a decimal, hexadecimal or octal numeral of any number that fits the field comes back from the packet as that number |
| `PassThruTheorems.PacketIdReadsBack` | src/passthru_encode.c:409-411 | the first word is what the last `pktid` gave, plus the default bits it cannot override |
| `PassThruTheorems.WrittenField` | src/passthru_encode.c:233-233 | the field of the word holds what the last writing option kept of its number |
| `PassThruTheorems.DefaultedFields` | src/passthru_encode.c:828-848 | after any accepted run: packet type 1 unless given, sequence flags 3 unless given, secondary header flag 1 with the cFS header unless given, endian bit 1 exactly in final little-endian mode unless given |
| `PassThruTheorems.OwnField` | src/passthru_encode.c:411-426 | no other option writes the endian bit or the checksum byte |
| `PassThruTheorems.NotGiven` | src/passthru_encode.c:364-443 | without `pktendian` (`pktcksum`) the endian bit (the checksum byte) stays zero over any list of options |
| `PassThruTheorems.PrimaryAlways` | src/passthru_encode.c:121-155 | no option list removes the primary header |
| `PassThruTheorems.LengthField` | src/passthru_encode.c:841-844 | without `pktlen`: length field plus 7 is the packet's size exactly when that is at least 7; the one shorter packet is a bare primary header, whose field is 65535 |
| `PassThruTheorems.ChecksumLaw` | src/passthru_encode.c:862-874 | with the cFS header and no `pktcksum`, 0xFF and all emitted header bytes XOR to 0, and the residue of the whole packet is the XOR of its payload |
| `PassThruTheorems.ChecksumIsXor` | src/passthru_encode.c:302-310 | the running checksum is 0xFF XOR the XOR of all bytes |
| `PassThruPayload.NumberRoundTrip` | src/passthru_encode.c:528-733 | every number in range reads back from its bytes in either order, signed or not; the two orders are reverses of each other |
| `PassThruPayload.IntegerOption` | src/passthru_encode.c:444-733 | accepted exactly when the text converts to a number in range and there is room; appends exactly its width and decodes to the number in the order in force, big-endian for the forced options; a refusal changes nothing |
| `PassThruPayload.NumeralOption` | src/passthru_encode.c:528-733 | for a numeral of any number: exactly when it is accepted and which number is stored; that is the numeral's own number exactly when it is in the 64-bit range |
| `PassThruPayload.NumeralRule` | src/passthru_encode.c:444-733 | "accepted, room given, if and only if in the type's range" holds exactly for numbers in the 64-bit range and, for the widths below 8, all others but the negative ones that wrap into the unsigned type |
| `PassThruPayload.FormatByName` | src/passthru_encode.c:349-733 | every integer option has the width, signedness and forced byte order that its long name spells |
| `PassThruPayload.OutOfRangeAccepted` | src/passthru_encode.c:606-733 | two numerals outside the 64-bit range that are accepted as other numbers |
| `PassThruPayload.AppendOnly` | src/passthru_encode.c:444-778 | every option keeps the payload as a prefix and below the bound; an accepted payload option appends exactly its encoding; a refused one nothing, except that a text whose padding does not fit stays; the remaining case, an overrun, is exactly that of a text let through by a wrapped test |
| `PassThruPayload.EncodedSize` | src/passthru_encode.c:767-774 | an accepted number option adds its width; an accepted text option adds NNN bytes exactly when its text and its padding are both below 2^32 |
| `PassThruPayload.SizedText` | src/passthru_encode.c:734-778 | for NNN in any notation, a colon and any text, in any state: a text longer than NNN is refused; otherwise, with both sizes taken modulo 2^32, the option is accepted exactly when they fit, then appending that much text and zeros, and it overruns exactly when the sum of a test reaches 2^32 |
| `PassThruPayload.TextRule` | src/passthru_encode.c:734-778 | "accepted if and only if NNN bytes fit" holds exactly when neither the text nor its padding reaches 2^32, or what is left of their sizes does not fit either |
| `PassThruPayload.WrappingText` | src/passthru_encode.c:272-293 | one payload byte and then 4294967295:a, or -1:a, overruns: the sum of the pad's test is a multiple of 2^32 |
| `PassThruPayload.PayloadReadsBack` | src/passthru_encode.c:803-879 | after any accepted run a receiver finds in the packet's payload, where the options before it end, what each payload option encodes to in the byte order in force when it was given |
| `PassThruPayload.IntegerReadsBack` | src/passthru_encode.c:444-733 | so every integer option's bytes in the packet decode to the number its text was converted to, in the order in force at that option, big-endian for the forced ones |
| `PassThruPayload.NumeralComesBack` | src/passthru_encode.c:444-733 | and a numeral of any number in the 64-bit range comes back from the packet as that number |
| `PassThruPayload.TextReadsBack` | src/passthru_encode.c:734-778 | for every text option of an accepted run: in the packet's payload, where the options before it end, stand its characters one by one in their order, and then zeros, as many of each as their sizes modulo 2^32; below 2^32 these are the whole text and zeros up to NNN bytes |
| `PassThruPayload.TextRefused` | src/passthru_encode.c:738-750 | a text without a colon right behind its number, or with the number 0, is refused without a change |
| `PassThruPayload.FloatOption` | src/passthru_encode.c:468-527 | a floating-point option is accepted exactly when its text converts and there is room; the bytes appended decode, in the order in force, to the number's bit pattern; a refusal changes nothing |
| `PassThruPayload.FloatReadsBack` | src/passthru_encode.c:468-527 | and a receiver of the packet of any accepted run finds that pattern where the options before it end |
| `PassThruPayload.Ranges` | src/passthru_encode.c:444-733 | the least and the greatest number of each integer type |
| `PassThruPayload.NoFormat` | src/passthru_encode.c:349-784 | which options append nothing to the payload, and that all others do |
| `PassThruPayload.WordIgnored` | src/passthru_encode.c:366-368 | the text of an argument that is not an option does not matter to this parser |
| `PassThruPayload.SizedScan` | src/passthru_encode.c:738-740 | a numeral, a colon and any text, colons and digits included, are taken apart as just that |
| `PassThruPayload.OversizedText` | src/passthru_encode.c:771-774 | a text of 5 characters declared as 2^32 + 5 bytes is accepted and appends 5 |
| `PassThruOrder.RunInParts` | src/passthru_encode.c:336-784 | without mode options the header part and the payload part of a run do not see each other |
| `PassThruOrder.OrderIndependence` | src/passthru_encode.c:364-784 | from any state, any permutation of header options with disjoint fields, interleaved in any way with the payload options in order, is accepted alike and gives the same state and packet |
| `PassThruOrder.PackingTwice` | src/passthru_encode.c:823-876 | packing the finished state again changes nothing and gives the same packet and size |
| `Bytes.MemoryOrder` | src/passthru_encode.c:549-556 | converting a number to an order and copying its memory gives the bytes of that order on every host |
| `Bytes.OrStored` | src/passthru_encode.c:829-848 | setting swapped constant bits in a swapped word is setting the plain bits in the plain word, on every host |
| `Bytes.BigOrderTwice` | src/passthru_encode.c:233-233 | converting a header word to its stored order and back is the identity, and the stored word's memory is big-endian |
| `Strto.UnsignedLiteral` | src/passthru_encode.c:192-217 | a numeral of any size in three notations, with any text after it that is not a letter or digit, is converted up to its end: saturating above, negated modulo 2^64 below |
| `Strto.SignedLiteral` | src/passthru_encode.c:449-451 | the same for the signed conversion, clamped to the 64-bit range |
| `Numerals.ScanNumeral` | src/passthru_encode.c:192-217 | blanks, a sign, and a decimal, octal or hexadecimal numeral with "0x" or "0X" and digits in any mix of cases, ahead of any text that does not continue it, are read as the number its digits spell, up to its end |
| `Numerals.UnsignedNumeral` | src/passthru_encode.c:192-217 | the unsigned conversion of every such text: the number, negated modulo 2^64 after a minus sign, or the greatest one with the overflow flag |
| `Numerals.SignedNumeral` | src/passthru_encode.c:449-451 | the signed conversion of every such text, clamped to the 64-bit range |
| `Numerals.NothingConverted` | src/passthru_encode.c:192-217 | every other text, that is one without a digit behind blanks and sign: nothing is converted |
| `Collect.BuildLookup` | src/cmd_send.c:259-264 | the reverse table holds, for every letter, the last option with that letter |
| `Collect.LookupCanonical` | src/cmd_send.c:62-107 | looking up an option's letter gives the one option that stands for its aliases |
| `Collect.LookupFinds` | src/cmd_send.c:259-264 | a letter is found exactly when an option has it |
| `Collect.LookupMeaning` | src/cmd_send.c:62-107 | every letter is looked up as the option that a literal table of letters gives |
| `Collect.CollectOptions` | src/cmd_send.c:248-339 | the argument list is one entry an option and then one an argument; help flag, host and port are those of `HelpAsked`, `LastAddress` and `NoAddress`, and what the parsers see of it is said by `OptionsSeen` and `DeliveredInOrder` |
| `Collect.OptionsSeen` | src/cmd_send.c:297-331 | for any results of getopt the parsers see exactly those with an argument whose letter the table knows and does not keep from them (help, verbose, host, port), all of them, in order, with their texts |
| `Collect.GivenOptionsSeen` | src/cmd_send.c:297-331 | any options other than help, verbose, host and port, given with their letters and texts, reach the parsers as just that list, each as the option its aliases stand for |
| `Collect.HelpAsked` | src/cmd_send.c:307-312 | help is shown exactly when some result of getopt is '?' or a letter no option has |
| `Collect.LastAddress` | src/cmd_send.c:317-324 | the last host (port) given is the one in force, cut to its buffer |
| `Collect.NoAddress` | src/cmd_send.c:317-324 | without one the default stays |
| `Collect.DeliveredInOrder` | src/cmd_send.c:297-338 | what the options deliver comes first, none of it an alias, and then the other arguments, all of them in their order |
| `Collect.NeverPktName` | src/cmd_send.c:62-107 | whatever the options, the parsers never see `pktname`; its letter is looked up as `pktseqcnt` |
| `Arbiter.CommandData.InstantiateParsers` | src/cmd_send.c:383-406 | the parsers up to the first missing entry are created; the counter is the number of good ones |
| `Arbiter.CommandData.DoParseOption` | src/cmd_send.c:452-462 | one parser sees the option if it is good; a refusal ends it; the counter stays exact |
| `Arbiter.CommandData.ForeachParse` | src/cmd_send.c:436-444 | every parser sees the option once |
| `Arbiter.CommandData.ProcessOptions` | src/cmd_send.c:547-554 | the loop that stops when no parser is left reaches the same parser states as giving every option to every parser |
| `Arbiter.CommandData.ForeachEncode` | src/cmd_send.c:498-515 | the buffer up to the content size is exactly the output of the first good parser with a nonempty packet, whatever earlier packs wrote |
| `Arbiter.CommandData.Execute` | src/cmd_send.c:545-562 | the whole run for any table of parsers; nothing is encoded when help was asked for |
| `Arbiter.ParsersIndependent` | src/cmd_send.c:436-462 | each parser's state is that of running it alone |
| `Arbiter.RefusalIsFinal` | src/cmd_send.c:452-462 | after a refusal a parser sees no further option |
| `Arbiter.NoneLeft` | src/cmd_send.c:547-547 | with no good parser left the remaining options change nothing |
| `Arbiter.FirstSupplier` | src/cmd_send.c:498-515 | the result is the lowest parser that supplies a packet, if any does |
| `Arbiter.ContentBound` | src/cmd_send.c:498-515 | the content is at most 2048 bytes, and empty exactly when no parser supplies a packet |
| `EdsObject.MoveRight` | src/eds_encode.c:291-291 | the overlapping move upwards places every character and leaves the rest |
| `EdsObject.FindLastSlash` | src/eds_encode.c:287-287 | the last slash of the text, or none |
| `EdsObject.InsertComponent` | src/eds_encode.c:287-293 | for every terminated buffer: inserts exactly when there is a slash and room; the text is then prefix, "/Application", and the original text from the last slash, still terminated inside 64 bytes |
| `EdsObject.Object.ProcessDestIntf` | src/eds_encode.c:242-350 | the verdict on the destination and the text left in the buffer |
| `EdsObject.Object.CheckValidIntf` | src/eds_encode.c:472-491 | the cached interface lookup on the buffers |
| `EdsObject.Object.CheckValidPayload` | src/eds_encode.c:498-531 | the cached payload lookup on the buffers |
| `EdsObject.Object.ParseDestFull` | src/eds_encode.c:596-674 | destination and command texts after a destination option, cut to their buffers; refused without a change when the destination in force has a colon |
| `EdsObject.Object.ParseCmdOnly` | src/eds_encode.c:701-705 | the command text after the bounded copy, still terminated |
| `EdsObject.Object.ParseOption` | src/eds_encode.c:794-911 | new state and result code for every option |
| `EdsObject.Object.GetPackedObject` | src/eds_encode.c:930-955 | packs only on a successful verdict, looking it up if that has not happened |
| `EdsLookup.VerdictsAreFinal` | src/eds_encode.c:472-531 | over any run each verdict, once reached, never changes, and payload success implies interface success |
| `EdsLookup.NamedByOptions` | src/eds_encode.c:596-705 | the texts after an accepted list of options are those of the last option naming a destination, and of the last naming a command |
| `EdsLookup.ColonIsLast` | src/eds_encode.c:603-626 | a destination option after a destination with a colon ends the EDS parser, for every list of options |
| `EdsLookup.VerdictOnFinalText` | src/eds_encode.c:899-904 | for options followed by arguments, the cached verdict is the one on the destination and command that all the options together name, and nothing is packed without it |
| `EdsLookup.StaleVerdict` | src/eds_encode.c:899-904 | for any two plain destinations, an argument between them caches the verdict on the first, although the second is known |
| `EdsRuns.RunIsAccount` | src/eds_encode.c:794-911 | a list of options is accepted by the EDS parser exactly when each is acceptable (endian "EDS", one of the four protocols, no colon in the destination in force, no command behind an apid), and its state is then the account: the last destination and command named, and the header values the database takes, in order |
| `EdsRuns.PackedInTheEnd` | src/eds_encode.c:899-955 | for acceptable options and any arguments after them, what is packed is what the database encodes for the destination and command that the options name, with those header values and all the arguments in order; nothing without a successful verdict |
| `EdsRuns.NumberVerdict` | src/eds_encode.c:253-347 | the verdict on a numeric destination is success exactly when its number is a known topic and the argument type, the command and its details are known |
| `EdsRuns.NameVerdict` | src/eds_encode.c:274-347 | the verdict on a known name needs exactly its topic and those answers, and the name stays |
| `EdsRuns.ComponentVerdict` | src/eds_encode.c:287-347 | an unknown name with a slash and room becomes front/Application/back, split at its last slash, and the verdict is that on the new name |
| `EdsRuns.UnknownVerdict` | src/eds_encode.c:287-312 | an unknown name without a slash or without room stays and fails |
| `Hexdump.PrintHexdump` | src/console_utils.c:67-94 | the nested loops over two reused line buffers print exactly one line per sixteen bytes with no stale text, and stay within both buffers |
| `Hexdump.LineReadsBack` | src/console_utils.c:92-92 | a printed line gives back its offset and its bytes |
| `Hexdump.LineShape` | src/console_utils.c:92-92 | every column of a printed line: "0x", at least three lower-case digits and a colon, fifty columns with " hh" for each byte and then blanks, twenty with each printable byte's character or a dot and then blanks, and the end of the line |
| `Hexdump.DumpShape` | src/console_utils.c:67-94 | line k of the dump of any buffer has that shape for bytes 16k to 16k + 15, or up to the end |
| `Hexdump.HexdumpInverts` | src/console_utils.c:67-94 | reading the lines of any buffer returns the buffer; line k carries offset 16k (modulo 2^32); there are as many lines as sixteens, rounded up |
| `Program.EncodeOnHost` | src/passthru_encode.c:317-879 | over every run the object emits the same packet on little- and big-endian hosts, that of the specification, and on both it writes outside its payload exactly when `Overruns` says so |
| `Program.PacketIsOfAccount` | src/passthru_encode.c:336-879 | a packet is produced exactly when every option is acceptable and it fits, and it is that of the account; a run with an overrun, of which the program promises nothing, counts as producing none |
| `Program.ContentIsSent` | src/cmd_send.c:114-119 | with the real parser table, unless an option overruns, the content is the EDS packet if there is a nonempty one that fits, else the pass-through packet |
| `Program.EndianChoosesParser` | src/passthru_encode.c:382-401 | any `endian` option leaves at most one of the two parsers |
| `Program.AliasesAgree` | src/cmd_send.c:62-107 | for both parsers, every state and text, an alias and the option its letter is looked up as do the same |
| `Program.ParseBoth` | src/cmd_send.c:547-554 | with both parsers as objects changed in place, the loop that stops when both have refused leaves each as its own run over all the options would, or reports the overrun that its run ends with |
| `Program.RunBoth` | src/cmd_send.c:545-562 | both objects created, run and packed in turn, on either host: an overrun is reported exactly when an option overruns, and otherwise the content is the EDS packet if there is a nonempty one that fits, else the pass-through packet |
| `Program.CommandUtilityOnHost` | src/cmd_send.c:522-566 | the same with the parsers as objects on a host of either byte order, for all options; it also reports exactly whether an option overruns |
| `Program.CommandUtility` | src/cmd_send.c:522-566 | from the results of getopt to the printed lines: the packet, unless an option overruns, is what the rules above say, and the lines read back as it |

## Left out

- Sockets, address lookup, the telemetry receiver and both decoders: input and output or thin wrappers.
- getopt itself, help and usage output, verbosity, error texts, freeing objects and allocation failures: the model starts from getopt's results.
- strtod and strtof: what they return for a text is a parameter, as the bit pattern of the number; the bytes made of it are modelled.
- The EDS libraries, `EDS_ProcessCmdCode`, `EDS_LookupPayloadDetail` and `EDS_ProcessParameterArgument`: their answers are the functions of the record `EdsLookup.Database`; creating the EDS parser is taken to succeed.
- EdsObject.Object.ParseDestFull: models only the refusal in the branch for instance numbers; the temporary text built there, from a length between two unrelated strings, is not modelled.
- PassThru.Step: what the program does after it has written outside its payload is not modelled; such an option ends the run with the result `Overrun`, which the program does not have.
- Program.ContentIsSent: says nothing of the content when an option overruns, and neither do `RunBoth`, `CommandUtility` and `CommandUtilityOnHost`.
- Fields.FieldLaw: a left shift of a signed 64-bit number past its range is modelled as wrapping, as compilers do; ISO C leaves it undefined.
- Program.CommandUtility: runs the parsers as the functions their objects are proved against, under the arbiter for any number of parsers; `CommandUtilityOnHost` runs the objects, in a loop written out for the two parsers of the program.
- The encoder's flags are grouped in two records and its six header words in one array; the arbiter's object keeps only what the parsers and the packet need.
- `PayloadError` is kept by the encoder but, as in the program, nothing reads it.
