/**
 The hexdump of the packet: sixteen bytes a line, built in two line buffers that every line
 overwrites from the front, and a reader that recovers the bytes from the printed lines.
 */
module Hexdump {
  import opened Bits
  import opened Bytes
  import opened Strto
  import opened CBuffers

  // ---- what a line looks like ----

  function HexColumns(bs: Buffer): (s: string)
    ensures |s| == 3 * |bs|
  {
    if bs == [] then ""
    else
      var b := bs[|bs| - 1];
      HexColumns(bs[..|bs| - 1]) + [' ', DigitChar(b / 16), DigitChar(b % 16)]
  }

  /** Printable characters of the C locale; a dot for the others. */
  function Shown(b: byte): char { if 0x20 <= b <= 0x7E then b as char else '.' }

  function CharColumns(bs: Buffer): (s: string)
    ensures |s| == |bs|
  {
    seq(|bs|, i requires 0 <= i < |bs| => Shown(bs[i]))
  }

  function Spaces(n: nat): (s: string)
    ensures |s| == n && forall i :: 0 <= i < n ==> s[i] == ' '
  {
    seq(n, _ => ' ')
  }

  /** Left-justified in a column of a given width. */
  function Padded(s: string, width: nat): string {
    s + Spaces(if |s| < width then width - |s| else 0)
  }

  /** At least three hexadecimal digits. */
  function OffsetText(n: nat): string {
    var d := Digits(n, 16);
    if |d| == 1 then "0" + ("0" + d) else if |d| == 2 then "0" + d else d
  }

  function LineText(offset: nat, chunk: Buffer): string {
    "0x" + OffsetText(offset % U32) + ":" + Padded(HexColumns(chunk), 50) + Padded(CharColumns(chunk), 20) + "\n"
  }

  function LineCount(n: nat): nat { (n + 15) / 16 }

  function Chunk(p: Buffer, k: nat): (bs: Buffer)
    requires k < LineCount(|p|)
    ensures 0 < |bs| <= 16
  {
    p[16 * k..if 16 * k + 16 <= |p| then 16 * k + 16 else |p|]
  }

  function Dump(p: Buffer): (lines: seq<string>)
    ensures |lines| == LineCount(|p|)
    ensures forall k :: 0 <= k < |lines| ==> lines[k] == LineText(16 * k, Chunk(p, k))
  {
    seq(LineCount(|p|), k requires 0 <= k < LineCount(|p|) => LineText(16 * k, Chunk(p, k)))
  }

  // ---- printing ----

  /** snprintf of " %02x" at the given place. */
  method PutHex(line: array<char>, at: nat, b: byte)
    requires at + 4 <= line.Length
    modifies line
    ensures line[..at + 3] == old(line[..at]) + [' ', DigitChar(b / 16), DigitChar(b % 16)] && line[at + 3] == NUL
  {
    line[at], line[at + 1], line[at + 2], line[at + 3] := ' ', DigitChar(b / 16), DigitChar(b % 16), NUL;
  }

  /** snprintf of "%c" at the given place. */
  method PutChar(line: array<char>, at: nat, c: char)
    requires at + 2 <= line.Length
    modifies line
    ensures line[..at + 1] == old(line[..at]) + [c] && line[at + 1] == NUL
  {
    line[at], line[at + 1] := c, NUL;
  }

  /** printf of a line from the two line buffers, of which only the texts before the NUL count. */
  method PrintLine(hexLine: array<char>, charLine: array<char>, offset: nat, ghost chunk: Buffer) returns (line: string)
    requires chunk != [] && Shows(hexLine[..], charLine[..], chunk) && Ends(hexLine[..], charLine[..], chunk)
    ensures line == LineText(offset, chunk)
  {
    ColumnsHaveNoNul(chunk);
    TextIs(hexLine[..], HexColumns(chunk));
    TextIs(charLine[..], CharColumns(chunk));
    var hexLen := StrLen(hexLine);
    var charLen := StrLen(charLine);
    line := "0x" + OffsetText(offset % U32) + ":"
            + Padded(hexLine[..hexLen], 50) + Padded(charLine[..charLen], 20) + "\n";
  }

  /** The line buffers begin with the columns of some bytes. */
  ghost predicate Shows(hexLine: seq<char>, charLine: seq<char>, chunk: Buffer) {
    && 3 * |chunk| < |hexLine| && |chunk| < |charLine|
    && hexLine[..3 * |chunk|] == HexColumns(chunk) && charLine[..|chunk|] == CharColumns(chunk)
  }

  /** Behind those columns, if there are any, both buffers have a NUL. */
  ghost predicate Ends(hexLine: seq<char>, charLine: seq<char>, chunk: Buffer) {
    chunk != [] ==>
      && 3 * |chunk| < |hexLine| && |chunk| < |charLine|
      && hexLine[3 * |chunk|] == NUL && charLine[|chunk|] == NUL
  }

  /** Puts one byte into its place in both line buffers. */
  method PutByte(hexLine: array<char>, charLine: array<char>, j: nat, b: byte, ghost done: Buffer)
    requires hexLine.Length == 64 && charLine.Length == 20 && hexLine != charLine && j < 16 && |done| == j
    requires Shows(hexLine[..], charLine[..], done)
    modifies hexLine, charLine
    ensures Shows(hexLine[..], charLine[..], done + [b]) && Ends(hexLine[..], charLine[..], done + [b])
  {
    assert hexLine[..][..3 * j] == hexLine[..3 * j] && charLine[..][..j] == charLine[..j];
    PutHex(hexLine, 3 * j, b);
    PutChar(charLine, j, Shown(b));
    assert (done + [b])[..j] == done;
    assert CharColumns(done + [b]) == CharColumns(done) + [Shown(b)];
    assert hexLine[..][..3 * j + 3] == hexLine[..3 * j + 3] && charLine[..][..j + 1] == charLine[..j + 1];
  }

  /** Puts the byte at index i behind those from start on. */
  method PutNext(p: Buffer, start: nat, i: nat, hexLine: array<char>, charLine: array<char>)
    requires start <= i < |p| && i - start < 16
    requires hexLine.Length == 64 && charLine.Length == 20 && hexLine != charLine
    requires Shows(hexLine[..], charLine[..], p[start..i])
    modifies hexLine, charLine
    ensures Shows(hexLine[..], charLine[..], p[start..i + 1]) && Ends(hexLine[..], charLine[..], p[start..i + 1])
  {
    PutByte(hexLine, charLine, i - start, p[i], p[start..i]);
    assert p[start..i + 1] == p[start..i] + [p[i]];
  }

  lemma NothingShown(hexLine: seq<char>, charLine: seq<char>)
    requires hexLine != [] && charLine != []
    ensures Shows(hexLine, charLine, []) && Ends(hexLine, charLine, [])
  {
  }

  /** The inner loop: overwrites both line buffers with the columns of up to sixteen bytes. */
  method FillLine(p: Buffer, start: nat, hexLine: array<char>, charLine: array<char>) returns (i: nat, j: nat)
    requires start < |p| && hexLine.Length == 64 && charLine.Length == 20 && hexLine != charLine
    modifies hexLine, charLine
    ensures i == start + j <= |p| && (j == 16 || (0 < j < 16 && i == |p|))
    ensures Shows(hexLine[..], charLine[..], p[start..i]) && Ends(hexLine[..], charLine[..], p[start..i])
  {
    i, j := start, 0;
    NothingShown(hexLine[..], charLine[..]);
    assert p[start..i] == [];
    while j < 16 && i < |p|
      invariant 0 <= j <= 16 && i == start + j <= |p|
      invariant Shows(hexLine[..], charLine[..], p[start..i]) && Ends(hexLine[..], charLine[..], p[start..i])
      decreases |p| - i
    {
      PutNext(p, start, i, hexLine, charLine);
      i := i + 1;
      j := j + 1;
    }
  }

  /** One turn of the outer loop. The line buffers keep the rest of a longer line behind the NUL. */
  method NextLine(p: Buffer, start: nat, hexLine: array<char>, charLine: array<char>) returns (line: string, i: nat)
    requires start < |p| && hexLine.Length == 64 && charLine.Length == 20 && hexLine != charLine
    modifies hexLine, charLine
    ensures i == if start + 16 <= |p| then start + 16 else |p|
    ensures line == LineText(start, p[start..i])
  {
    var j: nat;
    i, j := FillLine(p, start, hexLine, charLine);
    line := PrintLine(hexLine, charLine, i - j, p[start..i]);
  }

  /** Prints the lines of a buffer. */
  method PrintHexdump(p: Buffer) returns (lines: seq<string>)
    ensures lines == Dump(p)
  {
    var hexLine := new char[64](_ => NUL);
    var charLine := new char[20](_ => NUL);
    lines := [];
    var i := 0;
    DumpEnds(p);
    while i < |p|
      invariant i <= |p| && (i % 16 == 0 || i == |p|)
      invariant lines == DumpTo(p, i)
      decreases |p| - i
    {
      lines, i := PrintNext(p, i, hexLine, charLine, lines);
    }
  }

  /** Prints one more line behind those already printed. */
  method PrintNext(p: Buffer, start: nat, hexLine: array<char>, charLine: array<char>, printed: seq<string>)
    returns (lines: seq<string>, i: nat)
    requires start < |p| && start % 16 == 0 && hexLine.Length == 64 && charLine.Length == 20 && hexLine != charLine
    requires printed == DumpTo(p, start)
    modifies hexLine, charLine
    ensures i == (if start + 16 <= |p| then start + 16 else |p|) && lines == DumpTo(p, i)
  {
    var line: string;
    line, i := NextLine(p, start, hexLine, charLine);
    OneMoreLine(p, start, i, p[start..i]);
    lines := printed + [line];
  }

  /** The lines printed when the bytes before i are done. */
  ghost function DumpTo(p: Buffer, i: nat): seq<string>
    requires i <= |p|
  {
    Dump(p)[..LineCount(i)]
  }

  lemma DumpEnds(p: Buffer)
    ensures DumpTo(p, 0) == [] && DumpTo(p, |p|) == Dump(p)
  {
  }

  lemma OneMoreLine(p: Buffer, start: nat, i: nat, chunk: Buffer)
    requires start % 16 == 0 && start < i <= |p| && (i == start + 16 || (i == |p| && i < start + 16))
    requires chunk == p[start..i]
    ensures DumpTo(p, i) == DumpTo(p, start) + [LineText(start, chunk)]
  {
    LineNumbers(start, i);
    var k := LineCount(start);
    assert Chunk(p, k) == chunk;
    TakeOneMore(Dump(p), k);
  }

  lemma TakeOneMore(lines: seq<string>, k: nat)
    requires k < |lines|
    ensures lines[..k + 1] == lines[..k] + [lines[k]]
  {
  }

  lemma LineNumbers(start: nat, i: nat)
    requires start % 16 == 0 && start < i <= start + 16
    ensures start == 16 * LineCount(start) && LineCount(i) == LineCount(start) + 1
  {
  }

  lemma {:induction false} ColumnsHaveNoNul(bs: Buffer)
    ensures NUL !in HexColumns(bs) && NUL !in CharColumns(bs)
  {
    if bs != [] {
      var n := |bs| - 1;
      ColumnsHaveNoNul(bs[..n]);
      assert DigitValue(NUL) == 36;
    }
  }

  // ---- reading the lines back ----

  predicate IsHex(c: char) { DigitValue(c) < 16 }

  /** The bytes of " hh" groups from an index on. */
  function ReadColumns(s: string, at: nat): Buffer
    requires at <= |s|
    decreases |s| - at
  {
    if at + 2 < |s| && s[at] == ' ' && IsHex(s[at + 1]) && IsHex(s[at + 2])
    then [16 * DigitValue(s[at + 1]) + DigitValue(s[at + 2])] + ReadColumns(s, at + 3)
    else []
  }

  /** The bytes of a line, which start after its colon. */
  function ReadLine(line: string): Buffer {
    var n := IndexOf(line, ':');
    if n < |line| then ReadColumns(line, n + 1) else []
  }

  /** The offset of a line, between "0x" and the colon. */
  function ReadOffset(line: string): nat {
    var n := IndexOf(line, ':');
    if n < 2 then 0 else Value(line[2..n], 16)
  }

  function Joined(chunks: seq<Buffer>): Buffer {
    if chunks == [] then [] else Joined(chunks[..|chunks| - 1]) + chunks[|chunks| - 1]
  }

  function LineChunks(lines: seq<string>): (chunks: seq<Buffer>)
    ensures |chunks| == |lines| && forall k :: 0 <= k < |lines| ==> chunks[k] == ReadLine(lines[k])
  {
    seq(|lines|, k requires 0 <= k < |lines| => ReadLine(lines[k]))
  }

  function ReadLines(lines: seq<string>): Buffer { Joined(LineChunks(lines)) }

  /** The columns of a chunk followed by two spaces read back as the chunk. */
  lemma {:induction false} ColumnsReadBack(s: string, at: nat, bs: Buffer, m: nat)
    requires m <= |bs| && ColumnsAt(s, at, bs)
    ensures ReadColumns(s, at + 3 * m) == bs[m..]
    decreases |bs| - m
  {
    if m < |bs| {
      ColumnsReadBack(s, at, bs, m + 1);
      GroupAt(s, at, bs, m);
      assert bs[m..] == [bs[m]] + bs[m + 1..];
    }
  }

  predicate ColumnsAt(s: string, at: nat, bs: Buffer) {
    && at + 3 * |bs| + 1 < |s|
    && s[at..at + 3 * |bs|] == HexColumns(bs)
    && s[at + 3 * |bs|] == ' ' && s[at + 3 * |bs| + 1] == ' '
  }

  lemma GroupAt(s: string, at: nat, bs: Buffer, m: nat)
    requires m < |bs| && ColumnsAt(s, at, bs)
    ensures var c := at + 3 * m;
            && c + 2 < |s| && s[c] == ' ' && IsHex(s[c + 1]) && IsHex(s[c + 2])
            && 16 * DigitValue(s[c + 1]) + DigitValue(s[c + 2]) == bs[m]
  {
    ColumnAt(bs, m);
    var t := s[at..at + 3 * |bs|];
    assert t[3 * m] == s[at + 3 * m] && t[3 * m + 1] == s[at + 3 * m + 1] && t[3 * m + 2] == s[at + 3 * m + 2];
  }

  lemma {:induction false} ColumnAt(bs: Buffer, m: nat)
    requires m < |bs|
    ensures var s := HexColumns(bs);
            s[3 * m] == ' ' && s[3 * m + 1] == DigitChar(bs[m] / 16) && s[3 * m + 2] == DigitChar(bs[m] % 16)
    decreases |bs|
  {
    if m < |bs| - 1 { ColumnAt(bs[..|bs| - 1], m); }
  }

  lemma OffsetReads(n: nat)
    ensures Value(OffsetText(n), 16) == n && ':' !in OffsetText(n)
  {
    var d := Digits(n, 16);
    DigitsLaw(n, 16);
    LeadingZero(d, 16);
    LeadingZero("0" + d, 16);
    assert !IsHex(':');
  }

  /** One line gives back its offset and its bytes. */
  lemma LineReadsBack(offset: nat, bs: Buffer)
    requires 0 < |bs| <= 16
    ensures ReadLine(LineText(offset, bs)) == bs
    ensures ReadOffset(LineText(offset, bs)) == offset % U32
  {
    var o, columns := OffsetText(offset % U32), HexColumns(bs);
    var rest := Spaces(50 - |columns|) + (Padded(CharColumns(bs), 20) + "\n");
    OffsetReads(offset % U32);
    assert LineText(offset, bs) == "0x" + o + (":" + (columns + rest));
    LineOf(o, bs, rest);
  }

  lemma LineOf(o: string, bs: Buffer, rest: string)
    requires ':' !in o && |rest| >= 2 && rest[0] == ' ' && rest[1] == ' '
    ensures var line := "0x" + o + (":" + (HexColumns(bs) + rest));
            && ReadLine(line) == bs
            && ReadOffset(line) == Value(o, 16)
  {
    var back := HexColumns(bs) + rest;
    var front := "0x" + o;
    var line := front + (":" + back);
    ColonFirst(front, back);
    BehindColon(front, bs, rest);
    assert line[2..|front|] == o;
    ColumnsReadBack(line, |front| + 1, bs, 0);
    assert bs[0..] == bs;
  }

  lemma BehindColon(front: string, bs: Buffer, rest: string)
    requires |rest| >= 2 && rest[0] == ' ' && rest[1] == ' '
    ensures ColumnsAt(front + (":" + (HexColumns(bs) + rest)), |front| + 1, bs)
  {
    var columns := HexColumns(bs);
    var line := front + (":" + (columns + rest));
    var at := |front| + 1;
    assert line[at..] == columns + rest;
    assert line[at..at + |columns|] == line[at..][..|columns|] == columns;
    assert line[at + |columns|] == line[at..][|columns|] == rest[0];
    assert line[at + |columns| + 1] == line[at..][|columns| + 1] == rest[1];
  }

  lemma {:induction false} ColonFirst(front: string, back: string)
    requires ':' !in front
    ensures IndexOf(front + (":" + back), ':') == |front|
  {
    var s := front + (":" + back);
    if front != "" {
      ColonFirst(front[1..], back);
      assert s[1..] == front[1..] + (":" + back);
    }
  }

  lemma DumpedLine(p: Buffer, k: nat)
    requires k < LineCount(|p|)
    ensures ReadLine(Dump(p)[k]) == Chunk(p, k)
    ensures ReadOffset(Dump(p)[k]) == 16 * k % U32
  {
    LineReadsBack(16 * k, Chunk(p, k));
  }

  /** The chunks of a buffer. */
  predicate AreChunks(p: Buffer, chunks: seq<Buffer>) {
    |chunks| == LineCount(|p|) && forall k :: 0 <= k < |chunks| ==> chunks[k] == Chunk(p, k)
  }

  lemma {:induction false} ChunksJoin(p: Buffer, chunks: seq<Buffer>, n: nat)
    requires n <= |chunks| && AreChunks(p, chunks)
    ensures Joined(chunks[..n]) == p[..Done(p, n)]
  {
    if n > 0 {
      ChunksJoin(p, chunks, n - 1);
      assert chunks[..n][..n - 1] == chunks[..n - 1];
      ChunkJoins(p, n);
    }
  }

  /** The number of bytes on the first n lines. */
  function Done(p: Buffer, n: nat): (d: nat)
    ensures d <= |p|
  {
    if 16 * n <= |p| then 16 * n else |p|
  }

  lemma ChunkJoins(p: Buffer, n: nat)
    requires 0 < n <= LineCount(|p|)
    ensures p[..Done(p, n)] == p[..Done(p, n - 1)] + Chunk(p, n - 1)
  {
    assert Done(p, n - 1) == 16 * (n - 1);
  }

  /** Reading the hex columns of all the lines gives the buffer back; line k carries offset 16k. */
  lemma HexdumpInverts(p: Buffer)
    ensures ReadLines(Dump(p)) == p
    ensures forall k :: 0 <= k < LineCount(|p|) ==> ReadOffset(Dump(p)[k]) == 16 * k % U32
    ensures |p| <= 16 * |Dump(p)| < |p| + 16
  {
    DumpedChunks(p);
    AllChunksJoin(p, LineChunks(Dump(p)));
    OffsetsReadBack(p);
  }

  lemma AllChunksJoin(p: Buffer, chunks: seq<Buffer>)
    requires AreChunks(p, chunks)
    ensures Joined(chunks) == p && |p| <= 16 * |chunks| < |p| + 16
  {
    var n := |chunks|;
    LineBounds(|p|);
    ChunksJoin(p, chunks, n);
    assert Done(p, n) == |p|;
    TakeAll(chunks);
    TakeAll(p);
  }

  lemma TakeAll<T>(s: seq<T>)
    ensures s[..|s|] == s
  {
  }

  lemma LineBounds(n: nat)
    ensures n <= 16 * LineCount(n) < n + 16
  {
  }

  lemma DumpedChunks(p: Buffer)
    ensures AreChunks(p, LineChunks(Dump(p)))
  {
    forall k | 0 <= k < |Dump(p)| ensures LineChunks(Dump(p))[k] == Chunk(p, k) {
      DumpedLine(p, k);
    }
  }

  lemma OffsetsReadBack(p: Buffer)
    ensures forall k :: 0 <= k < LineCount(|p|) ==> ReadOffset(Dump(p)[k]) == 16 * k % U32
  {
    forall k | 0 <= k < LineCount(|p|) ensures ReadOffset(Dump(p)[k]) == 16 * k % U32 {
      DumpedLine(p, k);
    }
  }

  // ---- every column of a line ----

  /** The code of a lower-case hexadecimal digit. */
  function HexCode(d: nat): int { if d < 10 then '0' as int + d else 'a' as int + d - 10 }

  lemma DigitCode(d: nat)
    requires d < 16
    ensures DigitChar(d) as int == HexCode(d)
  {
  }

  predicate IsLowerHex(c: char) { '0' <= c <= '9' || 'a' <= c <= 'f' }

  /** The hexadecimal columns from index at on: fifty characters, three for each byte and then blanks. */
  predicate HexColumnsAt(line: string, at: nat, bs: Buffer) {
    3 * |bs| <= 50 && at + 50 <= |line| && GroupsAt(line, at, bs) && Blank(line[at + 3 * |bs|..at + 50])
  }

  predicate GroupsAt(line: string, at: nat, bs: Buffer)
    decreases |bs|
  {
    bs == [] || (HexGroup(line, at, bs[0]) && GroupsAt(line, at + 3, bs[1..]))
  }

  predicate Blank(s: string) { forall i :: 0 <= i < |s| ==> s[i] == ' ' }

  predicate HexGroup(line: string, c: nat, b: byte) {
    c + 2 < |line| && line[c] == ' ' && line[c + 1] as int == HexCode(b / 16) && line[c + 2] as int == HexCode(b % 16)
  }

  /** The characters from index at on: twenty, one for each byte, a dot where it is not printable, and then blanks. */
  predicate CharColumnsAt(line: string, at: nat, bs: Buffer) {
    && |bs| <= 20 && at + 20 <= |line|
    && (forall c :: at <= c < at + |bs| ==> line[c] == if 32 <= bs[c - at] <= 126 then bs[c - at] as char else '.')
    && Blank(line[at + |bs|..at + 20])
  }

  /** The offset's digits: lower case, at least three, and no more than needed beyond that. */
  predicate OffsetDigits(digits: string) {
    && |digits| >= 3 && (|digits| > 3 ==> digits[0] != '0')
    && forall i :: 0 <= i < |digits| ==> IsLowerHex(digits[i])
  }

  lemma {:induction false} DigitsAreLower(n: nat)
    ensures forall i :: 0 <= i < |Digits(n, 16)| ==> IsLowerHex(Digits(n, 16)[i])
  {
    if n >= 16 { DigitsAreLower(n / 16); }
    DigitCode(n % 16);
  }

  lemma OffsetShape(n: nat)
    ensures OffsetDigits(OffsetText(n))
  {
    DigitsAreLower(n);
    DigitsLaw(n, 16);
  }

  /**
   A printed line: "0x", the offset's digits, a colon, the hexadecimal columns, the characters, and
   the end of the line.
   */
  lemma LineShape(offset: nat, bs: Buffer)
    requires 0 < |bs| <= 16
    ensures var line := LineText(offset, bs);
            var n := IndexOf(line, ':');
            && 2 <= n && |line| == n + 72 && line[..2] == "0x" && OffsetDigits(line[2..n])
            && HexColumnsAt(line, n + 1, bs) && CharColumnsAt(line, n + 51, bs) && line[n + 71] == '\n'
  {
    var o := OffsetText(offset % U32);
    OffsetReads(offset % U32);
    OffsetShape(offset % U32);
    var text := HexColumns(bs);
    var hex, chars := Padded(text, 50), Padded(CharColumns(bs), 20);
    var line := LineText(offset, bs);
    Regrouped("0x" + o, hex, chars);
    ShapeOf(line, o, hex, chars);
    ColumnsShape(line, 2 + |o|, bs, text, 3 * |bs|, hex, chars);
  }

  lemma Regrouped(front: string, hex: string, chars: string)
    ensures front + ":" + hex + chars + "\n" == front + (":" + (hex + chars + "\n"))
  {
  }

  lemma ShapeOf(line: string, o: string, hex: string, chars: string)
    requires ':' !in o && |hex| == 50 && |chars| == 20 && line == "0x" + o + (":" + (hex + chars + "\n"))
    ensures var n := 2 + |o|;
            && IndexOf(line, ':') == n && |line| == n + 72 && line[..2] == "0x" && line[2..n] == o
            && line[n + 1..n + 51] == hex && line[n + 51..n + 71] == chars && line[n + 71] == '\n'
  {
    var front := "0x" + o;
    ColonFirst(front, hex + chars + "\n");
    assert front[..2] == "0x" && front[2..] == o;
    ColumnsOf(line, front, hex, chars);
  }

  lemma ColumnsShape(line: string, n: nat, bs: Buffer, text: string, m: nat, hex: string, chars: string)
    requires |bs| <= 16 && text == HexColumns(bs) && m == 3 * |bs|
    requires hex == Padded(text, 50) && chars == Padded(CharColumns(bs), 20)
    requires |line| == n + 72 && line[n + 1..n + 51] == hex && line[n + 51..n + 71] == chars
    ensures HexColumnsAt(line, n + 1, bs) && CharColumnsAt(line, n + 51, bs)
  {
    HexPart(line, n + 1, bs, text, m, hex);
    CharPart(line, n + 51, bs, chars);
  }

  lemma ColumnsOf(line: string, front: string, hex: string, chars: string)
    requires line == front + (":" + (hex + chars + "\n")) && |hex| == 50 && |chars| == 20
    ensures var n := |front|;
            && |line| == n + 72 && line[n + 1..n + 51] == hex && line[n + 51..n + 71] == chars && line[n + 71] == '\n'
  {
  }

  lemma SliceChar(line: string, at: nat, part: string, k: nat)
    requires at + |part| <= |line| && line[at..at + |part|] == part && k < |part|
    ensures line[at + k] == part[k]
  {
    assert line[at + k] == line[at..at + |part|][k];
  }

  lemma HexPart(line: string, at: nat, bs: Buffer, text: string, n: nat, hex: string)
    requires |bs| <= 16 && text == HexColumns(bs) && n == 3 * |bs| && hex == Padded(text, 50)
    requires at + 50 <= |line| && line[at..at + 50] == hex
    ensures HexColumnsAt(line, at, bs)
  {
    AllGroups(line, at, bs, hex);
    HexBlank(line, at, text, n, hex);
  }

  lemma AllGroups(line: string, at: nat, bs: Buffer, hex: string)
    requires |bs| <= 16 && hex == Padded(HexColumns(bs), 50) && at + 50 <= |line| && line[at..at + 50] == hex
    ensures GroupsAt(line, at, bs)
  {
    HexGroups(line, at, bs, hex, 0);
    assert bs[0..] == bs;
  }

  lemma HexBlank(line: string, at: nat, text: string, n: nat, hex: string)
    requires |text| == n <= 50 && hex == Padded(text, 50) && at + 50 <= |line| && line[at..at + 50] == hex
    ensures Blank(line[at + n..at + 50])
  {
    PadsOut(text, n, 50);
    BlankPart(line, at, n, 50, hex);
  }

  lemma PadsOut(text: string, n: nat, width: nat)
    requires |text| == n <= width
    ensures |Padded(text, width)| == width && Blank(Padded(text, width)[n..])
  {
  }

  lemma BlankPart(line: string, at: nat, n: nat, width: nat, part: string)
    requires n <= width == |part| && Blank(part[n..])
    requires at + width <= |line| && line[at..at + width] == part
    ensures Blank(line[at + n..at + width])
  {
    assert line[at + n..at + width] == part[n..];
  }

  lemma {:induction false} HexGroups(line: string, at: nat, bs: Buffer, hex: string, i: nat)
    requires |bs| <= 16 && hex == Padded(HexColumns(bs), 50) && at + 50 <= |line| && line[at..at + 50] == hex
    requires i <= |bs|
    ensures GroupsAt(line, at + 3 * i, bs[i..])
    decreases |bs| - i
  {
    if i < |bs| {
      HexGroups(line, at, bs, hex, i + 1);
      PaddedGroup(bs, i, hex);
      GroupOf(line, at, hex, i, bs[i]);
      OneMoreGroup(line, at + 3 * i, bs[i..]);
      assert bs[i..][1..] == bs[i + 1..];
    }
  }

  lemma OneMoreGroup(line: string, at: nat, bs: Buffer)
    requires bs != []
    ensures HexGroup(line, at, bs[0]) && GroupsAt(line, at + 3, bs[1..]) ==> GroupsAt(line, at, bs)
  {
  }

  lemma PaddedBlank(line: string, at: nat, text: string, n: nat, width: nat, part: string)
    requires |text| == n <= width && part == Padded(text, width)
    requires at + width <= |line| && line[at..at + width] == part
    ensures Blank(line[at + n..at + width])
  {
    assert line[at + n..at + width] == part[n..] == Spaces(width - n);
  }

  lemma PaddedGroup(bs: Buffer, i: nat, hex: string)
    requires i < |bs| <= 16 && hex == Padded(HexColumns(bs), 50)
    ensures |hex| == 50 && HexGroup(hex, 3 * i, bs[i])
  {
    ColumnAt(bs, i);
    DigitCode(bs[i] / 16);
    DigitCode(bs[i] % 16);
    FirstPart(HexColumns(bs), Spaces(50 - 3 * |bs|), 3 * i);
    FirstPart(HexColumns(bs), Spaces(50 - 3 * |bs|), 3 * i + 1);
    FirstPart(HexColumns(bs), Spaces(50 - 3 * |bs|), 3 * i + 2);
  }

  lemma FirstPart(front: string, back: string, k: nat)
    requires k < |front|
    ensures (front + back)[k] == front[k]
  {
  }

  lemma GroupOf(line: string, at: nat, hex: string, i: nat, b: byte)
    requires |hex| == 50 && at + 50 <= |line| && line[at..at + 50] == hex && HexGroup(hex, 3 * i, b)
    ensures HexGroup(line, at + 3 * i, b)
  {
    SliceChar(line, at, hex, 3 * i);
    SliceChar(line, at, hex, 3 * i + 1);
    SliceChar(line, at, hex, 3 * i + 2);
  }

  lemma CharPart(line: string, at: nat, bs: Buffer, chars: string)
    requires |bs| <= 16 && chars == Padded(CharColumns(bs), 20) && at + 20 <= |line| && line[at..at + 20] == chars
    ensures CharColumnsAt(line, at, bs)
  {
    forall c | at <= c < at + |bs| ensures line[c] == CharColumns(bs)[c - at] {
      SliceChar(line, at, chars, c - at);
    }
    PaddedBlank(line, at, CharColumns(bs), |bs|, 20, chars);
  }

  /** Every line of the dump, for any buffer. */
  lemma DumpShape(p: Buffer, k: nat)
    requires k < LineCount(|p|)
    ensures var line := Dump(p)[k];
            var n := IndexOf(line, ':');
            var bs := p[16 * k..if 16 * k + 16 <= |p| then 16 * k + 16 else |p|];
            && 2 <= n && |line| == n + 72 && line[..2] == "0x" && OffsetDigits(line[2..n])
            && HexColumnsAt(line, n + 1, bs) && CharColumnsAt(line, n + 51, bs) && line[n + 71] == '\n'
  {
    LineShape(16 * k, Chunk(p, k));
  }
}
