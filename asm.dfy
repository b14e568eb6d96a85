/**
 * The build step that turns the bootloader's binary image into an assembly
 * source: a four-line preamble, then the bytes as `.byte` directives of at
 * most sixteen items each.  The output file is an object whose text grows by
 * each write; reading the binary and opening the files are outside the model.
 */
module Asm {
  import opened Types

  /** The output file: everything written to it so far. */
  class OutFile {
    var text: string

    constructor ()
      ensures text == ""
    {
      text := "";
    }

    /** outfile.write: appends, nothing else changes. */
    method Write(s: string)
      modifies this
      ensures text == old(text) + s
    {
      text := text + s;
    }
  }

  /** The bytes per `.byte` line. */
  const ChunkSize: nat := 16

  function Min(a: nat, b: nat): nat {
    if a <= b then a else b
  }

  /** The lowercase hexadecimal digit of d, as `{b:02x}` writes it. */
  function DigitChar(d: nat): (c: char)
    requires d < 16
    ensures IsHexChar(c) && HexValue(c) == d
  {
    "0123456789abcdef"[d]
  }

  predicate IsHexChar(c: char) {
    '0' <= c <= '9' || 'a' <= c <= 'f'
  }

  /** The value of one lowercase hexadecimal digit (16 for anything else). */
  function HexValue(c: char): (v: nat)
    ensures v < 16 <==> IsHexChar(c)
  {
    if '0' <= c <= '9' then c as nat - '0' as nat
    else if 'a' <= c <= 'f' then c as nat - 'a' as nat + 10
    else 16
  }

  /** One item: `0x` and exactly two lowercase digits. */
  function Item(b: U8): (s: string) {
    "0x" + [DigitChar(b / 16), DigitChar(b % 16)]
  }

  /** An item is four characters: `0x`, then two digits that read back as the byte. */
  lemma ItemForm(b: U8)
    ensures |Item(b)| == 4 && Item(b)[..2] == "0x"
    ensures IsHexChar(Item(b)[2]) && IsHexChar(Item(b)[3])
    ensures HexValue(Item(b)[2]) * 16 + HexValue(Item(b)[3]) == b
  {
  }

  /** `', '.join(...)` over the items of a chunk. */
  function Items(chunk: seq<U8>): string {
    if |chunk| == 0 then ""
    else if |chunk| == 1 then Item(chunk[0])
    else Item(chunk[0]) + ", " + Items(chunk[1..])
  }

  /** One directive line. */
  function ByteLine(chunk: seq<U8>): string {
    ".byte " + Items(chunk) + "\n"
  }

  /** The four leading writes: the comment naming the input, the CPU, the instruction set, the section. */
  function Preamble(ifile: string, section: string, attributes: string): string {
    CommentLine(ifile) + CpuLine + ThumbLine + SectionLine(section, attributes)
  }

  /** The comment naming the input file, and a blank line. */
  function CommentLine(ifile: string): string {
    "// Generated assembly file from: " + ifile + "\n\n"
  }

  const CpuLine: string := ".cpu cortex-m0plus\n"

  const ThumbLine: string := ".thumb\n\n"

  /** The section directive with its quoted attributes, and a blank line. */
  function SectionLine(section: string, attributes: string): string {
    ".section ." + section + ", \"" + attributes + "\"\n\n"
  }

  /** The slices `idata[offs:min(offs + 16, len)]` for offs = 0, 16, 32, ... below the length. */
  function Chunks(idata: seq<U8>): (cs: seq<seq<U8>>)
    decreases |idata|
  {
    if |idata| == 0 then []
    else [idata[..Min(ChunkSize, |idata|)]] + Chunks(idata[Min(ChunkSize, |idata|)..])
  }

  /** The lines written for a sequence of chunks, in order. */
  function Lines(cs: seq<seq<U8>>): string {
    if |cs| == 0 then "" else ByteLine(cs[0]) + Lines(cs[1..])
  }

  /** Everything after the preamble. */
  function Body(idata: seq<U8>): string {
    Lines(Chunks(idata))
  }

  /** The chunks joined back together. */
  function Flatten(cs: seq<seq<U8>>): seq<U8> {
    if |cs| == 0 then [] else cs[0] + Flatten(cs[1..])
  }

  /**
   * There are ceil(len / 16) chunks, every one of sixteen bytes except the
   * last, which holds the remaining len mod 16 when that is not zero, and
   * together they are the input.
   */
  lemma {:induction false} ChunkShape(idata: seq<U8>)
    ensures var cs := Chunks(idata);
      |cs| == (|idata| + ChunkSize - 1) / ChunkSize
      && (forall i :: 0 <= i < |cs| - 1 ==> |cs[i]| == ChunkSize)
      && (|cs| > 0 ==> |cs[|cs| - 1]| == if |idata| % ChunkSize == 0 then ChunkSize else |idata| % ChunkSize)
      && Flatten(cs) == idata
    decreases |idata|
  {
    if |idata| > 0 {
      var n := Min(ChunkSize, |idata|);
      var rest := idata[n..];
      ChunkShape(rest);
      var cs := Chunks(idata);
      assert cs[1..] == Chunks(rest);
      assert idata == idata[..n] + rest;
      if |idata| > ChunkSize {
        ChunkCount(|rest|);
      }
    }
  }

  /** One more full chunk adds one to the count and leaves the remainder alone. */
  lemma ChunkCount(k: nat)
    ensures (k + ChunkSize + ChunkSize - 1) / ChunkSize == (k + ChunkSize - 1) / ChunkSize + 1
    ensures (k + ChunkSize) % ChunkSize == k % ChunkSize
  {
  }

  /**
   * write_assembly: the four preamble writes, then one `.byte` line for each
   * chunk, in order of offset.
   */
  method WriteAssembly(outfile: OutFile, ifile: string, section: string, attributes: string, idata: seq<U8>)
    modifies outfile
    ensures outfile.text == old(outfile.text) + Preamble(ifile, section, attributes) + Body(idata)
  {
    WritePreamble(outfile, ifile, section, attributes);
    WriteBody(outfile, idata);
  }

  /** The four leading writes, in order. */
  method WritePreamble(outfile: OutFile, ifile: string, section: string, attributes: string)
    modifies outfile
    ensures outfile.text == old(outfile.text) + Preamble(ifile, section, attributes)
  {
    ghost var t0 := outfile.text;
    var comment, section' := CommentLine(ifile), SectionLine(section, attributes);
    outfile.Write(comment);
    outfile.Write(CpuLine);
    outfile.Write(ThumbLine);
    outfile.Write(section');
    AppendAssoc(t0, comment, CpuLine);
    AppendAssoc(t0, comment + CpuLine, ThumbLine);
    AppendAssoc(t0, comment + CpuLine + ThumbLine, section');
  }

  /** The `for offs in range(0, len(idata), 16)` loop: one line per chunk. */
  method WriteBody(outfile: OutFile, idata: seq<U8>)
    modifies outfile
    ensures outfile.text == old(outfile.text) + Body(idata)
  {
    ghost var whole := outfile.text + Body(idata);
    var offs := 0;
    while offs < |idata|
      invariant whole == outfile.text + Body(idata[Min(offs, |idata|)..])
      decreases |idata| - offs
    {
      var end := Min(offs + ChunkSize, |idata|);
      var chunk := idata[offs..end];
      ghost var before := outfile.text;
      ChunkStep(idata, offs);
      outfile.Write(ByteLine(chunk));
      AppendAssoc(before, ByteLine(chunk), Body(idata[end..]));
      offs := offs + ChunkSize;
      assert Min(offs, |idata|) == end;
    }
  }

  /** The body of the input from offset offs on is the line of the chunk at offs and the body after it. */
  lemma ChunkStep(idata: seq<U8>, offs: nat)
    requires offs < |idata|
    ensures Body(idata[offs..])
      == ByteLine(idata[offs..Min(offs + ChunkSize, |idata|)]) + Body(idata[Min(offs + ChunkSize, |idata|)..])
  {
    var s := idata[offs..];
    var n := Min(ChunkSize, |s|);
    assert s[..n] == idata[offs..Min(offs + ChunkSize, |idata|)];
    assert s[n..] == idata[Min(offs + ChunkSize, |idata|)..];
    assert Chunks(s) == [s[..n]] + Chunks(s[n..]);
  }

  /** An empty input gives the preamble alone. */
  lemma EmptyInput()
    ensures Body([]) == ""
  {
  }

  datatype Parse = Parsed(bytes: seq<U8>) | Malformed

  function Prepend(b: U8, p: Parse): Parse {
    if p.Parsed? then Parsed([b] + p.bytes) else Malformed
  }

  /**
   * A reader for the body: a sequence of `.byte` lines, each a
   * `, `-separated list of `0x` items ending in a newline.
   */
  function ParseBody(t: string): (p: Parse)
    decreases |t|, 1
  {
    if |t| == 0 then Parsed([])
    else if |t| >= 6 && t[..6] == ".byte " then ParseItems(t[6..])
    else Malformed
  }

  /** The items of one line and, after its newline, the lines that follow. */
  function ParseItems(t: string): (p: Parse)
    decreases |t|, 0
  {
    if |t| >= 4 && t[..2] == "0x" && IsHexChar(t[2]) && IsHexChar(t[3]) then
      var b := HexValue(t[2]) * 16 + HexValue(t[3]);
      if |t| >= 6 && t[4..6] == ", " then Prepend(b, ParseItems(t[6..]))
      else if |t| >= 5 && t[4] == '\n' then Prepend(b, ParseBody(t[5..]))
      else Malformed
    else Malformed
  }

  /** Puts a run of bytes in front of a successful reading. */
  function PrependAll(bytes: seq<U8>, p: Parse): Parse {
    if p.Parsed? then Parsed(bytes + p.bytes) else Malformed
  }

  /** An item followed by a separator reads as its byte, then the reading continues on the same line. */
  lemma ItemThenComma(b: U8, r: string)
    ensures ParseItems(Item(b) + ", " + r) == Prepend(b, ParseItems(r))
  {
    ItemForm(b);
    var t := Item(b) + ", " + r;
    assert t[..2] == "0x" && t[2] == Item(b)[2] && t[3] == Item(b)[3];
    assert t[4..6] == ", ";
    assert t[6..] == r;
  }

  /** An item followed by a newline reads as its byte, then the reading continues with the next line. */
  lemma ItemThenNewline(b: U8, r: string)
    ensures ParseItems(Item(b) + "\n" + r) == Prepend(b, ParseBody(r))
  {
    ItemForm(b);
    var t := Item(b) + "\n" + r;
    assert t[..2] == "0x" && t[2] == Item(b)[2] && t[3] == Item(b)[3];
    assert t[4] == '\n';
    assert |t| < 6 || t[4..6][0] == '\n';
    assert t[5..] == r;
  }

  /** Reading a line's items and its newline back gives the chunk, then whatever follows reads on. */
  lemma {:induction false} ItemsRoundTrip(chunk: seq<U8>, tail: string)
    requires |chunk| > 0
    ensures ParseItems(Items(chunk) + "\n" + tail) == PrependAll(chunk, ParseBody(tail))
    decreases |chunk|
  {
    if |chunk| == 1 {
      assert Items(chunk) + "\n" + tail == Item(chunk[0]) + "\n" + tail;
      ItemThenNewline(chunk[0], tail);
      assert chunk == [chunk[0]];
    } else {
      var more := Items(chunk[1..]) + "\n" + tail;
      assert Items(chunk) + "\n" + tail == Item(chunk[0]) + ", " + more;
      ItemThenComma(chunk[0], more);
      ItemsRoundTrip(chunk[1..], tail);
      assert chunk == [chunk[0]] + chunk[1..];
      PrependAllCons(chunk[0], chunk[1..], ParseBody(tail));
    }
  }

  lemma PrependAllCons(b: U8, bytes: seq<U8>, p: Parse)
    ensures Prepend(b, PrependAll(bytes, p)) == PrependAll([b] + bytes, p)
  {
    if p.Parsed? {
      AppendAssoc([b], bytes, p.bytes);
    }
  }

  /** A whole line reads back as its chunk, and the reading continues after its newline. */
  lemma LineRoundTrip(chunk: seq<U8>, tail: string)
    requires |chunk| > 0
    ensures ParseBody(ByteLine(chunk) + tail) == PrependAll(chunk, ParseBody(tail))
  {
    var t := ByteLine(chunk) + tail;
    assert t == ".byte " + (Items(chunk) + "\n" + tail);
    assert t[..6] == ".byte ";
    assert t[6..] == Items(chunk) + "\n" + tail;
    ItemsRoundTrip(chunk, tail);
  }

  /** Reading the body back gives exactly the input bytes, in order. */
  lemma {:induction false} BodyRoundTrip(idata: seq<U8>)
    ensures ParseBody(Body(idata)) == Parsed(idata)
    decreases |idata|
  {
    if |idata| > 0 {
      var n := Min(ChunkSize, |idata|);
      var chunk, rest := idata[..n], idata[n..];
      assert Chunks(idata) == [chunk] + Chunks(rest);
      assert Body(idata) == ByteLine(chunk) + Body(rest);
      BodyRoundTrip(rest);
      LineRoundTrip(chunk, Body(rest));
      assert idata == chunk + rest;
    }
  }
}
