/**
 * The HEX input scheme of the bootloader (hex.c): a line of Intel HEX arrives
 * as ASCII over the serial link, is copied into a 44-byte buffer, turned
 * into binary in place, checksummed by a DMA copy with the sniffer summing
 * the bytes, and parsed into the global HEX record.
 */
module Hex {
  import opened Types

  /** BUFFER_LEN: the line buffer and the load buffer. */
  const BufferLen: nat := 44
  /** The data array of the HEX record. */
  const DataCap: nat := 16

  const Colon: U8 := 0x3A
  const Lf: U8 := 0x0A
  const Cr: U8 := 0x0D

  /** The record types HexType names. */
  const DataType: U8 := 0x00
  const EndOfFileType: U8 := 0x01
  const ExtendedSegmentAddressType: U8 := 0x02
  const StartSegmentAddressType: U8 := 0x03
  const ExtendedLinearAddressType: U8 := 0x04
  const ExtendedStartAddressType: U8 := 0x05

  /** HEX_t: byte count, 16-bit address, record type, sixteen data cells, checksum. */
  datatype Record = Record(count: U8, address: U16, rtype: U8, data: seq<U8>, checksum: U8)

  /** The record as it stands before any line was parsed (a zero-initialised global). */
  function BlankRecord(): (r: Record)
    ensures |r.data| == DataCap && r.count == 0
  {
    Record(0, 0, 0, Zeros(DataCap), 0)
  }

  // ---------------------------------------------------------------------------
  // Bitwise or on unsigned numbers

  /** a | b, bit by bit from the lowest. */
  function BitOr(a: nat, b: nat): nat
    decreases a + b
  {
    if a == 0 then b
    else if b == 0 then a
    else 2 * BitOr(a / 2, b / 2) + (if a % 2 == 1 || b % 2 == 1 then 1 else 0)
  }

  /** Or-ing two numbers of k bits gives a number of k bits. */
  lemma {:induction false} BitOrBelow(a: nat, b: nat, k: nat)
    requires a < Pow2(k) && b < Pow2(k)
    ensures BitOr(a, b) < Pow2(k)
    decreases k
  {
    if a != 0 && b != 0 {
      BitOrBelow(a / 2, b / 2, k - 1);
    }
  }

  /** Or-ing a number shifted left by k with one below 2^k is adding them. */
  lemma {:induction false} BitOrLow(h: nat, l: nat, k: nat)
    requires l < Pow2(k)
    ensures BitOr(h * Pow2(k), l) == h * Pow2(k) + l
    decreases k
  {
    if k != 0 && h != 0 && l != 0 {
      var p := Pow2(k - 1);
      assert h * Pow2(k) == 2 * (h * p);
      assert (h * Pow2(k)) / 2 == h * p && (h * Pow2(k)) % 2 == 0;
      BitOrLow(h, l / 2, k - 1);
    }
  }

  lemma Pow2Facts()
    ensures Pow2(4) == 16 && Pow2(8) == 0x100
  {
  }

  /** The unsigned-char result of `a | b` on two bytes. */
  function Or8(a: U8, b: U8): U8 {
    Pow2Facts();
    BitOrBelow(a, b, 8);
    BitOr(a, b)
  }

  // ---------------------------------------------------------------------------
  // ASCII to binary

  /**
   * char2hex: or into num the value of one digit, taken as `val - 'A' + 10`
   * from 'A' upwards and as `val - '0'` below it, truncated to a byte.
   */
  function Char2Hex(val: U8, num: U8): U8 {
    if val >= 0x41 then Or8(num, (val - 0x41 + 10) % 0x100) else Or8(num, (val - 0x30) % 0x100)
  }

  /** One byte from two characters: the first digit, shifted up a nibble, then the second. */
  function HexPair(hi: U8, lo: U8): U8 {
    Char2Hex(lo, (Char2Hex(hi, 0) as int * 16) % 0x100)
  }

  /** The digits Intel HEX uses: '0' to '9' and 'A' to 'F'. */
  predicate IsHexDigit(c: U8) {
    0x30 <= c <= 0x39 || 0x41 <= c <= 0x46
  }

  function DigitValue(c: U8): (v: nat)
    requires IsHexDigit(c)
    ensures v < 16
  {
    if c <= 0x39 then c - 0x30 else c - 0x37
  }

  /** The upper-case digit of a value below 16. */
  function Digit(v: nat): (c: U8)
    requires v < 16
    ensures IsHexDigit(c) && DigitValue(c) == v
  {
    if v < 10 then 0x30 + v else 0x37 + v
  }

  /** On a digit, char2hex adds the digit's value into a number whose low nibble is clear. */
  lemma Char2HexDigit(c: U8, num: U8)
    requires IsHexDigit(c) && num % 16 == 0
    ensures Char2Hex(c, num) == num + DigitValue(c)
  {
    var d := DigitValue(c);
    var x := if c >= 0x41 then (c - 0x41 + 10) % 0x100 else (c - 0x30) % 0x100;
    assert x == d;
    assert Char2Hex(c, num) == Or8(num, d);
    Pow2Facts();
    assert num == (num / 16) * Pow2(4);
    BitOrLow(num / 16, d, 4);
  }

  /** Two digits make the byte 16 * high + low. */
  lemma HexPairDigits(hi: U8, lo: U8)
    requires IsHexDigit(hi) && IsHexDigit(lo)
    ensures HexPair(hi, lo) == 16 * DigitValue(hi) + DigitValue(lo)
  {
    var v := DigitValue(hi);
    Char2HexDigit(hi, 0);
    assert Char2Hex(hi, 0) == v;
    var num := NibbleUp(v);
    Char2HexDigit(lo, num);
  }

  /** A value below 16 shifted up a nibble stays a byte, and its low nibble is clear. */
  lemma NibbleUp(v: nat) returns (num: U8)
    requires v < 16
    ensures num == (v * 16) % 0x100 == v * 16 && num % 16 == 0
  {
    num := v * 16;
  }

  /** The two upper-case digits of a byte give the byte back. */
  lemma EncodedPair(b: U8)
    ensures HexPair(Digit(b / 16), Digit(b % 16)) == b
  {
    HexPairDigits(Digit(b / 16), Digit(b % 16));
  }

  /** A lower-case digit is not read as its value: 'a' to 'f' give 42 to 47. */
  lemma Char2HexLowercase(c: U8)
    requires 0x61 <= c <= 0x66
    ensures Char2Hex(c, 0) == c - 0x37 && Char2Hex(c, 0) >= 16
  {
    Pow2Facts();
    BitOrLow(0, c - 0x37, 8);
  }

  /** The upper-case hex text of some bytes, two digits per byte, high nibble first. */
  function Encode(bytes: seq<U8>): (r: seq<U8>)
    ensures |r| == 2 * |bytes|
    ensures forall j :: 0 <= j < |r| ==> IsHexDigit(r[j])
  {
    seq(2 * |bytes|, j requires 0 <= j < 2 * |bytes| =>
      if j % 2 == 0 then Digit(bytes[j / 2] / 16) else Digit(bytes[j / 2] % 16))
  }

  /** The characters of a line in a cleared buffer. */
  function Padded(chars: seq<U8>): (b: seq<U8>)
    requires |chars| <= BufferLen
    ensures |b| == BufferLen
  {
    chars + Zeros(BufferLen - |chars|)
  }

  /**
   * The buffer after transformLine when it held n characters: cell i is the
   * byte of characters 2i and 2i+1 for every whole pair, and the rest is
   * zero (an odd last character is dropped).
   */
  function Transformed(buf: seq<U8>, n: nat): (r: seq<U8>)
    requires |buf| == BufferLen && n <= BufferLen
    ensures |r| == BufferLen
  {
    seq(BufferLen, i requires 0 <= i < BufferLen =>
      if i < n / 2 then HexPair(buf[2 * i], buf[2 * i + 1]) else 0)
  }

  /** The binary bytes a line of characters turns into. */
  function LineBytes(chars: seq<U8>): (r: seq<U8>)
    requires |chars| < BufferLen
    ensures |r| == BufferLen
  {
    Transformed(Padded(chars), |chars|)
  }

  /** The hex text of some bytes turns back into those bytes, and zeros after them. */
  lemma {:induction false} LineBytesEncode(bytes: seq<U8>)
    requires 2 * |bytes| < BufferLen
    ensures LineBytes(Encode(bytes)) == Padded(bytes)
  {
    forall i | 0 <= i < BufferLen
      ensures LineBytes(Encode(bytes))[i] == Padded(bytes)[i]
    {
      LineBytesEncodeAt(bytes, i);
    }
  }

  lemma LineBytesEncodeAt(bytes: seq<U8>, i: nat)
    requires 2 * |bytes| < BufferLen && i < BufferLen
    ensures LineBytes(Encode(bytes))[i] == Padded(bytes)[i]
  {
    var e := Encode(bytes);
    if i < |bytes| {
      assert Padded(e)[2 * i] == Digit(bytes[i] / 16);
      assert Padded(e)[2 * i + 1] == Digit(bytes[i] % 16);
      EncodedPair(bytes[i]);
    }
  }

  /** A character left over after the last whole pair changes nothing. */
  lemma {:induction false} LineBytesOddChar(bytes: seq<U8>, c: U8)
    requires 2 * |bytes| + 1 < BufferLen
    ensures LineBytes(Encode(bytes) + [c]) == Padded(bytes)
  {
    var e := Encode(bytes);
    LineBytesEncode(bytes);
    forall i | 0 <= i < BufferLen
      ensures LineBytes(e + [c])[i] == LineBytes(e)[i]
    {
      if i < |bytes| {
        assert Padded(e + [c])[2 * i] == Padded(e)[2 * i];
        assert Padded(e + [c])[2 * i + 1] == Padded(e)[2 * i + 1];
      }
    }
  }

  // ---------------------------------------------------------------------------
  // Checksum

  /** The sum of some bytes. */
  function Sum(s: seq<U8>): nat {
    if s == [] then 0 else Sum(s[..|s| - 1]) + s[|s| - 1]
  }

  lemma {:induction false} SumAppend(a: seq<U8>, b: seq<U8>)
    ensures Sum(a + b) == Sum(a) + Sum(b)
    decreases |b|
  {
    if b == [] {
      assert a + b == a;
    } else {
      assert (a + b)[..|a + b| - 1] == a + b[..|b| - 1];
      assert (a + b)[|a + b| - 1] == b[|b| - 1];
      SumAppend(a, b[..|b| - 1]);
    }
  }

  lemma SumCons(x: U8, s: seq<U8>)
    ensures Sum([x] + s) == x + Sum(s)
  {
    SumAppend([x], s);
    assert [x][..0] == [];
  }

  lemma {:induction false} SumZeros(n: nat)
    ensures Sum(Zeros(n)) == 0
  {
    if n != 0 {
      assert Zeros(n)[..n - 1] == Zeros(n - 1);
      SumZeros(n - 1);
    }
  }

  /** The bytes of a line in a cleared buffer sum to the bytes of the line. */
  lemma SumPadded(bytes: seq<U8>)
    requires |bytes| <= BufferLen
    ensures Sum(Padded(bytes)) == Sum(bytes)
  {
    SumAppend(bytes, Zeros(BufferLen - |bytes|));
    SumZeros(BufferLen - |bytes|);
  }

  /**
   * The value checkLine returns: the low byte of the two's complement of the
   * sum, which is the byte still missing to bring the sum to a multiple of
   * 256, and zero exactly when the sum already is one.
   */
  function Checksum(bytes: seq<U8>): (r: U8)
    ensures (Sum(bytes) + r) % 0x100 == 0
    ensures r == 0 <==> Sum(bytes) % 0x100 == 0
  {
    (0x100 - Sum(bytes) % 0x100) % 0x100
  }

  /** One more byte into the 32-bit accumulator of a prefix sum gives the next prefix sum. */
  lemma SumStep(s: seq<U8>, i: nat)
    requires i < |s|
    ensures (Sum(s[..i]) % 0x1_0000_0000 + s[i]) % 0x1_0000_0000 == Sum(s[..i + 1]) % 0x1_0000_0000
  {
    assert s[..i + 1][..i] == s[..i];
    var a := Sum(s[..i]);
    var q := a / 0x1_0000_0000;
    assert a + s[i] == (a % 0x1_0000_0000 + s[i]) + q * 0x1_0000_0000;
    ModShift(a % 0x1_0000_0000 + s[i], q);
  }

  /** Adding a multiple of 2^32 does not change the remainder modulo 2^32. */
  lemma ModShift(x: nat, q: nat)
    ensures (x + q * 0x1_0000_0000) % 0x1_0000_0000 == x % 0x1_0000_0000
  {
  }

  /** The complement of a 32-bit sum, plus one, has the low byte of the negated sum. */
  lemma NegatedLowByte(s: nat)
    ensures ((0xFFFF_FFFF - s % 0x1_0000_0000) + 1) % 0x1_0000_0000 % 0x100 == (0x100 - s % 0x100) % 0x100
  {
    var acc := s % 0x1_0000_0000;
    LowByteOfWord(s);
    NegatedWord(acc);
  }

  /** The low byte of a number is the low byte of its low 32 bits. */
  lemma LowByteOfWord(s: nat)
    ensures s % 0x1_0000_0000 % 0x100 == s % 0x100
  {
    var acc := s % 0x1_0000_0000;
    var q := s / 0x1_0000_0000;
    assert s == (q * 0x100_0000) * 0x100 + acc;
  }

  /** The low byte of a 32-bit two's complement negation is the negated low byte. */
  lemma NegatedWord(acc: nat)
    requires acc < 0x1_0000_0000
    ensures ((0xFFFF_FFFF - acc) + 1) % 0x1_0000_0000 % 0x100 == (0x100 - acc % 0x100) % 0x100
  {
    if acc != 0 {
      var a1 := acc / 0x100;
      var a0 := acc % 0x100;
      assert acc == a1 * 0x100 + a0;
      assert 0x1_0000_0000 - acc == (0x100_0000 - a1 - 1) * 0x100 + (0x100 - a0);
    }
  }

  /** The record's own bytes, in line order: count, address high, address low, type, data, checksum. */
  function RecordBytes(r: Record): (b: seq<U8>)
    requires r.count <= |r.data|
    ensures |b| == 5 + r.count
  {
    [r.count, r.address / 0x100, r.address % 0x100, r.rtype] + r.data[..r.count] + [r.checksum]
  }

  /** The bytes of a record give back its count, address, type, data and checksum. */
  lemma RecordBytesFields(a: Record, b: Record)
    requires a.count <= |a.data| && b.count <= |b.data| && RecordBytes(a) == RecordBytes(b)
    ensures a.count == b.count && a.address == b.address && a.rtype == b.rtype
    ensures a.data[..a.count] == b.data[..b.count] && a.checksum == b.checksum
  {
    var x, y := RecordBytes(a), RecordBytes(b);
    assert x[0] == a.count && y[0] == b.count;
    assert x[4..4 + a.count] == a.data[..a.count];
    assert y[4..4 + b.count] == b.data[..b.count];
    assert x[1] == a.address / 0x100 && x[2] == a.address % 0x100;
    assert y[1] == b.address / 0x100 && y[2] == b.address % 0x100;
  }

  /**
   * parseLine on the load buffer: count, address (high byte first), type,
   * the count data bytes into the first cells of the data array, and the
   * checksum after them; the data cells past count keep what they held.
   */
  function Parse(buf: seq<U8>, h: Record): (r: Record)
    requires |buf| == BufferLen && buf[0] <= DataCap && |h.data| == DataCap
    ensures r.count == buf[0] && r.rtype == buf[3] && r.address == buf[1] as int * 0x100 + buf[2]
    ensures |r.data| == DataCap && r.data[r.count..] == h.data[r.count..]
    ensures RecordBytes(r) == buf[..5 + buf[0]]
  {
    Pow2Facts();
    BitOrLow(buf[1], buf[2], 8);
    var c := buf[0];
    var address := BitOr(buf[1] as int * 0x100, buf[2]);
    AddressBytes(buf[1], buf[2]);
    var r := Record(c, address, buf[3], buf[4..4 + c] + h.data[c..], buf[4 + c]);
    assert r.data[..c] == buf[4..4 + c];
    assert buf[..5 + c] == [buf[0], buf[1], buf[2], buf[3]] + buf[4..4 + c] + [buf[4 + c]];
    r
  }

  /** A 16-bit address splits back into its two bytes. */
  lemma AddressBytes(hi: U8, lo: U8)
    ensures (hi as int * 0x100 + lo) / 0x100 == hi && (hi as int * 0x100 + lo) % 0x100 == lo
  {
  }

  /** The acceptance test of acquireLine: the checksum of the whole buffer is zero. */
  predicate AcceptsAsWritten(bytes: seq<U8>) {
    Checksum(bytes) == 0
  }

  /**
   * The acceptance test of this model: the checksum is zero and the count
   * fits the record's sixteen data cells.
   */
  predicate Accepts(bytes: seq<U8>)
    requires |bytes| == BufferLen
  {
    Checksum(bytes) == 0 && bytes[0] <= DataCap
  }

  /**
   * A line that passes acquireLine's checksum while its count, 17, is larger
   * than the data array: parseLine would then write past HEX.data.  The
   * corrected test turns it away.
   */
  lemma OverlongCountPassesChecksum()
    ensures var b := LineBytes(Encode([0x11, 0, 0, 0, 0xEF]));
      AcceptsAsWritten(b) && b[0] == 0x11 && b[0] > DataCap && !Accepts(b)
  {
    var bytes: seq<U8> := [0x11, 0, 0, 0, 0xEF];
    LineBytesEncode(bytes);
    SumPadded(bytes);
    assert bytes == [0x11] + [0, 0, 0, 0xEF];
    assert [0, 0, 0, 0xEF] == [0] + [0, 0, 0xEF];
    assert [0, 0, 0xEF] == [0] + [0, 0xEF];
    assert [0, 0xEF] == [0] + [0xEF];
    assert [0xEF] == [0xEF] + [];
    SumCons(0x11, [0, 0, 0, 0xEF]);
    SumCons(0, [0, 0, 0xEF]);
    SumCons(0, [0, 0xEF]);
    SumCons(0, [0xEF]);
    SumCons(0xEF, []);
    assert Sum(bytes) == 0x100;
  }

  /**
   * The corrected acquireLine on a complete line: the line is accepted
   * exactly when it passes hex.c's checksum test and its count fits the
   * sixteen data cells.  An accepted line takes its count from the line,
   * changes only the first count data cells of the record, and parseLine's
   * last read, the checksum at 4 + count, lies inside the load buffer.
   */
  lemma AcceptedInBounds(input: seq<U8>, h: Record)
    requires LineFits(input) && |h.data| == DataCap && ReadLine(input).Read?
    ensures |ReadLine(input).chars| < BufferLen
    ensures var b := LineBytes(ReadLine(input).chars); var o := AcquireF(input, h);
      (o.result == Accepted <==> AcceptsAsWritten(b) && b[0] <= DataCap) &&
      (o.result == Accepted ==>
         o.hex.count == b[0] && 4 + b[0] < BufferLen && |o.hex.data| == DataCap &&
         o.hex.data[b[0]..] == h.data[b[0]..] && o.hex.data[..b[0]] == b[4..4 + b[0]]) &&
      (o.result != Accepted ==> o.result == Rejected && o.hex == h)
  {
    var b := LineBytes(ReadLine(input).chars);
    if Accepts(b) {
      var p := Parse(b, h);
      assert p.data[..b[0]] == b[4..4 + b[0]];
    }
  }

  // ---------------------------------------------------------------------------
  // Reading a line

  predicate IsEol(c: U8) {
    c == Lf || c == Cr
  }

  datatype Found = Found(rest: seq<U8>) | Missing

  /** Everything after the first ':' of the input, if there is one. */
  function AfterColon(input: seq<U8>): (r: Found)
    ensures r.Found? ==> |r.rest| < |input|
  {
    if input == [] then Missing
    else if input[0] == Colon then Found(input[1..])
    else AfterColon(input[1..])
  }

  /** The characters before the first CR or LF (all of them when there is none). */
  function Head(s: seq<U8>): (h: seq<U8>)
    ensures |h| <= |s|
  {
    if s == [] || IsEol(s[0]) then [] else [s[0]] + Head(s[1..])
  }

  /** A line read: its characters and the input after its terminator; or a line never terminated. */
  datatype Read = Read(chars: seq<U8>, rest: seq<U8>) | Unterminated

  /** The characters up to the first CR or LF, and what follows that terminator. */
  function TakeLine(s: seq<U8>): (r: Read)
    ensures r.Read? ==> r.chars == Head(s) && |r.rest| < |s|
  {
    if s == [] then Unterminated
    else if IsEol(s[0]) then Read([], s[1..])
    else match TakeLine(s[1..])
      case Unterminated => Unterminated
      case Read(chars, rest) => Read([s[0]] + chars, rest)
  }

  /** The characters getLine copies into the buffer: those after the first ':' and before the next CR or LF. */
  function Partial(input: seq<U8>): seq<U8> {
    match AfterColon(input)
    case Missing => []
    case Found(s) => Head(s)
  }

  /** getLine: skip to the first ':' and take the line after it, up to CR or LF. */
  function ReadLine(input: seq<U8>): (r: Read)
    ensures r.Read? ==> r.chars == Partial(input) && |r.rest| < |input|
  {
    match AfterColon(input)
    case Missing => Unterminated
    case Found(s) => TakeLine(s)
  }

  lemma {:induction false} AfterColonOf(pre: seq<U8>, s: seq<U8>)
    requires forall k :: 0 <= k < |pre| ==> pre[k] != Colon
    ensures AfterColon(pre + [Colon] + s) == Found(s)
  {
    if pre != [] {
      assert (pre + [Colon] + s)[1..] == pre[1..] + [Colon] + s;
      AfterColonOf(pre[1..], s);
    }
  }

  lemma {:induction false} TakeLineOf(chars: seq<U8>, t: U8, rest: seq<U8>)
    requires forall k :: 0 <= k < |chars| ==> !IsEol(chars[k])
    requires IsEol(t)
    ensures TakeLine(chars + [t] + rest) == Read(chars, rest)
  {
    if chars == [] {
      assert ([t] + rest)[1..] == rest;
    } else {
      assert (chars + [t] + rest)[1..] == chars[1..] + [t] + rest;
      TakeLineOf(chars[1..], t, rest);
    }
  }

  /**
   * The line getLine reads is exactly the text between the first ':' and the
   * first CR or LF after it, whatever comes before the ':' and after the
   * terminator.
   */
  lemma ReadLineOf(pre: seq<U8>, chars: seq<U8>, t: U8, rest: seq<U8>)
    requires forall k :: 0 <= k < |pre| ==> pre[k] != Colon
    requires forall k :: 0 <= k < |chars| ==> !IsEol(chars[k])
    requires IsEol(t)
    ensures ReadLine(pre + [Colon] + chars + [t] + rest) == Read(chars, rest)
  {
    AfterColonOf(pre, chars + [t] + rest);
    assert pre + [Colon] + chars + [t] + rest == pre + [Colon] + (chars + [t] + rest);
    TakeLineOf(chars, t, rest);
  }

  /** The next line fits the buffer with its terminating zero. */
  predicate LineFits(input: seq<U8>) {
    |Partial(input)| < BufferLen
  }

  /** Every line of the input fits the buffer. */
  predicate AllFit(input: seq<U8>)
    decreases |input|
  {
    LineFits(input) &&
    match ReadLine(input)
    case Unterminated => true
    case Read(_, rest) => AllFit(rest)
  }

  // ---------------------------------------------------------------------------
  // Acquiring a record

  /** What acquireLine ends with: a record parsed, a line turned away, or the input exhausted mid-line. */
  datatype Acquired = Accepted | Rejected | Starved

  datatype Outcome = Outcome(result: Acquired, hex: Record, rest: seq<U8>)

  /** The bytes acquireLine writes before (0) and after an accepted line (1), the host's flow control. */
  function Replies(a: Acquired): (r: seq<U8>)
    ensures |r| >= 1 && r[0] == 0 && (a == Accepted <==> r == [0, 1])
  {
    if a == Accepted then [0, 1] else [0]
  }

  /**
   * acquireLine: read a line, transform it and test it; a line that passes is
   * parsed into the record, one that fails leaves it alone.  With no
   * complete line left the source waits for more input: here the input is
   * used up and the outcome is Starved.
   */
  function AcquireF(input: seq<U8>, h: Record): (o: Outcome)
    requires LineFits(input) && |h.data| == DataCap
    ensures o.result != Accepted ==> o.hex == h
    ensures o.result == Starved <==> ReadLine(input).Unterminated?
    ensures o.result != Starved ==> o.rest == ReadLine(input).rest
    ensures |o.hex.data| == DataCap
  {
    match ReadLine(input)
    case Unterminated => Outcome(Starved, h, [])
    case Read(chars, rest) =>
      var b := LineBytes(chars);
      if Accepts(b) then Outcome(Accepted, Parse(b, h), rest) else Outcome(Rejected, h, rest)
  }

  /**
   * acquireLine on a complete line: the result, record, rest and replies of
   * checking and parsing its bytes are those of the pure acquireLine.
   */
  lemma AcquireJoin(input: seq<U8>, h: Record, said: seq<U8>, r: Acquired, hx: Record, rest: seq<U8>,
                    replies: seq<U8>)
    requires LineFits(input) && |h.data| == DataCap && ReadLine(input).Read? && rest == ReadLine(input).rest
    requires var b := LineBytes(Partial(input));
      r == (if Accepts(b) then Accepted else Rejected) &&
      hx == (if r == Accepted then Parse(b, h) else h) &&
      replies == said + [0] + (if r == Accepted then [1] else [])
    ensures var o := AcquireF(input, h); r == o.result && hx == o.hex && rest == o.rest
    ensures replies == said + Replies(r)
  {
    if r == Accepted {
      AppendAssoc(said, [0], [1]);
    }
  }

  /** A record with exactly count data bytes and at most sixteen of them. */
  predicate WellFormedRecord(r: Record) {
    r.count == |r.data| <= DataCap
  }

  /** A line of hex text fits the buffer, is read whole, and turns back into its bytes. */
  lemma EncodedLine(pre: seq<U8>, bytes: seq<U8>, t: U8, rest: seq<U8>)
    requires 2 * |bytes| < BufferLen
    requires forall k :: 0 <= k < |pre| ==> pre[k] != Colon
    requires IsEol(t)
    ensures var input := pre + [Colon] + Encode(bytes) + [t] + rest;
      LineFits(input) && ReadLine(input) == Read(Encode(bytes), rest)
  {
    var e := Encode(bytes);
    forall k | 0 <= k < |e|
      ensures !IsEol(e[k])
    {
    }
    ReadLineOf(pre, e, t, rest);
  }

  /**
   * A well-formed record, written out as a line of upper-case hex text, is
   * accepted exactly when its bytes sum to a multiple of 256, and is then
   * parsed back into the same count, address, type, data and checksum; a
   * line that fails the checksum leaves the record as it was.
   */
  lemma AcquireEncoded(pre: seq<U8>, r: Record, t: U8, rest: seq<U8>, h: Record)
    requires WellFormedRecord(r) && |h.data| == DataCap
    requires forall k :: 0 <= k < |pre| ==> pre[k] != Colon
    requires IsEol(t)
    ensures var input := pre + [Colon] + Encode(RecordBytes(r)) + [t] + rest;
      LineFits(input) &&
      var o := AcquireF(input, h);
      o.rest == rest &&
      (o.result == Accepted <==> Sum(RecordBytes(r)) % 0x100 == 0) &&
      (o.result == Accepted ==> RecordBytes(o.hex) == RecordBytes(r) && o.hex.data[..r.count] == r.data) &&
      (o.result != Accepted ==> o.result == Rejected && o.hex == h)
  {
    var bytes := RecordBytes(r);
    var e := Encode(bytes);
    var input := pre + [Colon] + e + [t] + rest;
    EncodedLine(pre, bytes, t, rest);
    LineBytesEncode(bytes);
    var b := Padded(bytes);
    AcquireOf(input, h, e, rest);
    assert Accepts(b) <==> Sum(bytes) % 0x100 == 0 by {
      SumPadded(bytes);
      assert b[0] == r.count;
    }
    if Accepts(b) {
      ParsePadded(r, h);
    }
  }

  /** Parsing the bytes of a well-formed record gives back its fields. */
  lemma ParsePadded(r: Record, h: Record)
    requires WellFormedRecord(r) && |h.data| == DataCap
    ensures var p := Parse(Padded(RecordBytes(r)), h);
      RecordBytes(p) == RecordBytes(r) && p.data[..r.count] == r.data
  {
    var bytes := RecordBytes(r);
    var b := Padded(bytes);
    assert b[..5 + r.count] == bytes;
    RecordBytesFields(Parse(b, h), r);
  }

  /** The outcome of acquireLine on an input whose next line is known. */
  lemma AcquireOf(input: seq<U8>, h: Record, chars: seq<U8>, rest: seq<U8>)
    requires ReadLine(input) == Read(chars, rest) && |chars| < BufferLen && |h.data| == DataCap
    ensures LineFits(input)
    ensures AcquireF(input, h) ==
      if Accepts(LineBytes(chars)) then Outcome(Accepted, Parse(LineBytes(chars), h), rest)
      else Outcome(Rejected, h, rest)
  {
  }

  // ---------------------------------------------------------------------------
  // Loading a record

  datatype Load = Load(loaded: bool, hex: Record, rest: seq<U8>, replies: seq<U8>)

  /**
   * hex_load: acquire lines until one is accepted; lines turned away are
   * skipped.  The input running out is the only way to end without a
   * record.
   */
  function LoadF(input: seq<U8>, h: Record): (l: Load)
    requires AllFit(input) && |h.data| == DataCap
    ensures !l.loaded ==> l.rest == [] && l.hex == h
    ensures l.loaded ==> l.hex.count <= DataCap && |l.rest| < |input|
    ensures |l.hex.data| == DataCap && AllFit(l.rest)
    decreases |input|
  {
    var o := AcquireF(input, h);
    match o.result
    case Accepted => Load(true, o.hex, o.rest, Replies(Accepted))
    case Starved => Load(false, h, [], Replies(Starved))
    case Rejected =>
      var l := LoadF(o.rest, h);
      l.(replies := Replies(Rejected) + l.replies)
  }

  /** A line turned away is skipped: loading goes on with the next line and the same record. */
  lemma LoadSkipsRejected(pre: seq<U8>, bad: Record, t: U8, rest: seq<U8>, h: Record)
    requires WellFormedRecord(bad) && Sum(RecordBytes(bad)) % 0x100 != 0 && |h.data| == DataCap
    requires forall k :: 0 <= k < |pre| ==> pre[k] != Colon
    requires IsEol(t) && AllFit(rest)
    ensures var input := pre + [Colon] + Encode(RecordBytes(bad)) + [t] + rest;
      AllFit(input) &&
      var l := LoadF(input, h);
      var m := LoadF(rest, h);
      l.loaded == m.loaded && l.hex == m.hex && l.rest == m.rest && l.replies == [0] + m.replies
  {
    AcquireEncoded(pre, bad, t, rest, h);
    EncodedLine(pre, RecordBytes(bad), t, rest);
  }

  // ---------------------------------------------------------------------------
  // The buffers and the record

  /**
   * The state of hex.c: the line buffer, the load buffer the checksum copy
   * writes, the character count, the global HEX record, the input the
   * serial link has still to deliver, and the bytes written back to it.
   */
  class HexInput {
    const buffer: array<U8>
    const loadBuffer: array<U8>
    var bufCount: nat
    var hex: Record
    var input: seq<U8>
    var replies: seq<U8>

    ghost predicate Valid()
      reads this
    {
      buffer.Length == BufferLen && loadBuffer.Length == BufferLen && buffer != loadBuffer &&
      bufCount < BufferLen && |hex.data| == DataCap
    }

    /** The zero-initialised buffers and record, with the input still to arrive. */
    constructor (input: seq<U8>)
      ensures Valid() && fresh(buffer) && fresh(loadBuffer)
      ensures buffer[..] == Zeros(BufferLen) && loadBuffer[..] == Zeros(BufferLen)
      ensures bufCount == 0 && hex == BlankRecord() && this.input == input && replies == []
    {
      buffer := new U8[BufferLen](_ => 0);
      loadBuffer := new U8[BufferLen](_ => 0);
      bufCount := 0;
      hex := BlankRecord();
      this.input := input;
      replies := [];
    }

    /** The buffer clear (a DMA transfer from a zero byte). */
    method ClearBuffer()
      requires Valid()
      modifies buffer
      ensures buffer[..] == Zeros(BufferLen)
    {
      for k := 0 to BufferLen
        invariant forall j :: 0 <= j < k ==> buffer[j] == 0
      {
        buffer[k] := 0;
      }
    }

    /** The do-while loop of getLine: read up to and including the first ':'. */
    method SkipToColon() returns (found: bool)
      requires Valid()
      modifies this
      ensures Valid() && bufCount == old(bufCount) && hex == old(hex) && replies == old(replies)
      ensures found <==> AfterColon(old(input)).Found?
      ensures found ==> input == AfterColon(old(input)).rest
      ensures !found ==> input == []
    {
      while input != [] && input[0] != Colon
        invariant Valid() && bufCount == old(bufCount) && hex == old(hex) && replies == old(replies)
        invariant AfterColon(input) == AfterColon(old(input))
        decreases |input|
      {
        input := input[1..];
      }
      if input == [] {
        return false;
      }
      input := input[1..];
      return true;
    }

    /** The copying loop of getLine: characters up to CR or LF into the buffer, then the terminating zero. */
    method CopyLine() returns (complete: bool)
      requires Valid() && buffer[..] == Zeros(BufferLen) && bufCount == 0 && |Head(input)| < BufferLen
      modifies this, buffer
      ensures Valid() && hex == old(hex) && replies == old(replies)
      ensures complete <==> TakeLine(old(input)).Read?
      ensures complete ==> input == TakeLine(old(input)).rest
      ensures !complete ==> input == []
      ensures bufCount == |Head(old(input))| && buffer[..] == Padded(Head(old(input)))
    {
      var s, n := CopyChars(input);
      bufCount := n;
      if s == [] {
        input := [];
        return false;
      }
      input := s[1..];
      buffer[n] := 0;
      return true;
    }

    /** The characters before the first CR or LF, copied to the front of the cleared buffer. */
    method CopyChars(s0: seq<U8>) returns (s: seq<U8>, n: nat)
      requires Valid() && buffer[..] == Zeros(BufferLen) && |Head(s0)| < BufferLen
      modifies buffer
      ensures n == |Head(s0)| && buffer[..] == Padded(Head(s0))
      ensures TakeLine(s0).Read? <==> s != []
      ensures s != [] ==> TakeLine(s0).rest == s[1..]
    {
      s, n := s0, 0;
      while s != [] && !IsEol(s[0])
        invariant 0 <= n <= |Head(s0)| && Head(s0) == buffer[..n] + Head(s)
        invariant TakeLine(s0).Read? <==> TakeLine(s).Read?
        invariant TakeLine(s).Read? ==> TakeLine(s0).rest == TakeLine(s).rest
        invariant forall k :: n <= k < BufferLen ==> buffer[k] == 0
        decreases |s|
      {
        buffer[n] := s[0];
        n := n + 1;
        s := s[1..];
      }
      assert buffer[..] == buffer[..n] + buffer[n..];
      assert buffer[n..] == Zeros(BufferLen - n);
    }

    /**
     * getLine: clear the buffer, skip to ':', copy the line.  Complete when a
     * CR or LF ended the line; otherwise the input ran out, where the source
     * would wait.
     */
    method GetLine() returns (complete: bool)
      requires Valid() && LineFits(input)
      modifies this, buffer
      ensures Valid() && hex == old(hex) && replies == old(replies)
      ensures complete <==> ReadLine(old(input)).Read?
      ensures complete ==> input == ReadLine(old(input)).rest
      ensures !complete ==> input == []
      ensures bufCount == |Partial(old(input))| && buffer[..] == Padded(Partial(old(input)))
    {
      ClearBuffer();
      bufCount := 0;
      var found := SkipToColon();
      if !found {
        assert buffer[..] == Padded([]);
        return false;
      }
      complete := CopyLine();
    }

    /** transformLine: each pair of characters into one byte, in place, and zeros after them. */
    method TransformLine()
      requires Valid()
      modifies buffer
      ensures buffer[..] == Transformed(old(buffer[..]), bufCount)
    {
      ghost var t := Transformed(buffer[..], bufCount);
      TransformPairs();
      ClearFrom(bufCount / 2, t);
    }

    /** The converting loop of transformLine: cell i becomes the byte of characters 2i and 2i+1. */
    method TransformPairs()
      requires Valid()
      modifies buffer
      ensures forall k :: 0 <= k < bufCount / 2 ==> buffer[k] == HexPair(old(buffer[2 * k]), old(buffer[2 * k + 1]))
      ensures forall k :: bufCount / 2 <= k < BufferLen ==> buffer[k] == old(buffer[k])
    {
      ghost var o := buffer[..];
      var i := 0;
      while i < bufCount / 2
        invariant Valid() && i <= bufCount / 2
        invariant forall k :: 0 <= k < i ==> buffer[k] == HexPair(o[2 * k], o[2 * k + 1])
        invariant forall k :: i <= k < BufferLen ==> buffer[k] == o[k]
      {
        assert buffer[2 * i] == o[2 * i] && buffer[2 * i + 1] == o[2 * i + 1];
        ConvertPair(i);
        i := i + 1;
      }
    }

    /** One pass of the converting loop: characters 2i and 2i+1 into cell i. */
    method ConvertPair(i: nat)
      requires Valid() && 2 * i + 1 < BufferLen
      modifies buffer
      ensures buffer[i] == HexPair(old(buffer[2 * i]), old(buffer[2 * i + 1]))
      ensures forall k :: 0 <= k < BufferLen && k != i ==> buffer[k] == old(buffer[k])
    {
      var num := Char2Hex(buffer[i * 2], 0);
      num := (num as int * 16) % 0x100;
      num := Char2Hex(buffer[i * 2 + 1], num);
      buffer[i] := num;
    }

    /** The clearing loop of transformLine: every cell from the given one on becomes zero. */
    method ClearFrom(from: nat, ghost t: seq<U8>)
      requires Valid() && from <= BufferLen && |t| == BufferLen
      requires forall k :: 0 <= k < from ==> buffer[k] == t[k]
      requires forall k :: from <= k < BufferLen ==> t[k] == 0
      modifies buffer
      ensures buffer[..] == t
    {
      var i := from;
      while i < BufferLen
        invariant from <= i <= BufferLen
        invariant forall k :: 0 <= k < i ==> buffer[k] == t[k]
      {
        buffer[i] := 0;
        i := i + 1;
      }
      assert buffer[..] == t;
    }

    /**
     * checkLine: copy the buffer into the load buffer while the sniffer sums
     * the bytes into a 32-bit accumulator, and return the low byte of its
     * two's complement.
     */
    method CheckLine() returns (valid: U32)
      requires Valid()
      modifies loadBuffer
      ensures loadBuffer[..] == buffer[..]
      ensures valid == Checksum(buffer[..])
    {
      var acc: U32 := 0;
      for i := 0 to BufferLen
        invariant acc == Sum(buffer[..i]) % 0x1_0000_0000
        invariant forall k :: 0 <= k < i ==> loadBuffer[k] == buffer[k]
      {
        SumStep(buffer[..], i);
        loadBuffer[i] := buffer[i];
        acc := (acc + buffer[i]) % 0x1_0000_0000;
      }
      assert buffer[..BufferLen] == buffer[..];
      NegatedLowByte(Sum(buffer[..]));
      valid := ((0xFFFF_FFFF - acc) + 1) % 0x1_0000_0000 % 0x100;
    }

    /** parseLine on the load buffer, whose count the caller has checked against the data array. */
    method ParseLine()
      requires Valid() && loadBuffer[0] <= DataCap
      modifies this
      ensures Valid() && hex == Parse(loadBuffer[..], old(hex))
      ensures bufCount == old(bufCount) && input == old(input) && replies == old(replies)
    {
      ghost var buf := loadBuffer[..];
      var c := loadBuffer[0];
      Pow2Facts();
      BitOrLow(loadBuffer[1], loadBuffer[2], 8);
      var address := BitOr(loadBuffer[1] as int * 0x100, loadBuffer[2]);
      var data := hex.data;
      for i := 0 to c
        invariant |data| == DataCap && data == buf[4..4 + i] + hex.data[i..]
      {
        assert buf[4..4 + i + 1] == buf[4..4 + i] + [buf[i + 4]];
        assert data[i := buf[i + 4]] == buf[4..4 + i + 1] + hex.data[i + 1..];
        data := data[i := loadBuffer[i + 4]];
      }
      hex := Record(c, address, loadBuffer[3], data, loadBuffer[c + 4]);
    }

    /**
     * acquireLine: flow-control byte 0, read, transform and check a line;
     * parse it and answer 1 when it passes, else leave the record alone.
     */
    method AcquireLine() returns (r: Acquired)
      requires Valid() && LineFits(input)
      modifies this, buffer, loadBuffer
      ensures Valid()
      ensures var o := AcquireF(old(input), old(hex));
        r == o.result && hex == o.hex && input == o.rest
      ensures replies == old(replies) + Replies(r)
      ensures bufCount == |Partial(old(input))|
      ensures r != Starved ==> buffer[..] == LineBytes(Partial(old(input))) && loadBuffer[..] == buffer[..]
      ensures r == Starved ==> buffer[..] == Padded(Partial(old(input))) && loadBuffer[..] == old(loadBuffer[..])
    {
      ghost var in0, h0, r0, l0 := input, hex, replies, loadBuffer[..];
      replies := replies + [0];
      var complete := GetLine();
      if !complete {
        r := Starved;
        assert AcquireF(in0, h0) == Outcome(Starved, h0, []);
        assert loadBuffer[..] == l0;
      } else {
        ghost var chars, rest := Partial(in0), input;
        r := ValidateLine(chars);
        AcquireJoin(in0, h0, r0, r, hex, input, replies);
      }
    }

    /**
     * The part of acquireLine after a complete line was read: transform it,
     * check it, and parse it and answer 1 when it passes.
     */
    method ValidateLine(ghost chars: seq<U8>) returns (r: Acquired)
      requires Valid() && |chars| < BufferLen && bufCount == |chars| && buffer[..] == Padded(chars)
      modifies this, buffer, loadBuffer
      ensures Valid() && input == old(input) && bufCount == old(bufCount)
      ensures buffer[..] == LineBytes(chars) && loadBuffer[..] == buffer[..]
      ensures r == (if Accepts(LineBytes(chars)) then Accepted else Rejected)
      ensures hex == (if r == Accepted then Parse(LineBytes(chars), old(hex)) else old(hex))
      ensures replies == old(replies) + (if r == Accepted then [1] else [])
    {
      TransformLine();
      ghost var b := LineBytes(chars);
      assert buffer[..] == b;
      var valid := CheckLine();
      assert loadBuffer[..] == b && loadBuffer[0] == b[0];
      if valid == 0 && loadBuffer[0] <= DataCap {
        replies := replies + [1];
        ParseLine();
        r := Accepted;
      } else {
        r := Rejected;
      }
    }

    /** What is left of a load under way: the whole load is the replies said so far, then the remaining load. */
    ghost predicate Remains(whole: Load, said: seq<U8>)
      reads this
    {
      AllFit(input) && |hex.data| == DataCap &&
      var l := LoadF(input, hex);
      whole.loaded == l.loaded && whole.hex == l.hex && whole.rest == l.rest && whole.replies == said + l.replies
    }

    /** One pass of hex_load's loop: one line acquired, and what it leaves of the load still to come. */
    method LoadPass(ghost whole: Load, ghost base: seq<U8>, ghost said: seq<U8>) returns (r: Acquired)
      requires Valid() && Remains(whole, said) && replies == base + said
      modifies this, buffer, loadBuffer
      ensures Valid()
      ensures r == Rejected ==>
        Remains(whole, said + [0]) && replies == base + (said + [0]) && |input| < |old(input)|
      ensures r != Rejected ==>
        whole.loaded == (r == Accepted) && hex == whole.hex && input == whole.rest && replies == base + whole.replies
    {
      r := AcquireLine();
      if r == Rejected {
        AppendAssoc(base, said, [0]);
        AppendAssoc(said, [0], LoadF(input, hex).replies);
      } else {
        AppendAssoc(base, said, Replies(r));
      }
    }

    /** hex_load: acquire lines until one is accepted, or the input runs out. */
    method HexLoad() returns (loaded: bool)
      requires Valid() && AllFit(input)
      modifies this, buffer, loadBuffer
      ensures Valid()
      ensures var l := LoadF(old(input), old(hex));
        loaded == l.loaded && hex == l.hex && input == l.rest && replies == old(replies) + l.replies
    {
      ghost var whole := LoadF(input, hex);
      ghost var said: seq<U8> := [];
      while true
        invariant Valid() && Remains(whole, said) && replies == old(replies) + said
        decreases |input|
      {
        var r := LoadPass(whole, old(replies), said);
        if r != Rejected {
          return r == Accepted;
        }
        said := said + [0];
      }
    }
  }
}
