/**
 * The build-side header generator (header.py): the load address read by
 * `any_int` (Python's `int(x, 0)`), and the 12-byte header that packs the
 * load address, the image size and the image CRC-32 as little-endian
 * 32-bit words.  File I/O is left out: the image bytes and the CRC-32
 * function are parameters.
 */
module Header {
  import opened Types

  // ---------------------------------------------------------------------------
  // any_int: an integer literal of any base, as int(x, 0) reads it

  /** The characters int() strips around a literal: Python's whitespace. */
  predicate IsSpace(c: char) {
    ('\t' <= c <= '\r') || ('\U{1C}' <= c <= '\U{1F}') || c == ' ' || c == '\U{85}' || c == '\U{A0}' ||
    c == '\U{1680}' || ('\U{2000}' <= c <= '\U{200A}') || c == '\U{2028}' || c == '\U{2029}' ||
    c == '\U{202F}' || c == '\U{205F}' || c == '\U{3000}'
  }

  /** The value of a digit character: 0-9, then letters of either case from 10 up; 36 for anything else. */
  function DigitOf(c: char): nat {
    if '0' <= c <= '9' then c as int - '0' as int
    else if 'a' <= c <= 'z' then c as int - 'a' as int + 10
    else if 'A' <= c <= 'Z' then c as int - 'A' as int + 10
    else 36
  }

  predicate InBase(c: char, base: nat) {
    DigitOf(c) < base
  }

  /** What may follow a literal's first digit: more digits, each with at most one underscore before it. */
  predicate DigitTail(s: string, base: nat)
    decreases |s|
  {
    s == [] ||
    (InBase(s[0], base) && DigitTail(s[1..], base)) ||
    (|s| >= 2 && s[0] == '_' && InBase(s[1], base) && DigitTail(s[2..], base))
  }

  /** A run of digits of the base, underscores allowed only between two digits. */
  predicate Digits(s: string, base: nat) {
    |s| > 0 && InBase(s[0], base) && DigitTail(s[1..], base)
  }

  /** The number some digits spell, most significant first, underscores skipped. */
  function ValueOf(s: string, base: nat): nat
    decreases |s|
  {
    if s == [] then 0
    else if s[|s| - 1] == '_' then ValueOf(s[..|s| - 1], base)
    else ValueOf(s[..|s| - 1], base) * base + DigitOf(s[|s| - 1])
  }

  /** The base a prefix letter after a leading 0 selects (x, o or b, either case), or 0. */
  function PrefixBase(c: char): nat {
    if c == 'x' || c == 'X' then 16
    else if c == 'o' || c == 'O' then 8
    else if c == 'b' || c == 'B' then 2
    else 0
  }

  datatype Parsed = Int(value: int) | NotInt

  /**
   * A literal without sign: 0x/0o/0b and digits of that base (one
   * underscore may follow the prefix), or decimal digits, where a leading 0
   * is allowed only if every digit is 0.
   */
  function Unsigned(u: string): Parsed {
    if |u| >= 2 && u[0] == '0' && PrefixBase(u[1]) != 0 then
      var base := PrefixBase(u[1]);
      var ds := if |u| > 2 && u[2] == '_' then u[3..] else u[2..];
      if Digits(ds, base) then Int(ValueOf(ds, base)) else NotInt
    else if !Digits(u, 10) then NotInt
    else if u[0] != '0' then Int(ValueOf(u, 10))
    else if forall i | 0 <= i < |u| :: u[i] == '0' || u[i] == '_' then Int(0)
    else NotInt
  }

  function TrimStart(s: string): (t: string)
    ensures t == [] || !IsSpace(t[0])
    decreases |s|
  {
    if s != [] && IsSpace(s[0]) then TrimStart(s[1..]) else s
  }

  function TrimEnd(s: string): (t: string)
    ensures t == [] || !IsSpace(t[|t| - 1])
    decreases |s|
  {
    if s != [] && IsSpace(s[|s| - 1]) then TrimEnd(s[..|s| - 1]) else s
  }

  function Negate(p: Parsed): Parsed {
    match p
    case Int(m) => Int(-m)
    case NotInt => NotInt
  }

  /**
   * any_int: whitespace around the literal is ignored, one sign may lead it,
   * and anything else that is not a literal is rejected (argparse reports it
   * as an ArgumentTypeError).
   */
  function AnyInt(x: string): (r: Parsed) {
    var t := TrimEnd(TrimStart(x));
    if t != [] && t[0] == '-' then Negate(Unsigned(t[1..]))
    else if t != [] && t[0] == '+' then Unsigned(t[1..])
    else Unsigned(t)
  }

  // ---------------------------------------------------------------------------
  // Writing literals, to read them back

  /** The characters DigitChar writes. */
  predicate LowerDigit(c: char) {
    '0' <= c <= '9' || 'a' <= c <= 'f'
  }

  /** The lower-case digit character of a value below 16. */
  function DigitChar(d: nat): (c: char)
    requires d < 16
    ensures DigitOf(c) == d && LowerDigit(c)
  {
    if d < 10 then ('0' as int + d) as char else ('a' as int + d - 10) as char
  }

  /** Division by the base, as ToDigits needs it. */
  lemma DivBase(n: nat, base: nat)
    requires 2 <= base <= n
    ensures 0 < n / base < n && n == (n / base) * base + n % base && n % base < base
  {
  }

  /** The digits of n in the base, most significant first, with no leading zero. */
  function ToDigits(n: nat, base: nat): (s: seq<char>)
    requires 2 <= base <= 16
    ensures |s| > 0 && forall i :: 0 <= i < |s| ==> LowerDigit(s[i]) && DigitOf(s[i]) < base
    ensures n == 0 ==> s == ['0']
    ensures n > 0 ==> s[0] != '0'
    decreases n
  {
    if n < base then [DigitChar(n)]
    else
      DivBase(n, base);
      ToDigits(n / base, base) + [DigitChar(n % base)]
  }

  /** The prefix Python's hex(), oct() and bin() give a base; decimal has none. */
  function Prefix(base: nat): string {
    if base == 16 then "0x" else if base == 8 then "0o" else if base == 2 then "0b" else ""
  }

  predicate LiteralBase(base: nat) {
    base == 2 || base == 8 || base == 10 || base == 16
  }

  /** v written as hex(), oct(), bin() or str() write it: sign, prefix, digits. */
  function Literal(v: int, base: nat): string
    requires LiteralBase(base)
  {
    (if v < 0 then "-" else "") + Prefix(base) + ToDigits(if v < 0 then -v else v, base)
  }

  /** Digits alone always pass as the tail of a literal. */
  lemma {:induction false} TailOfDigits(s: string, base: nat)
    requires forall i :: 0 <= i < |s| ==> InBase(s[i], base)
    ensures DigitTail(s, base)
    decreases |s|
  {
    if s != [] {
      TailOfDigits(s[1..], base);
    }
  }

  /** Reading the digits of n gives n back. */
  lemma {:induction false} ToDigitsValue(n: nat, base: nat)
    requires 2 <= base <= 16
    ensures Digits(ToDigits(n, base), base) && ValueOf(ToDigits(n, base), base) == n
    decreases n
  {
    var s := ToDigits(n, base);
    TailOfDigits(s[1..], base);
    if n >= base {
      DivBase(n, base);
      var t := ToDigits(n / base, base);
      ToDigitsValue(n / base, base);
      assert s[..|s| - 1] == t;
      assert s[|s| - 1] == DigitChar(n % base);
      assert ValueOf(s, base) == ValueOf(t, base) * base + n % base;
    }
  }

  /** Unsigned reads the prefix and digits of any natural number back. */
  lemma UnsignedLiteral(n: nat, base: nat)
    requires LiteralBase(base)
    ensures Unsigned(Prefix(base) + ToDigits(n, base)) == Int(n)
  {
    ToDigitsValue(n, base);
    if base == 10 {
      UnsignedDecimal(ToDigits(n, base), n);
    } else {
      UnsignedPrefixed(ToDigits(n, base), n, base);
    }
  }

  lemma UnsignedPrefixed(d: string, n: nat, base: nat)
    requires base == 2 || base == 8 || base == 16
    requires Digits(d, base) && ValueOf(d, base) == n && d[0] != '_'
    ensures Unsigned(Prefix(base) + d) == Int(n)
  {
    var u := Prefix(base) + d;
    assert u[0] == '0' && u[1] == Prefix(base)[1] && u[2] == d[0];
    assert PrefixBase(u[1]) == base;
    assert u[2..] == d;
  }

  lemma UnsignedDecimal(d: string, n: nat)
    requires Digits(d, 10) && ValueOf(d, 10) == n
    requires n == 0 ==> d == ['0']
    requires n > 0 ==> d[0] != '0'
    ensures Unsigned(Prefix(10) + d) == Int(n)
  {
    assert Prefix(10) + d == d;
  }

  /** Every literal hex(), oct(), bin() or str() writes is read back as its number by any_int. */
  lemma AnyIntLiteral(v: int, base: nat)
    requires LiteralBase(base)
    ensures AnyInt(Literal(v, base)) == Int(v)
  {
    var m := if v < 0 then -v else v;
    var d := ToDigits(m, base);
    var u := Prefix(base) + d;
    LiteralShape(v, base);
    UnsignedLiteral(m, base);
    assert u[0] == '0' || u[0] == d[0];
    assert u[|u| - 1] == d[|d| - 1];
    DigitNotSpace(d[0]);
    DigitNotSpace(d[|d| - 1]);
    if v < 0 {
      AnyIntNegative(u);
    } else {
      AnyIntUnsigned(u);
    }
  }

  lemma LiteralShape(v: int, base: nat)
    requires LiteralBase(base)
    ensures v < 0 ==> Literal(v, base) == "-" + (Prefix(base) + ToDigits(-v, base))
    ensures v >= 0 ==> Literal(v, base) == Prefix(base) + ToDigits(v, base)
  {
    if v >= 0 {
      assert "" + Prefix(base) == Prefix(base);
    }
  }

  /** A literal without sign or surrounding whitespace is read by Unsigned. */
  lemma AnyIntUnsigned(u: string)
    requires u != [] && !IsSpace(u[0]) && !IsSpace(u[|u| - 1]) && u[0] != '-' && u[0] != '+'
    ensures AnyInt(u) == Unsigned(u)
  {
    Untrimmed(u);
  }

  /** A minus sign negates the literal after it. */
  lemma AnyIntNegative(u: string)
    requires u != [] && !IsSpace(u[|u| - 1])
    ensures AnyInt("-" + u) == Negate(Unsigned(u))
  {
    var x := "-" + u;
    assert x[|x| - 1] == u[|u| - 1];
    Untrimmed(x);
    assert x[1..] == u;
  }

  /** A digit is not whitespace. */
  lemma DigitNotSpace(c: char)
    requires LowerDigit(c)
    ensures !IsSpace(c) && c != '-' && c != '+'
  {
  }

  /** Text that neither starts nor ends with whitespace is not trimmed. */
  lemma Untrimmed(x: string)
    requires x != [] && !IsSpace(x[0]) && !IsSpace(x[|x| - 1])
    ensures TrimEnd(TrimStart(x)) == x
  {
  }

  /** A decimal literal with a leading zero and some non-zero digit is rejected. */
  lemma LeadingZeroRejected(ds: string, k: nat)
    requires Digits(ds, 10) && k < |ds| && ds[k] != '0' && ds[k] != '_'
    ensures AnyInt("0" + ds) == NotInt
  {
    var u := "0" + ds;
    assert u[k + 1] == ds[k];
    assert TrimStart(u) == u;
    assert u[|u| - 1] == ds[|ds| - 1] && !IsSpace(ds[|ds| - 1]) by {
      DigitsEnd(ds, 10);
    }
    assert TrimEnd(u) == u;
    assert DigitOf(ds[0]) < 10;
    assert PrefixBase(u[1]) == 0;
    assert Digits(u, 10) by {
      assert u[1..] == ds;
    }
  }

  /** A digit run ends in a digit. */
  lemma {:induction false} DigitsEnd(s: string, base: nat)
    requires base <= 16 && |s| > 0 && InBase(s[0], base) && DigitTail(s[1..], base)
    ensures InBase(s[|s| - 1], base)
    decreases |s|
  {
    var t := s[1..];
    if t != [] {
      if InBase(t[0], base) && DigitTail(t[1..], base) {
        DigitsEnd(t, base);
        assert s[|s| - 1] == t[|t| - 1];
      } else {
        DigitsEnd(t[1..], base);
        assert s[|s| - 1] == t[1..][|t[1..]| - 1];
      }
    }
  }

  // ---------------------------------------------------------------------------
  // to_bytes(4, byteorder='little')

  function Pow256(n: nat): (r: nat)
    ensures r >= 1
  {
    if n == 0 then 1 else 0x100 * Pow256(n - 1)
  }

  /** The n low bytes of v, least significant first. */
  function LittleEndian(v: nat, n: nat): (b: seq<U8>)
    ensures |b| == n
  {
    if n == 0 then [] else [v % 0x100] + LittleEndian(v / 0x100, n - 1)
  }

  /** The number some bytes stand for, least significant first. */
  function FromLittleEndian(b: seq<U8>): (v: nat)
    ensures v < Pow256(|b|)
  {
    if b == [] then 0 else b[0] + 0x100 * FromLittleEndian(b[1..])
  }

  /** Decoding the bytes of a number that fits gives the number back. */
  lemma {:induction false} FromToLittleEndian(v: nat, n: nat)
    requires v < Pow256(n)
    ensures FromLittleEndian(LittleEndian(v, n)) == v
  {
    if n > 0 {
      FromToLittleEndian(v / 0x100, n - 1);
    }
  }

  /** Encoding the number some bytes stand for gives the bytes back. */
  lemma {:induction false} ToFromLittleEndian(b: seq<U8>)
    ensures LittleEndian(FromLittleEndian(b), |b|) == b
  {
    if b != [] {
      var v := FromLittleEndian(b);
      ToFromLittleEndian(b[1..]);
      assert v % 0x100 == b[0] && v / 0x100 == FromLittleEndian(b[1..]);
    }
  }

  /** to_bytes(4): the four bytes of a value in 0 .. 2^32-1; any other value overflows. */
  datatype Field = Bytes(value: seq<U8>) | Overflow

  function ToBytes4(v: int): (f: Field)
    ensures f.Bytes? <==> 0 <= v < 0x1_0000_0000
    ensures f.Bytes? ==> |f.value| == 4 && FromLittleEndian(f.value) == v
  {
    if 0 <= v < 0x1_0000_0000 then
      assert Pow256(4) == 0x1_0000_0000;
      FromToLittleEndian(v, 4);
      Bytes(LittleEndian(v, 4))
    else Overflow
  }

  // ---------------------------------------------------------------------------
  // The header

  /** The -a option: its text, or not given. */
  datatype Address = Given(text: string) | Omitted

  /** Why no header comes out: -a is not an integer, -a was not given, or a field does not fit 32 bits. */
  datatype Failure = NotAnInteger | NoAddress | TooLarge

  datatype Packed = Header(bytes: seq<U8>) | Failed(why: Failure)

  /**
   * header.py: parse -a, then pack the load address, the image size and the
   * image's CRC-32, each as four little-endian bytes.
   */
  function Pack(addr: Address, idata: seq<U8>, crc32: seq<U8> -> U32): (p: Packed) {
    match addr
    case Omitted => Failed(NoAddress)
    case Given(text) =>
      match AnyInt(text)
      case NotInt => Failed(NotAnInteger)
      case Int(vtor) =>
        var v, s, c := ToBytes4(vtor), ToBytes4(|idata|), ToBytes4(crc32(idata));
        if v.Overflow? || s.Overflow? then Failed(TooLarge) else Header(v.value + s.value + c.value)
  }

  /** A header is made exactly when -a is a literal of 0 .. 2^32-1 and the image is below 4 GiB; each failure says why. */
  lemma PackOutcome(addr: Address, idata: seq<U8>, crc32: seq<U8> -> U32)
    ensures var p := Pack(addr, idata, crc32);
      (p.Header? <==> addr.Given? && AnyInt(addr.text).Int? &&
                      0 <= AnyInt(addr.text).value < 0x1_0000_0000 && |idata| < 0x1_0000_0000) &&
      (p == Failed(NoAddress) <==> addr.Omitted?) &&
      (p == Failed(NotAnInteger) <==> addr.Given? && AnyInt(addr.text).NotInt?)
  {
  }

  /** The header's three words decode to the load address, the image size and the image's CRC-32. */
  lemma PackFields(addr: Address, idata: seq<U8>, crc32: seq<U8> -> U32)
    requires Pack(addr, idata, crc32).Header?
    ensures var b := Pack(addr, idata, crc32).bytes;
      |b| == 12 && addr.Given? &&
      FromLittleEndian(b[0..4]) == AnyInt(addr.text).value &&
      FromLittleEndian(b[4..8]) == |idata| &&
      FromLittleEndian(b[8..12]) == crc32(idata)
  {
    var vtor := AnyInt(addr.text).value;
    var v, s, c := ToBytes4(vtor), ToBytes4(|idata|), ToBytes4(crc32(idata));
    var b := v.value + s.value + c.value;
    assert b[0..4] == v.value && b[4..8] == s.value && b[8..12] == c.value;
  }

  /** A load address written as a literal of any base packs into a header led by that address. */
  lemma PackLiteral(vtor: U32, base: nat, idata: seq<U8>, crc32: seq<U8> -> U32)
    requires LiteralBase(base) && |idata| < 0x1_0000_0000
    ensures var p := Pack(Given(Literal(vtor, base)), idata, crc32);
      p.Header? && FromLittleEndian(p.bytes[0..4]) == vtor
  {
    AnyIntLiteral(vtor, base);
    PackFields(Given(Literal(vtor, base)), idata, crc32);
  }
}
