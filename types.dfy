/**
 * The GPIB pin table of the interface (types.hpp): the sixteen signal pins,
 * the one-line masks and the group masks derived from them, and the
 * configuration record with its enumerations.
 */
module Types {

  /**
   * A GPIO line number.  The pin table holds bytes, but every mask is built
   * by shifting a 32-bit one by the pin number, which is defined only below
   * 32: so a pin is a line number below 32.
   */
  type Line = x: int | 0 <= x < 32
  type Pin = Line

  /**
   * A 32-bit GPIO word (GPIBMask_t, and the input and output words), given
   * as the set of the lines whose bit is 1.  So `a & b` is `a * b`, `a | b`
   * is `a + b`, `a & ~b` is `a - b`, and a word is zero exactly when it is
   * empty.  Value gives the number the set stands for.
   */
  type Word = set<Line>

  type U8 = x: int | 0 <= x < 0x100

  /** A data byte, as carried on the eight DIO lines. */
  type Byte = U8
  type I32 = x: int | -0x8000_0000 <= x < 0x8000_0000
  type U32 = x: int | 0 <= x < 0x1_0000_0000

  type U16 = x: int | 0 <= x < 0x1_0000

  /** n zero bytes (a cleared buffer). */
  function Zeros(n: nat): (z: seq<U8>)
    ensures |z| == n && forall i :: 0 <= i < n ==> z[i] == 0
  {
    seq(n, _ => 0)
  }

  /** Concatenation is associative (stated once, for the proofs that regroup traces and logs). */
  lemma AppendAssoc<T>(a: seq<T>, b: seq<T>, c: seq<T>)
    ensures a + (b + c) == (a + b) + c
  {
  }

  function Pow2(n: nat): (r: nat)
    ensures r >= 1
  {
    if n == 0 then 1 else 2 * Pow2(n - 1)
  }

  /** The number made of the bits of w below line n. */
  function ValueBelow(w: Word, n: nat): (v: nat)
    ensures v < Pow2(n)
  {
    if n == 0 then 0 else ValueBelow(w, n - 1) + (if n - 1 in w then Pow2(n - 1) else 0)
  }

  /** The 32-bit number a word stands for: the sum of 2^q over its lines q. */
  function Value(w: Word): (v: nat) {
    ValueBelow(w, 32)
  }

  lemma Pow2ThirtyTwo()
    ensures Pow2(32) == 0x1_0000_0000
  {
    assert Pow2(8) == 0x100;
    assert Pow2(16) == 0x1_0000;
    assert Pow2(24) == 0x100_0000;
  }

  /** Words are 32-bit numbers, and every set of lines is a distinct one. */
  lemma ValueBound(w: Word)
    ensures Value(w) < 0x1_0000_0000
  {
    Pow2ThirtyTwo();
  }

  lemma {:induction false} ValueBelowSingle(p: Line, n: nat)
    ensures ValueBelow({p}, n) == if p < n then Pow2(p) else 0
  {
    if n != 0 {
      ValueBelowSingle(p, n - 1);
    }
  }

  /** The one-line word of pin p is the number `1 << p`. */
  lemma ValueSingle(p: Line)
    ensures Value({p}) == Pow2(p)
  {
    ValueBelowSingle(p, 32);
  }

  /** Bit k of the number x is 1. */
  function BitOf(x: nat, k: nat): bool {
    if k == 0 then x % 2 == 1 else BitOf(x / 2, k - 1)
  }

  /** A number below 2^k has bit k and every higher bit 0. */
  lemma {:induction false} BitOfSmall(x: nat, k: nat)
    requires x < Pow2(k)
    ensures !BitOf(x, k)
  {
    if k != 0 {
      BitOfSmall(x / 2, k - 1);
    }
  }

  /** Adding 2^m to a smaller number sets bit m and keeps every other bit. */
  lemma {:induction false} BitOfAddHigh(x: nat, m: nat, k: nat)
    requires x < Pow2(m)
    ensures BitOf(x + Pow2(m), k) <==> k == m || BitOf(x, k)
  {
    if k == 0 {
      if m == 0 {
        assert x == 0;
      }
    } else if m == 0 {
      assert x == 0;
      assert BitOf(0, k - 1) == BitOf(0, k) by { ZeroBits(k); ZeroBits(k - 1); }
      ZeroBits(k);
    } else {
      assert (x + Pow2(m)) / 2 == x / 2 + Pow2(m - 1);
      BitOfAddHigh(x / 2, m - 1, k - 1);
    }
  }

  lemma {:induction false} ZeroBits(k: nat)
    ensures !BitOf(0, k)
  {
    if k != 0 {
      ZeroBits(k - 1);
    }
  }

  /** Bit k of the number of a word is line k of the word, for k below the width taken. */
  lemma {:induction false} BitOfValueBelow(w: Word, n: nat, k: nat)
    ensures BitOf(ValueBelow(w, n), k) <==> k < n && k in w
  {
    if n == 0 {
      ZeroBits(k);
    } else {
      var x := ValueBelow(w, n - 1);
      BitOfValueBelow(w, n - 1, k);
      if n - 1 in w {
        BitOfAddHigh(x, n - 1, k);
      }
      if k >= n {
        Pow2Mono(n, k);
        BitOfSmall(ValueBelow(w, n), k);
      }
    }
  }

  lemma {:induction false} Pow2Mono(a: nat, b: nat)
    requires a <= b
    ensures Pow2(a) <= Pow2(b)
    decreases b
  {
    if a < b {
      Pow2Mono(a, b - 1);
    }
  }

  /** Two numbers below 2^n with the same n low bits are equal. */
  lemma {:induction false} BitsExt(a: nat, b: nat, n: nat)
    requires a < Pow2(n) && b < Pow2(n)
    requires forall k :: 0 <= k < n ==> (BitOf(a, k) <==> BitOf(b, k))
    ensures a == b
  {
    if n != 0 {
      assert BitOf(a, 0) == BitOf(b, 0);
      forall k | 0 <= k < n - 1 ensures BitOf(a / 2, k) <==> BitOf(b / 2, k) {
        assert BitOf(a, k + 1) == BitOf(a / 2, k);
        assert BitOf(b, k + 1) == BitOf(b / 2, k);
      }
      BitsExt(a / 2, b / 2, n - 1);
    }
  }

  /** The empty word is the number zero. */
  lemma {:induction false} ValueBelowEmpty(n: nat)
    ensures ValueBelow({}, n) == 0
  {
    if n != 0 {
      ValueBelowEmpty(n - 1);
    }
  }

  /** On words that share no line, OR is addition. */
  lemma {:induction false} ValueBelowDisjoint(a: Word, b: Word, n: nat)
    requires a * b == {}
    ensures ValueBelow(a + b, n) == ValueBelow(a, n) + ValueBelow(b, n)
  {
    if n != 0 {
      ValueBelowDisjoint(a, b, n - 1);
      assert ValueBelow(a + b, n) == ValueBelow(a + b, n - 1) + (if n - 1 in a + b then Pow2(n - 1) else 0);
      assert n - 1 in a + b <==> n - 1 in a || n - 1 in b;
      assert n - 1 !in a * b;
      assert ValueBelow(a, n) == ValueBelow(a, n - 1) + (if n - 1 in a then Pow2(n - 1) else 0);
      assert ValueBelow(b, n) == ValueBelow(b, n - 1) + (if n - 1 in b then Pow2(n - 1) else 0);
    }
  }

  /** The sixteen GPIB signals of one interface, in declaration order. */
  datatype GPIBIO<T> = GPIBIO(
    DIO1: T, DIO2: T, DIO3: T, DIO4: T, DIO5: T, DIO6: T, DIO7: T, DIO8: T,
    REN: T, EOI: T, IFC: T, SRQ: T, ATN: T,
    DAV: T, NRFD: T, NDAC: T)
  {
    /** The eight data lines. */
    function Dio(): seq<T> {
      [DIO1, DIO2, DIO3, DIO4, DIO5, DIO6, DIO7, DIO8]
    }

    /** The five interface management lines. */
    function Ctrl(): seq<T> {
      [REN, EOI, IFC, SRQ, ATN]
    }

    /** The three handshake lines. */
    function Hand(): seq<T> {
      [DAV, NRFD, NDAC]
    }

    /** The same function applied to every signal. */
    function Map<U>(f: T -> U): GPIBIO<U> {
      GPIBIO(f(DIO1), f(DIO2), f(DIO3), f(DIO4), f(DIO5), f(DIO6), f(DIO7), f(DIO8),
             f(REN), f(EOI), f(IFC), f(SRQ), f(ATN), f(DAV), f(NRFD), f(NDAC))
    }

    /** The raw array view of the same sixteen values (`__raw_pinout`). */
    function Raw(): (s: seq<T>)
      ensures |s| == 16
    {
      Dio() + Ctrl() + Hand()
    }
  }

  /** The named view of a raw sixteen-value array. */
  function FromRaw<T>(s: seq<T>): GPIBIO<T>
    requires |s| == 16
  {
    GPIBIO(s[0], s[1], s[2], s[3], s[4], s[5], s[6], s[7],
           s[8], s[9], s[10], s[11], s[12], s[13], s[14], s[15])
  }

  /**
   * The raw array and the named fields are two views of the same sixteen
   * values, the array listing DIO1..DIO8, REN, EOI, IFC, SRQ, ATN, DAV,
   * NRFD, NDAC.
   */
  lemma RawRoundTrip<T>(x: GPIBIO<T>, s: seq<T>)
    requires |s| == 16
    ensures FromRaw(x.Raw()) == x
    ensures FromRaw(s).Raw() == s
    ensures x.Raw() == [x.DIO1, x.DIO2, x.DIO3, x.DIO4, x.DIO5, x.DIO6, x.DIO7, x.DIO8,
                        x.REN, x.EOI, x.IFC, x.SRQ, x.ATN, x.DAV, x.NRFD, x.NDAC]
  {
    assert FromRaw(s).Raw() == s by {
      var r := FromRaw(s).Raw();
      forall i | 0 <= i < 16 ensures r[i] == s[i] { }
    }
  }

  type GPIBPins = GPIBIO<Pin>
  type GPIBMasks = GPIBIO<Word>

  /** No GPIO carries two signals. */
  predicate Distinct(p: GPIBPins) {
    forall i, j :: 0 <= i < j < 16 ==> p.Raw()[i] != p.Raw()[j]
  }

  /** The word with exactly the listed lines set: the OR of their one-line masks. */
  function Lines(s: seq<Line>): (w: Word)
    ensures forall q :: q in w <==> q in s
  {
    set q | q in s
  }

  function DioMask(p: GPIBPins): Word {
    Lines(p.Dio())
  }

  function CtrlMask(p: GPIBPins): Word {
    Lines(p.Ctrl())
  }

  function HandMask(p: GPIBPins): Word {
    Lines(p.Hand())
  }

  function AllMask(p: GPIBPins): Word {
    DioMask(p) + CtrlMask(p) + HandMask(p)
  }

  /** The whole bus sets exactly the lines of the pin table. */
  lemma AllMaskLines(p: GPIBPins)
    ensures AllMask(p) == Lines(p.Raw())
  {
    assert p.Raw() == p.Dio() + p.Ctrl() + p.Hand();
  }

  /** Applying a function to every signal applies it to every entry of the raw array. */
  lemma MapRaw<T, U>(x: GPIBIO<T>, f: T -> U, i: nat)
    requires i < 16
    ensures x.Map(f).Raw()[i] == f(x.Raw()[i])
  {
    RawRoundTrip(x, x.Raw());
    RawRoundTrip(x.Map(f), x.Map(f).Raw());
  }

  function OneLine(p: Pin): Word {
    {p}
  }

  /** The one-line mask of every signal (`1 << pin`). */
  function GetPinMask(p: GPIBPins): GPIBMasks {
    p.Map(OneLine)
  }

  /**
   * Every signal's mask is the number `1 << pin` of that signal's own pin: a
   * single bit, setting that pin's line and no other.
   */
  lemma PinMaskSingle(p: GPIBPins, i: nat)
    requires i < 16
    ensures GetPinMask(p).Raw()[i] == {p.Raw()[i]}
    ensures |GetPinMask(p).Raw()[i]| == 1
    ensures Value(GetPinMask(p).Raw()[i]) == Pow2(p.Raw()[i])
  {
    MapRaw(p, OneLine, i);
    ValueSingle(p.Raw()[i]);
  }

  datatype GroupMask = GroupMask(dio: Word, ctrl: Word, hand: Word, all: Word)

  function GetGroupMask(p: GPIBPins): GroupMask {
    GroupMask(DioMask(p), CtrlMask(p), HandMask(p), AllMask(p))
  }

  /**
   * The group record lists data, control, handshake and all, in that order,
   * each the lines of its own signals, and `all` their OR.
   */
  lemma GroupMaskOrder(p: GPIBPins, q: Line)
    ensures GetGroupMask(p).all == GetGroupMask(p).dio + GetGroupMask(p).ctrl + GetGroupMask(p).hand
    ensures q in GetGroupMask(p).dio <==> q in [p.DIO1, p.DIO2, p.DIO3, p.DIO4, p.DIO5, p.DIO6, p.DIO7, p.DIO8]
    ensures q in GetGroupMask(p).ctrl <==> q in [p.REN, p.EOI, p.IFC, p.SRQ, p.ATN]
    ensures q in GetGroupMask(p).hand <==> q in [p.DAV, p.NRFD, p.NDAC]
  {
  }

  /** A set drawn from a sequence without repeats has as many elements as the sequence. */
  lemma {:induction false} DistinctCard(s: seq<Line>)
    requires forall i, j :: 0 <= i < j < |s| ==> s[i] != s[j]
    ensures |Lines(s)| == |s|
  {
    if |s| > 0 {
      var t := s[..|s| - 1];
      DistinctCard(t);
      assert Lines(s) == Lines(t) + {s[|s| - 1]} by {
        assert s == t + [s[|s| - 1]];
      }
      assert s[|s| - 1] !in t;
    }
  }

  /** Two stretches of a repeat-free sequence share no element. */
  lemma LinesDisjoint(r: seq<Line>, i: nat, j: nat, k: nat)
    requires i <= j <= k <= |r|
    requires forall x, y :: 0 <= x < y < |r| ==> r[x] != r[y]
    ensures Lines(r[i..j]) * Lines(r[j..k]) == {}
  {
  }

  /**
   * On a table of distinct pins the three groups share no line.  The source checks only that the table is
   * sixteen bytes long, not that the pins differ.
   */
  lemma GroupsDisjoint(p: GPIBPins)
    requires Distinct(p)
    ensures DioMask(p) * CtrlMask(p) == {}
    ensures DioMask(p) * HandMask(p) == {}
    ensures CtrlMask(p) * HandMask(p) == {}
  {
    var r := p.Raw();
    assert r[..8] == p.Dio() && r[8..13] == p.Ctrl() && r[13..] == p.Hand();
    LinesDisjoint(r, 0, 8, 13);
    LinesDisjoint(r, 0, 8, 16);
    assert r[8..16] == p.Ctrl() + p.Hand();
    LinesDisjoint(r, 8, 13, 16);
  }

  /** On a table of distinct pins the whole bus has sixteen lines set. */
  lemma AllMaskSixteen(p: GPIBPins)
    requires Distinct(p)
    ensures |AllMask(p)| == 16
  {
    AllMaskLines(p);
    DistinctCard(p.Raw());
  }

  datatype EOS = CRLF | CR | LF | None
  datatype AMode = Off | Prologix | Onquery | Continuous
  datatype EOR = CRLF | CR | LF | None | LFCR | ETX | CRLF_ETX | SPACE
  datatype IDN = disable | name | name_serial

  /** The interface configuration; it is fixed when the bus is built. */
  datatype Config = Config(
    eoi: bool, caddr: U8, paddr: U8, saddr: U8, eos: EOS, stat: U8,
    amode: AMode, rtmo: I32, vstr: string, eor: EOR, sname: string,
    serial: U32, idn: IDN)

  /** The stock configuration of gpib.hpp. */
  const DefaultConfig: Config :=
    Config(false, 0, 0, 0, EOS.CRLF, 0, Off, 2000, "", EOR.CRLF, "", 1337, name)

  /** The read timeout as the unsigned 32-bit value the handshakes compare against. */
  function TimeVal(c: Config): (t: nat)
    ensures t < 0x1_0000_0000
    ensures 0 <= c.rtmo ==> t == c.rtmo
    ensures c.rtmo < 0 ==> t == c.rtmo + 0x1_0000_0000
  {
    c.rtmo % 0x1_0000_0000
  }
}
