// The signal and byte layer of a GPIB interface: asserting, clearing and
// releasing lines (GPIB lines are active low), and packing a data byte onto
// the eight DIO lines and back.

module Interface {
  import opened Types
  import opened Bus

  /** Bit k of a byte is 1. */
  predicate ByteBit(b: Byte, k: nat)
    requires k < 8
  {
    BitOf(b, k)
  }

  lemma Pow2Eight()
    ensures Pow2(8) == 0x100
  {
  }

  /**
   * The low eight bits of a word, as the uint8_t they are truncated to: bit k
   * of the byte is line k of the word.
   */
  function Low8(w: Word): (b: Byte)
    ensures forall k :: 0 <= k < 8 ==> (ByteBit(b, k) <==> k in w)
  {
    Pow2Eight();
    forall k | 0 <= k < 8 ensures ByteBit(ValueBelow(w, 8), k) <==> k in w {
      BitOfValueBelow(w, 8, k);
    }
    ValueBelow(w, 8)
  }

  /** A byte is determined by its eight bits. */
  lemma ByteExt(a: Byte, b: Byte)
    requires forall k :: 0 <= k < 8 ==> (ByteBit(a, k) <==> ByteBit(b, k))
    ensures a == b
  {
    Pow2Eight();
    forall k | 0 <= k < 8 ensures BitOf(a, k) <==> BitOf(b, k) {
      assert ByteBit(a, k) <==> ByteBit(b, k);
    }
    BitsExt(a, b, 8);
  }

  /** The byte with only bit k set, `1 << k`. */
  function ByteMask(k: nat): (b: Byte)
    requires k < 8
    ensures forall j :: 0 <= j < 8 ==> (ByteBit(b, j) <==> j == k)
  {
    ValueBelowSingle(k, 8);
    Low8({k})
  }

  /**
   * The byte read from the data lines (loadDataByte): the input word under the
   * data mask, each DIO line's own bit kept in place, truncated to a byte.
   */
  function LoadDataByte(bit: GPIBMasks, mask: GroupMask, input: Word): Byte {
    var v := Get(input, mask.dio);
    Low8((bit.DIO1 * v) + (bit.DIO2 * v) + (bit.DIO3 * v) + (bit.DIO4 * v) +
         (bit.DIO5 * v) + (bit.DIO6 * v) + (bit.DIO7 * v) + (bit.DIO8 * v))
  }

  /** readGpibDbus is loadDataByte. */
  function ReadGpibDbus(bit: GPIBMasks, mask: GroupMask, input: Word): (b: Byte)
    ensures b == LoadDataByte(bit, mask, input)
  {
    LoadDataByte(bit, mask, input)
  }

  /**
   * The word of the first n data-line masks whose byte bit is 1: the OR, for
   * k below n, of masks[k] when bit k of the byte is 1.
   */
  function PushBits(masks: seq<Word>, b: Byte, n: nat): Word
    requires n <= |masks| && n <= 8
  {
    if n == 0 then {} else PushBits(masks, b, n - 1) + (if ByteBit(b, n - 1) then masks[n - 1] else {})
  }

  /** A line is in the pushed word exactly when some set byte bit selects a mask holding it. */
  lemma {:induction false} PushBitsLines(masks: seq<Word>, b: Byte, n: nat, q: Line)
    requires n <= |masks| && n <= 8
    ensures q in PushBits(masks, b, n) <==> exists k :: 0 <= k < n && q in masks[k] && ByteBit(b, k)
  {
    if n != 0 {
      PushBitsLines(masks, b, n - 1, q);
      if q in masks[n - 1] && ByteBit(b, n - 1) {
        assert 0 <= n - 1 < n && q in masks[n - 1] && ByteBit(b, n - 1);
      }
    }
  }

  /**
   * The output word pushDataByte writes under the data mask: line DIO(k+1)
   * set when bit k of the byte is 1, for k from 0 to 7.
   */
  function PushWord(bit: GPIBMasks, b: Byte): Word {
    PushBits(bit.Dio(), b, 8)
  }

  /** Some line of m reads high (getGpibPinState). */
  predicate PinState(input: Word, m: Word) {
    Get(input, m) != {}
  }

  /**
   * The signal is asserted (isAsserted): GPIB lines are active low, and the
   * test holds exactly when every line of m reads low.
   */
  predicate IsAsserted(input: Word, m: Word)
    ensures IsAsserted(input, m) <==> forall q :: q in m ==> q !in input
  {
    !PinState(input, m)
  }

  /** For a single-line mask, asserted and high are opposite. */
  lemma AssertedSingle(input: Word, p: Line)
    ensures IsAsserted(input, {p}) <==> p !in input
    ensures PinState(input, {p}) <==> p in input
  {
    assert p in Get(input, {p}) <==> p in input;
  }

  /**
   * On the masks of a pin table, the pushed word has the line of DIO(k+1)
   * exactly when bit k of the byte is 1, and no line outside the data group.
   */
  lemma PushWordLines(p: GPIBPins, b: Byte, q: Line)
    ensures PushWord(GetPinMask(p), b) <= DioMask(p)
    ensures q in PushWord(GetPinMask(p), b) <==>
              exists k :: 0 <= k < 8 && p.Dio()[k] == q && ByteBit(b, k)
  {
    var masks := GetPinMask(p).Dio();
    assert forall k :: 0 <= k < 8 ==> masks[k] == {p.Dio()[k]};
    PushBitsLines(masks, b, 8, q);
    forall x | x in PushWord(GetPinMask(p), b) ensures x in DioMask(p) {
      PushBitsLines(masks, b, 8, x);
    }
  }

  /**
   * On the masks of a pin table, bit k of the byte read is 1 exactly when line
   * k is one of the data pins and reads high: only DIO lines wired to GPIO 0-7
   * contribute, each at its own GPIO bit position.
   */
  lemma LoadDataBits(p: GPIBPins, input: Word, k: nat)
    requires k < 8
    ensures ByteBit(LoadDataByte(GetPinMask(p), GetGroupMask(p), input), k) <==>
              k in input && k in p.Dio()
  {
  }

  /** The data lines are wired straight: DIO(k+1) is GPIO k for every k. */
  predicate StraightData(p: GPIBPins) {
    p.DIO1 == 0 && p.DIO2 == 1 && p.DIO3 == 2 && p.DIO4 == 3 &&
    p.DIO5 == 4 && p.DIO6 == 5 && p.DIO7 == 6 && p.DIO8 == 7
  }

  /** On straight data wiring, reading back a pushed byte gives that byte. */
  lemma LoopbackStraight(p: GPIBPins, b: Byte)
    requires StraightData(p)
    ensures LoadDataByte(GetPinMask(p), GetGroupMask(p), PushWord(GetPinMask(p), b)) == b
  {
    var bit := GetPinMask(p);
    var r := LoadDataByte(bit, GetGroupMask(p), PushWord(bit, b));
    forall k | 0 <= k < 8 ensures ByteBit(r, k) <==> ByteBit(b, k) {
      LoopbackBit(p, b, k);
    }
    ByteExt(r, b);
  }

  /** One bit of the straight round trip. */
  lemma LoopbackBit(p: GPIBPins, b: Byte, k: nat)
    requires StraightData(p) && k < 8
    ensures ByteBit(LoadDataByte(GetPinMask(p), GetGroupMask(p), PushWord(GetPinMask(p), b)), k) <==> ByteBit(b, k)
  {
    var d := p.Dio();
    assert forall j :: 0 <= j < 8 ==> d[j] == j;
    LoadDataBits(p, PushWord(GetPinMask(p), b), k);
    PushWordLines(p, b, k);
    if k in PushWord(GetPinMask(p), b) {
      var j :| 0 <= j < 8 && d[j] == k && ByteBit(b, j);
    }
  }

  /**
   * If DIO(k+1) is not GPIO k, the byte 1 << k does not survive the round
   * trip: its bit k reads back as 0.
   */
  lemma LoopbackMiswired(p: GPIBPins, k: nat)
    requires k < 8 && p.Dio()[k] != k
    ensures LoadDataByte(GetPinMask(p), GetGroupMask(p), PushWord(GetPinMask(p), ByteMask(k))) != ByteMask(k)
  {
    var bit := GetPinMask(p);
    var b := ByteMask(k);
    var r := LoadDataByte(bit, GetGroupMask(p), PushWord(bit, b));
    LoadDataBits(p, PushWord(bit, b), k);
    PushWordLines(p, b, k);
    assert !ByteBit(r, k);
  }

  /**
   * Reading back the pushed word gives the byte that was pushed, for every
   * byte, exactly when DIO(k+1) is wired to GPIO k for every k.
   */
  lemma Loopback(p: GPIBPins)
    ensures (forall b: Byte :: LoadDataByte(GetPinMask(p), GetGroupMask(p), PushWord(GetPinMask(p), b)) == b)
            <==> StraightData(p)
  {
    if StraightData(p) {
      forall b: Byte
        ensures LoadDataByte(GetPinMask(p), GetGroupMask(p), PushWord(GetPinMask(p), b)) == b
      {
        LoopbackStraight(p, b);
      }
    } else {
      var d := p.Dio();
      var k: nat := if d[0] != 0 then 0 else if d[1] != 1 then 1 else if d[2] != 2 then 2
                    else if d[3] != 3 then 3 else if d[4] != 4 then 4 else if d[5] != 5 then 5
                    else if d[6] != 6 then 6 else 7;
      LoopbackMiswired(p, k);
    }
  }

  /**
   * The GPIB signal interface: a pin table, the one-line masks and the group
   * masks derived from it, and the register bank it drives.
   */
  class GPIBIOInterface {
    const pinout: GPIBPins
    const bit: GPIBMasks
    const mask: GroupMask
    const bus: GPIBBus

    /** The masks are the ones the pin table gives (fixed at construction). */
    ghost predicate Wired() {
      bit == GetPinMask(pinout) && mask == GetGroupMask(pinout)
    }

    ghost predicate Valid()
      reads bus
    {
      bus.Valid()
    }

    constructor (pinout: GPIBPins, config: Config, dir0: Word, out0: Word)
      ensures this.pinout == pinout && Wired() && Valid() && fresh(bus)
      ensures bus.config == config && bus.trace == [] && bus.dir == dir0 && bus.out == out0
    {
      this.pinout := pinout;
      bit := GetPinMask(pinout);
      mask := GetGroupMask(pinout);
      bus := new GPIBBus(config, dir0, out0);
    }

    /** Drive the byte onto the data lines: a 1 bit drives its line high. */
    method PushDataByte(b: Byte)
      requires Valid()
      modifies bus
      ensures Valid()
      ensures bus.trace == old(bus.trace) + [Put(mask.dio, PushWord(bit, b))]
    {
      bus.Put(mask.dio, PushWord(bit, b));
    }

    /** Release the masked lines to inputs with pull-ups. */
    method ResetBus(m: Word)
      requires Valid()
      modifies bus
      ensures Valid()
      ensures bus.trace == old(bus.trace) + [SetMode(m, InputPullup)]
    {
      bus.SetMode(m, InputPullup);
    }

    /** Assert the masked signals: drive them low. */
    method AssertSignal(m: Word)
      requires Valid()
      modifies bus
      ensures Valid()
      ensures bus.trace == old(bus.trace) + [SetMode(m, OutputLow)]
    {
      bus.SetMode(m, OutputLow);
    }

    /** Clear (unassert) the masked signals: drive them high. */
    method ClearSignal(m: Word)
      requires Valid()
      modifies bus
      ensures Valid()
      ensures bus.trace == old(bus.trace) + [SetMode(m, OutputHigh)]
    {
      bus.SetMode(m, OutputHigh);
    }

    /** Release the data lines. */
    method ReadyGpibDbus()
      requires Valid()
      modifies bus
      ensures Valid()
      ensures bus.trace == old(bus.trace) + [SetMode(mask.dio, InputPullup)]
    {
      ResetBus(mask.dio);
    }
  }

  /**
   * After pushing a byte on a table of distinct pins, the line of DIO(k+1) is
   * driven high exactly when bit k of the byte is 1: data is not inverted,
   * unlike the active-low control signals.
   */
  lemma PushDrivesData(r: Regs, p: GPIBPins, b: Byte, k: nat)
    requires Distinct(p) && k < 8
    ensures p.Dio()[k] in Apply(r, Put(DioMask(p), PushWord(GetPinMask(p), b))).out <==> ByteBit(b, k)
  {
    var q := p.Dio()[k];
    PushWordLines(p, b, q);
    assert p.Raw()[k] == q;
    if exists j :: 0 <= j < 8 && p.Dio()[j] == q && ByteBit(b, j) {
      var j :| 0 <= j < 8 && p.Dio()[j] == q && ByteBit(b, j);
      assert p.Raw()[j] == q;
    }
  }

  /** Asserting a signal drives its line low; clearing it drives it high. */
  lemma AssertClearLevels(r: Regs, m: Word, q: Line)
    requires q in m
    ensures q in Apply(r, SetMode(m, OutputLow)).dir && q !in Apply(r, SetMode(m, OutputLow)).out
    ensures q in Apply(r, SetMode(m, OutputHigh)).dir && q in Apply(r, SetMode(m, OutputHigh)).out
    ensures q !in Apply(r, SetMode(m, InputPullup)).dir
  {
  }
}
