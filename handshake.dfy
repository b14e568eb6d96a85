// The byte handshakes of a GPIB node (node.cpp): the transmit modes of the
// handshake lines, the acceptor handshake that reads one byte (readByte) and
// the source handshake that writes one (writeByte).  Each handshake is a loop
// of steps, one per sample of the bus lines, bounded by the read timeout on
// the wrapping 32-bit millisecond clock.

module Handshake {
  import opened Types
  import opened Bus
  import opened Interface

  /** The phases of a byte handshake, shared by reading and writing. */
  datatype HandshakeState =
    | Start | Complete | IfcAsserted | AtnAsserted
    | WaitForData | ReadData | DataAccepted
    | WaitForReceiverReady | PlaceData | DataReady | ReceiverAccepting

  /** The role of a node; only a device checks IFC and ATN during a handshake. */
  datatype NType = Device | Controller

  datatype TransmitMode = TmIdle | TmRecv | TmSend

  /** The handshake was abandoned because IFC or ATN was seen. */
  predicate Aborted(st: HandshakeState) {
    st == IfcAsserted || st == AtnAsserted
  }

  /**
   * What every handshake of one node shares: its role, the one-line masks
   * and group masks of its interface (io.bit, io.mask), the read timeout and
   * the configuration's EOI flag.
   */
  datatype Link = Link(nt: NType, bit: GPIBMasks, mask: GroupMask, tv: nat, eoi: bool)

  /** The link of a node on a pin table. */
  function LinkOf(nt: NType, p: GPIBPins, cfg: Config): Link {
    Link(nt, GetPinMask(p), GetGroupMask(p), TimeVal(cfg), cfg.eoi)
  }

  // ---------------------------------------------------------------------------
  // Transmit modes

  /**
   * The line operations of setTransmitMode: idle releases the handshake
   * group; receiving listens to DAV and EOI and drives NRFD and NDAC high;
   * sending listens to NRFD and NDAC and drives DAV and EOI high.
   */
  function TransmitOps(b: GPIBMasks, m: GroupMask, mode: TransmitMode): seq<Op> {
    match mode
    case TmIdle => [SetMode(m.hand, InputPullup)]
    case TmRecv => [SetMode(b.DAV + b.EOI, InputPullup), SetMode(b.NRFD + b.NDAC, OutputHigh)]
    case TmSend => [SetMode(b.NRFD + b.NDAC, InputPullup), SetMode(b.DAV + b.EOI, OutputHigh)]
  }

  /**
   * On distinct pins, each transmit mode sets exactly the lines it names:
   * idle makes DAV, NRFD and NDAC inputs; receiving makes DAV and EOI inputs
   * and NRFD and NDAC outputs driven high; sending the reverse.  Output levels
   * of released lines and every other line are left as they were.
   */
  lemma TransmitLines(r: Regs, p: GPIBPins, mode: TransmitMode, q: Line)
    requires Distinct(p)
    ensures var r' := Run(r, TransmitOps(GetPinMask(p), GetGroupMask(p), mode));
            match mode
            case TmIdle =>
              (q == p.DAV || q == p.NRFD || q == p.NDAC ==> q !in r'.dir) &&
              (q != p.DAV && q != p.NRFD && q != p.NDAC ==> (q in r'.dir <==> q in r.dir)) &&
              (q in r'.out <==> q in r.out)
            case TmRecv =>
              (q == p.DAV || q == p.EOI ==> q !in r'.dir && (q in r'.out <==> q in r.out)) &&
              (q == p.NRFD || q == p.NDAC ==> q in r'.dir && q in r'.out) &&
              (q != p.DAV && q != p.EOI && q != p.NRFD && q != p.NDAC ==>
                 (q in r'.dir <==> q in r.dir) && (q in r'.out <==> q in r.out))
            case TmSend =>
              (q == p.NRFD || q == p.NDAC ==> q !in r'.dir && (q in r'.out <==> q in r.out)) &&
              (q == p.DAV || q == p.EOI ==> q in r'.dir && q in r'.out) &&
              (q != p.DAV && q != p.EOI && q != p.NRFD && q != p.NDAC ==>
                 (q in r'.dir <==> q in r.dir) && (q in r'.out <==> q in r.out))
  {
    var ops := TransmitOps(GetPinMask(p), GetGroupMask(p), mode);
    assert p.Raw()[9] == p.EOI && p.Raw()[13] == p.DAV && p.Raw()[14] == p.NRFD && p.Raw()[15] == p.NDAC;
    assert p.DAV != p.EOI && p.NRFD != p.EOI && p.NDAC != p.EOI;
    assert p.DAV != p.NRFD && p.DAV != p.NDAC && p.NRFD != p.NDAC;
    if mode == TmIdle {
      RunShort(r, ops[0], ops[0]);
      assert HandMask(p) == {p.DAV, p.NRFD, p.NDAC};
    } else {
      RunShort(r, ops[0], ops[1]);
    }
  }

  // ---------------------------------------------------------------------------
  // Time

  const ClockModulus: nat := 0x1_0000_0000

  /** `current - start` on the unsigned 32-bit millisecond clock. */
  function Elapsed(start: U32, current: U32): U32 {
    (current - start) % ClockModulus
  }

  /**
   * The difference is wrap-safe: a reading d milliseconds after the start
   * gives back d, however the clock wrapped between them.
   */
  lemma ElapsedWrapSafe(start: U32, d: U32)
    ensures Elapsed(start, (start + d) % ClockModulus) == d
  {
    if start + d >= ClockModulus {
      assert (start + d) % ClockModulus == start + d - ClockModulus;
    }
  }

  /** One pass of a handshake loop: the lines it sees, then the clock read at its end. */
  datatype Tick = Tick(lines: Word, millis: U32)

  /**
   * What one handshake sees of the outside world: the lines sampled on entry
   * (the ATN capture of readByte), the clock read on entry, and one tick per
   * pass of the loop.
   */
  datatype ByteEnv = ByteEnv(entry: Word, start: U32, ticks: seq<Tick>)

  /**
   * The clock the loop test compares before pass k: start + 1 before the
   * first pass, then the reading at the end of the previous pass.
   */
  function Now(env: ByteEnv, k: nat): U32
    requires k <= |env.ticks|
  {
    if k == 0 then (env.start + 1) % ClockModulus else env.ticks[k - 1].millis
  }

  /** The ticks last until the timeout: the final reading is past it. */
  predicate Expires(env: ByteEnv, tv: nat) {
    Elapsed(env.start, Now(env, |env.ticks|)) >= tv
  }

  // ---------------------------------------------------------------------------
  // readByte: the acceptor handshake

  /** The loop variables of readByte: the phase, *db, *eoi and run. */
  datatype ReadVars = ReadVars(st: HandshakeState, db: Byte, eoi: bool, run: bool)

  datatype ReadOut = ReadOut(v: ReadVars, ops: seq<Op>)

  /**
   * The device-only abort check at the top of a read pass: IFC asserted
   * aborts, and so does ATN released after it was asserted on entry; the ATN
   * test comes second and wins.
   */
  function ReadAbort(l: Link, atnStat: bool, lines: Word, st: HandshakeState): HandshakeState {
    if l.nt == Device then
      var st1 := if IsAsserted(lines, l.bit.IFC) then IfcAsserted else st;
      if atnStat && !IsAsserted(lines, l.bit.ATN) then AtnAsserted else st1
    else st
  }

  /** One pass of the readByte loop over one sample of the lines. */
  function ReadStep(l: Link, rwe: bool, atnStat: bool, lines: Word, v: ReadVars): ReadOut {
    var st := ReadAbort(l, atnStat, lines, v.st);
    match st
    case Start =>
      ReadOut(v.(st := WaitForData), [SetMode(l.bit.NRFD, OutputHigh)])
    case WaitForData =>
      if !PinState(lines, l.bit.DAV) then ReadOut(v.(st := ReadData), [SetMode(l.bit.NRFD, OutputLow)])
      else ReadOut(v, [])
    case ReadData =>
      var eoi := if rwe && IsAsserted(lines, l.bit.EOI) then true else v.eoi;
      ReadOut(ReadVars(DataAccepted, LoadDataByte(l.bit, l.mask, lines), eoi, v.run),
              [SetMode(l.bit.NDAC, OutputHigh)])
    case DataAccepted =>
      if PinState(lines, l.bit.DAV) then ReadOut(v.(st := Complete), [SetMode(l.bit.NDAC, OutputLow)])
      else ReadOut(v, [])
    case AtnAsserted => ReadOut(v.(st := st, run := false), [])
    case IfcAsserted => ReadOut(v.(st := st, run := false), [])
    case _ => ReadOut(v.(st := st, run := false), [])
  }

  /** The readByte loop from pass k on, while run holds and the timeout has not passed. */
  function ReadLoop(l: Link, rwe: bool, atnStat: bool, env: ByteEnv, k: nat, v: ReadVars): ReadOut
    requires k <= |env.ticks| && Expires(env, l.tv)
    decreases |env.ticks| - k
  {
    if v.run && Elapsed(env.start, Now(env, k)) < l.tv then
      var s := ReadStep(l, rwe, atnStat, env.ticks[k].lines, v);
      var rest := ReadLoop(l, rwe, atnStat, env, k + 1, s.v);
      ReadOut(rest.v, s.ops + rest.ops)
    else
      ReadOut(v, [])
  }

  /** One pass of the readByte loop while it runs, and its end. */
  lemma ReadLoopPass(l: Link, rwe: bool, atnStat: bool, env: ByteEnv, k: nat, v: ReadVars)
    requires k <= |env.ticks| && Expires(env, l.tv)
    ensures v.run && Elapsed(env.start, Now(env, k)) < l.tv ==>
              k < |env.ticks| &&
              var s := ReadStep(l, rwe, atnStat, env.ticks[k].lines, v);
              var rest := ReadLoop(l, rwe, atnStat, env, k + 1, s.v);
              ReadLoop(l, rwe, atnStat, env, k, v) == ReadOut(rest.v, s.ops + rest.ops)
    ensures !(v.run && Elapsed(env.start, Now(env, k)) < l.tv) ==> ReadLoop(l, rwe, atnStat, env, k, v) == ReadOut(v, [])
  {
  }

  /**
   * Advancing a readByte loop's record by one pass: when `whole` is what
   * the operations issued so far followed by the loop from pass k give, it
   * is also what they and this pass's operations followed by the loop from
   * pass k + 1 give.
   */
  lemma ReadLoopAdvance(l: Link, rwe: bool, atnStat: bool, env: ByteEnv, k: nat, v: ReadVars,
                        whole: ReadOut, done: seq<Op>)
    requires k <= |env.ticks| && Expires(env, l.tv)
    requires v.run && Elapsed(env.start, Now(env, k)) < l.tv
    requires whole.v == ReadLoop(l, rwe, atnStat, env, k, v).v
    requires whole.ops == done + ReadLoop(l, rwe, atnStat, env, k, v).ops
    ensures k < |env.ticks|
    ensures var s := ReadStep(l, rwe, atnStat, env.ticks[k].lines, v);
            whole.v == ReadLoop(l, rwe, atnStat, env, k + 1, s.v).v &&
            whole.ops == (done + s.ops) + ReadLoop(l, rwe, atnStat, env, k + 1, s.v).ops
  {
    ReadLoopPass(l, rwe, atnStat, env, k, v);
    var s := ReadStep(l, rwe, atnStat, env.ticks[k].lines, v);
    var rest := ReadLoop(l, rwe, atnStat, env, k + 1, s.v);
    assert done + (s.ops + rest.ops) == (done + s.ops) + rest.ops;
  }

  /** Whether ATN was asserted on entry to readByte. */
  function AtnStat(l: Link, env: ByteEnv): bool {
    IsAsserted(env.entry, l.bit.ATN)
  }

  /**
   * readByte: the handshake state it returns, the byte left in *db (db0 when
   * none was sampled), *eoi, and the line operations it issued.
   */
  function ReadRun(l: Link, rwe: bool, env: ByteEnv, db0: Byte): ReadOut
    requires Expires(env, l.tv)
  {
    ReadLoop(l, rwe, AtnStat(l, env), env, 0, ReadVars(Start, db0, false, true))
  }

  /**
   * A property of what a read has issued and of its loop variables that
   * every pass keeps.
   */
  ghost predicate ReadKeeps(l: Link, rwe: bool, atnStat: bool, env: ByteEnv, inv: (seq<Op>, ReadVars) -> bool) {
    forall acc: seq<Op>, i: nat, v: ReadVars ::
      i < |env.ticks| && inv(acc, v) && v.run ==>
        inv(acc + ReadStep(l, rwe, atnStat, env.ticks[i].lines, v).ops, ReadStep(l, rwe, atnStat, env.ticks[i].lines, v).v)
  }

  /** What every pass keeps, the whole loop keeps. */
  lemma {:induction false} ReadLoopKeeps(l: Link, rwe: bool, atnStat: bool, env: ByteEnv, k: nat,
                                         v: ReadVars, acc: seq<Op>, inv: (seq<Op>, ReadVars) -> bool)
    requires k <= |env.ticks| && Expires(env, l.tv)
    requires ReadKeeps(l, rwe, atnStat, env, inv) && inv(acc, v)
    ensures inv(acc + ReadLoop(l, rwe, atnStat, env, k, v).ops, ReadLoop(l, rwe, atnStat, env, k, v).v)
    decreases |env.ticks| - k
  {
    if v.run && Elapsed(env.start, Now(env, k)) < l.tv {
      var s := ReadStep(l, rwe, atnStat, env.ticks[k].lines, v);
      assert inv(acc + s.ops, s.v);
      ReadLoopKeeps(l, rwe, atnStat, env, k + 1, s.v, acc + s.ops, inv);
      var rest := ReadLoop(l, rwe, atnStat, env, k + 1, s.v);
      assert ReadLoop(l, rwe, atnStat, env, k, v) == ReadOut(rest.v, s.ops + rest.ops);
      assert acc + s.ops + rest.ops == acc + (s.ops + rest.ops);
    } else {
      assert acc + [] == acc;
    }
  }

  /** The four line operations of a complete acceptor handshake, in order. */
  function ReadOps(b: GPIBMasks): seq<Op> {
    [SetMode(b.NRFD, OutputHigh), SetMode(b.NRFD, OutputLow),
     SetMode(b.NDAC, OutputHigh), SetMode(b.NDAC, OutputLow)]
  }

  /** The phases readByte passes through, in order. */
  predicate ReadPhase(st: HandshakeState) {
    st == Start || st == WaitForData || st == ReadData || st == DataAccepted || st == Complete
  }

  /** How many of the four operations have been issued on reaching a phase. */
  function ReadProgress(st: HandshakeState): nat {
    match st
    case WaitForData => 1
    case ReadData => 2
    case DataAccepted => 3
    case Complete => 4
    case _ => 0
  }

  /**
   * What a read has issued so far: a prefix of the four operations, exactly
   * as many as the phase reached, and an abort ends the loop.
   */
  predicate ReadInv(b: GPIBMasks, acc: seq<Op>, v: ReadVars) {
    |acc| <= 4 && acc == ReadOps(b)[..|acc|] &&
    (ReadPhase(v.st) ==> |acc| == ReadProgress(v.st)) &&
    (!ReadPhase(v.st) ==> !v.run)
  }

  lemma ReadStepInv(l: Link, rwe: bool, atnStat: bool, lines: Word, v: ReadVars, acc: seq<Op>)
    requires ReadInv(l.bit, acc, v) && v.run
    ensures ReadInv(l.bit, acc + ReadStep(l, rwe, atnStat, lines, v).ops, ReadStep(l, rwe, atnStat, lines, v).v)
  {
    var s := ReadStep(l, rwe, atnStat, lines, v);
    var st := ReadAbort(l, atnStat, lines, v.st);
    if st != v.st {
      assert s.ops == [] && !s.v.run;
    } else if |s.ops| == 1 {
      assert ReadOps(l.bit)[..|acc| + 1] == ReadOps(l.bit)[..|acc|] + [ReadOps(l.bit)[|acc|]];
    }
  }

  /**
   * readByte issues a prefix of clear NRFD, assert NRFD, clear NDAC, assert
   * NDAC, in that order: as many as the phase it returns has reached, and
   * all four when it completes.
   */
  lemma ReadRunOps(l: Link, rwe: bool, env: ByteEnv, db0: Byte)
    requires Expires(env, l.tv)
    ensures var o := ReadRun(l, rwe, env, db0);
            |o.ops| <= 4 && o.ops == ReadOps(l.bit)[..|o.ops|] &&
            (ReadPhase(o.v.st) ==> |o.ops| == ReadProgress(o.v.st)) &&
            (o.v.st == Complete ==> o.ops == ReadOps(l.bit))
  {
    var inv := (acc: seq<Op>, v: ReadVars) => ReadInv(l.bit, acc, v);
    forall acc: seq<Op>, i: nat, v: ReadVars | i < |env.ticks| && inv(acc, v) && v.run
      ensures inv(acc + ReadStep(l, rwe, AtnStat(l, env), env.ticks[i].lines, v).ops,
                  ReadStep(l, rwe, AtnStat(l, env), env.ticks[i].lines, v).v)
    {
      ReadStepInv(l, rwe, AtnStat(l, env), env.ticks[i].lines, v, acc);
    }
    ReadLoopKeeps(l, rwe, AtnStat(l, env), env, 0, ReadVars(Start, db0, false, true), [], inv);
    var o := ReadRun(l, rwe, env, db0);
    assert [] + o.ops == o.ops;
  }

  /**
   * One read pass changes phase only along the acceptor handshake, each
   * move under its own line condition: NRFD is asserted only once DAV reads
   * low, the byte is sampled (and EOI with it) as NDAC is cleared, and NDAC
   * is asserted again only once DAV reads high.  *db and *eoi change only
   * at the sampling.
   */
  lemma ReadStepMoves(l: Link, rwe: bool, atnStat: bool, lines: Word, v: ReadVars)
    requires !Aborted(ReadAbort(l, atnStat, lines, v.st))
    ensures var s := ReadStep(l, rwe, atnStat, lines, v); var b := l.bit;
            (s.v.st == WaitForData && v.st != WaitForData ==>
               v.st == Start && s.ops == [SetMode(b.NRFD, OutputHigh)]) &&
            (s.v.st == ReadData && v.st != ReadData ==>
               v.st == WaitForData && !PinState(lines, b.DAV) && s.ops == [SetMode(b.NRFD, OutputLow)]) &&
            (s.v.st == DataAccepted && v.st != DataAccepted ==>
               v.st == ReadData && s.ops == [SetMode(b.NDAC, OutputHigh)] &&
               s.v.db == LoadDataByte(b, l.mask, lines) &&
               (s.v.eoi <==> v.eoi || (rwe && IsAsserted(lines, b.EOI)))) &&
            (s.v.st == Complete && v.st != Complete ==>
               v.st == DataAccepted && PinState(lines, b.DAV) && s.ops == [SetMode(b.NDAC, OutputLow)]) &&
            (s.v.st != DataAccepted || v.st == DataAccepted ==> s.v.db == v.db && s.v.eoi == v.eoi)
  {
  }

  /**
   * A device abandons a read pass when IFC is asserted or when ATN, asserted
   * on entry, is released; the ATN condition wins, and the loop stops.
   */
  lemma ReadStepAborts(l: Link, rwe: bool, atnStat: bool, lines: Word, v: ReadVars)
    requires l.nt == Device
    ensures var s := ReadStep(l, rwe, atnStat, lines, v);
            (atnStat && !IsAsserted(lines, l.bit.ATN) ==> s.v.st == AtnAsserted && !s.v.run && s.ops == []) &&
            (IsAsserted(lines, l.bit.IFC) && !(atnStat && !IsAsserted(lines, l.bit.ATN)) ==>
               s.v.st == IfcAsserted && !s.v.run && s.ops == [])
  {
  }

  /** *eoi starts false and only a read allowed to see EOI can set it. */
  lemma ReadRunEoi(l: Link, rwe: bool, env: ByteEnv, db0: Byte)
    requires Expires(env, l.tv)
    ensures ReadRun(l, rwe, env, db0).v.eoi ==> rwe
  {
    var inv := (acc: seq<Op>, v: ReadVars) => v.eoi ==> rwe;
    assert ReadKeeps(l, rwe, AtnStat(l, env), env, inv);
    ReadLoopKeeps(l, rwe, AtnStat(l, env), env, 0, ReadVars(Start, db0, false, true), [], inv);
  }

  /** A controller's read never ends in IFC_ASSERTED or ATN_ASSERTED. */
  lemma ControllerReadNoAbort(l: Link, rwe: bool, env: ByteEnv, db0: Byte)
    requires l.nt == Controller && Expires(env, l.tv)
    ensures ReadPhase(ReadRun(l, rwe, env, db0).v.st)
    ensures !Aborted(ReadRun(l, rwe, env, db0).v.st)
  {
    var inv := (acc: seq<Op>, v: ReadVars) => ReadPhase(v.st);
    assert ReadKeeps(l, rwe, AtnStat(l, env), env, inv);
    ReadLoopKeeps(l, rwe, AtnStat(l, env), env, 0, ReadVars(Start, db0, false, true), [], inv);
  }

  /** No talker drives the bus: DAV reads high on every pass. */
  predicate Silent(env: ByteEnv, dav: Word) {
    forall i :: 0 <= i < |env.ticks| ==> PinState(env.ticks[i].lines, dav)
  }

  /** With no talker, a read never gets past waiting for data, so never completes. */
  lemma SilentReadStalls(l: Link, rwe: bool, env: ByteEnv, db0: Byte)
    requires Expires(env, l.tv) && Silent(env, l.bit.DAV)
    ensures ReadRun(l, rwe, env, db0).v.st != Complete
    ensures ReadRun(l, rwe, env, db0).v.db == db0
  {
    var inv := (acc: seq<Op>, v: ReadVars) =>
      v.st != ReadData && v.st != DataAccepted && v.st != Complete && v.db == db0;
    assert ReadKeeps(l, rwe, AtnStat(l, env), env, inv);
    ReadLoopKeeps(l, rwe, AtnStat(l, env), env, 0, ReadVars(Start, db0, false, true), [], inv);
  }

  /**
   * With a timeout of at most one millisecond no pass runs, since the first
   * test sees one elapsed millisecond: readByte returns HANDSHAKE_START with
   * nothing issued and *db untouched.
   */
  lemma ReadNoTime(l: Link, rwe: bool, env: ByteEnv, db0: Byte)
    requires Expires(env, l.tv) && l.tv <= 1
    ensures ReadRun(l, rwe, env, db0) == ReadOut(ReadVars(Start, db0, false, true), [])
  {
    ElapsedWrapSafe(env.start, 1);
  }

  /**
   * For a controller, a completed read stays complete: the next pass takes
   * the default branch and stops the loop, issuing nothing.
   */
  lemma ControllerReadStaysComplete(l: Link, rwe: bool, atnStat: bool, env: ByteEnv, k: nat, v: ReadVars)
    requires l.nt == Controller
    requires k <= |env.ticks| && Expires(env, l.tv) && v.st == Complete
    ensures ReadLoop(l, rwe, atnStat, env, k, v).v.st == Complete
    ensures ReadLoop(l, rwe, atnStat, env, k, v).ops == []
  {
    if v.run && Elapsed(env.start, Now(env, k)) < l.tv {
      var s := ReadStep(l, rwe, atnStat, env.ticks[k].lines, v);
      assert !s.v.run && s.ops == [];
      assert ReadLoop(l, rwe, atnStat, env, k + 1, s.v) == ReadOut(s.v, []);
    }
  }

  /**
   * For a device the abort check also runs on the pass after completion: if
   * time remains and IFC is then asserted, the completed read is reported
   * as aborted.
   */
  lemma DeviceReadLosesComplete(l: Link, rwe: bool, atnStat: bool, env: ByteEnv, k: nat, v: ReadVars)
    requires l.nt == Device
    requires k < |env.ticks| && Expires(env, l.tv) && v.st == Complete && v.run
    requires Elapsed(env.start, Now(env, k)) < l.tv
    requires IsAsserted(env.ticks[k].lines, l.bit.IFC)
    ensures Aborted(ReadLoop(l, rwe, atnStat, env, k, v).v.st)
  {
    var s := ReadStep(l, rwe, atnStat, env.ticks[k].lines, v);
    assert Aborted(s.v.st) && !s.v.run;
    assert ReadLoop(l, rwe, atnStat, env, k + 1, s.v) == ReadOut(s.v, []);
  }

  // ---------------------------------------------------------------------------
  // writeByte: the source handshake

  datatype WriteVars = WriteVars(st: HandshakeState, run: bool)

  datatype WriteOut = WriteOut(v: WriteVars, ops: seq<Op>)

  /**
   * The device-only abort check at the top of a write pass: IFC asserted
   * aborts, and ATN asserted aborts and wins.
   */
  function WriteAbort(l: Link, lines: Word, st: HandshakeState): HandshakeState {
    if l.nt == Device then
      var st1 := if IsAsserted(lines, l.bit.IFC) then IfcAsserted else st;
      if IsAsserted(lines, l.bit.ATN) then AtnAsserted else st1
    else st
  }

  /** DAV, together with EOI when EOI is to mark this byte. */
  function DavMask(b: GPIBMasks, withEoi: bool): Word {
    if withEoi then b.DAV + b.EOI else b.DAV
  }

  /** Placing the byte: drive the data lines, then assert DAV (with EOI when it marks the byte). */
  function PlaceOps(l: Link, db: Byte, withEoi: bool): seq<Op> {
    [Put(l.mask.dio, PushWord(l.bit, db)), SetMode(DavMask(l.bit, withEoi), OutputLow)]
  }

  /** One pass of the writeByte loop. */
  function WriteStep(l: Link, db: Byte, last: bool, lines: Word, v: WriteVars): WriteOut {
    var st := WriteAbort(l, lines, v.st);
    match st
    case Start =>
      if !PinState(lines, l.bit.NDAC) then WriteOut(v.(st := WaitForReceiverReady), []) else WriteOut(v, [])
    case WaitForReceiverReady =>
      if PinState(lines, l.bit.NRFD) then WriteOut(v.(st := PlaceData), []) else WriteOut(v, [])
    case PlaceData =>
      WriteOut(v.(st := DataReady), PlaceOps(l, db, l.eoi && last))
    case DataReady =>
      if !PinState(lines, l.bit.NRFD) then WriteOut(v.(st := ReceiverAccepting), []) else WriteOut(v, [])
    case ReceiverAccepting =>
      if PinState(lines, l.bit.NDAC) then WriteOut(v.(st := Complete), []) else WriteOut(v, [])
    case IfcAsserted => WriteOut(WriteVars(st, false), TransmitOps(l.bit, l.mask, TmRecv))
    case AtnAsserted => WriteOut(WriteVars(st, false), TransmitOps(l.bit, l.mask, TmRecv))
    case _ => WriteOut(WriteVars(st, false), [])
  }

  /** The writeByte loop from pass k on. */
  function WriteLoop(l: Link, db: Byte, last: bool, env: ByteEnv, k: nat, v: WriteVars): WriteOut
    requires k <= |env.ticks| && Expires(env, l.tv)
    decreases |env.ticks| - k
  {
    if v.run && Elapsed(env.start, Now(env, k)) < l.tv then
      var s := WriteStep(l, db, last, env.ticks[k].lines, v);
      var rest := WriteLoop(l, db, last, env, k + 1, s.v);
      WriteOut(rest.v, s.ops + rest.ops)
    else
      WriteOut(v, [])
  }

  /** One pass of the writeByte loop while it runs, and its end. */
  lemma WriteLoopPass(l: Link, db: Byte, last: bool, env: ByteEnv, k: nat, v: WriteVars)
    requires k <= |env.ticks| && Expires(env, l.tv)
    ensures v.run && Elapsed(env.start, Now(env, k)) < l.tv ==>
              k < |env.ticks| &&
              var s := WriteStep(l, db, last, env.ticks[k].lines, v);
              var rest := WriteLoop(l, db, last, env, k + 1, s.v);
              WriteLoop(l, db, last, env, k, v) == WriteOut(rest.v, s.ops + rest.ops)
    ensures !(v.run && Elapsed(env.start, Now(env, k)) < l.tv) ==> WriteLoop(l, db, last, env, k, v) == WriteOut(v, [])
  {
  }

  /** Advancing a writeByte loop's record by one pass (as ReadLoopAdvance). */
  lemma WriteLoopAdvance(l: Link, db: Byte, last: bool, env: ByteEnv, k: nat, v: WriteVars,
                         whole: WriteOut, done: seq<Op>)
    requires k <= |env.ticks| && Expires(env, l.tv)
    requires v.run && Elapsed(env.start, Now(env, k)) < l.tv
    requires whole.v == WriteLoop(l, db, last, env, k, v).v
    requires whole.ops == done + WriteLoop(l, db, last, env, k, v).ops
    ensures k < |env.ticks|
    ensures var s := WriteStep(l, db, last, env.ticks[k].lines, v);
            whole.v == WriteLoop(l, db, last, env, k + 1, s.v).v &&
            whole.ops == (done + s.ops) + WriteLoop(l, db, last, env, k + 1, s.v).ops
  {
    WriteLoopPass(l, db, last, env, k, v);
    var s := WriteStep(l, db, last, env.ticks[k].lines, v);
    var rest := WriteLoop(l, db, last, env, k + 1, s.v);
    assert done + (s.ops + rest.ops) == (done + s.ops) + rest.ops;
  }

  /**
   * The operations after a completed write: release DAV (and EOI when it was
   * asserted), zero the data lines and release them.
   */
  function FinishOps(l: Link, withEoi: bool): seq<Op> {
    [SetMode(DavMask(l.bit, withEoi), OutputHigh), Put(l.mask.dio, {}), SetMode(l.mask.dio, InputPullup)]
  }

  /** writeByte: the state it returns and every line operation it issued. */
  function WriteRun(l: Link, db: Byte, last: bool, env: ByteEnv): WriteOut
    requires Expires(env, l.tv)
  {
    var o := WriteLoop(l, db, last, env, 0, WriteVars(Start, true));
    if o.v.st == Complete then WriteOut(o.v, o.ops + FinishOps(l, l.eoi && last)) else o
  }

  predicate WritePhase(st: HandshakeState) {
    st == Start || st == WaitForReceiverReady || st == PlaceData ||
    st == DataReady || st == ReceiverAccepting || st == Complete
  }

  /** Whether the data has been placed on reaching a phase. */
  predicate WritePlaced(st: HandshakeState) {
    st == DataReady || st == ReceiverAccepting || st == Complete
  }

  /**
   * What a write has issued so far: the placing once the data is placed and
   * nothing before; on an abort, one of those followed by the receive mode,
   * and the loop stopped.
   */
  predicate WriteInv(l: Link, db: Byte, withEoi: bool, acc: seq<Op>, v: WriteVars) {
    (WritePhase(v.st) ==> acc == (if WritePlaced(v.st) then PlaceOps(l, db, withEoi) else [])) &&
    (Aborted(v.st) ==>
       !v.run &&
       (acc == TransmitOps(l.bit, l.mask, TmRecv) ||
        acc == PlaceOps(l, db, withEoi) + TransmitOps(l.bit, l.mask, TmRecv))) &&
    (!WritePhase(v.st) ==> !v.run)
  }

  lemma WriteStepInv(l: Link, db: Byte, last: bool, lines: Word, v: WriteVars, acc: seq<Op>)
    requires WriteInv(l, db, l.eoi && last, acc, v) && v.run
    ensures WriteInv(l, db, l.eoi && last, acc + WriteStep(l, db, last, lines, v).ops,
                     WriteStep(l, db, last, lines, v).v)
  {
    assert [] + TransmitOps(l.bit, l.mask, TmRecv) == TransmitOps(l.bit, l.mask, TmRecv);
    assert acc + [] == acc;
  }

  /**
   * A property of what a write has issued and of its loop variables that
   * every pass keeps.
   */
  ghost predicate WriteKeeps(l: Link, db: Byte, last: bool, env: ByteEnv, inv: (seq<Op>, WriteVars) -> bool) {
    forall acc: seq<Op>, i: nat, v: WriteVars ::
      i < |env.ticks| && inv(acc, v) && v.run ==>
        inv(acc + WriteStep(l, db, last, env.ticks[i].lines, v).ops, WriteStep(l, db, last, env.ticks[i].lines, v).v)
  }

  /** What every pass keeps, the whole loop keeps. */
  lemma {:induction false} WriteLoopKeeps(l: Link, db: Byte, last: bool, env: ByteEnv, k: nat,
                                          v: WriteVars, acc: seq<Op>, inv: (seq<Op>, WriteVars) -> bool)
    requires k <= |env.ticks| && Expires(env, l.tv)
    requires WriteKeeps(l, db, last, env, inv) && inv(acc, v)
    ensures inv(acc + WriteLoop(l, db, last, env, k, v).ops, WriteLoop(l, db, last, env, k, v).v)
    decreases |env.ticks| - k
  {
    if v.run && Elapsed(env.start, Now(env, k)) < l.tv {
      var s := WriteStep(l, db, last, env.ticks[k].lines, v);
      assert inv(acc + s.ops, s.v);
      WriteLoopKeeps(l, db, last, env, k + 1, s.v, acc + s.ops, inv);
      var rest := WriteLoop(l, db, last, env, k + 1, s.v);
      assert acc + s.ops + rest.ops == acc + (s.ops + rest.ops);
    } else {
      assert acc + [] == acc;
    }
  }

  /**
   * writeByte issues exactly: on completion, the byte placed with DAV (and
   * EOI only when the configuration enables it and this is the last byte)
   * asserted, then DAV (and that EOI) released and the data lines zeroed
   * and released; short of completion, at most the placing, so DAV stays
   * asserted once placed; on an abort, that prefix followed by the receive
   * transmit mode.
   */
  lemma WriteRunOps(l: Link, db: Byte, last: bool, env: ByteEnv)
    requires Expires(env, l.tv)
    ensures var o := WriteRun(l, db, last, env);
            (o.v.st == Complete ==> o.ops == PlaceOps(l, db, l.eoi && last) + FinishOps(l, l.eoi && last)) &&
            (WritePhase(o.v.st) && o.v.st != Complete ==>
               o.ops == (if WritePlaced(o.v.st) then PlaceOps(l, db, l.eoi && last) else [])) &&
            (Aborted(o.v.st) ==>
               o.ops == TransmitOps(l.bit, l.mask, TmRecv) ||
               o.ops == PlaceOps(l, db, l.eoi && last) + TransmitOps(l.bit, l.mask, TmRecv))
  {
    var inv := (acc: seq<Op>, v: WriteVars) => WriteInv(l, db, l.eoi && last, acc, v);
    forall acc: seq<Op>, i: nat, v: WriteVars | i < |env.ticks| && inv(acc, v) && v.run
      ensures inv(acc + WriteStep(l, db, last, env.ticks[i].lines, v).ops,
                  WriteStep(l, db, last, env.ticks[i].lines, v).v)
    {
      WriteStepInv(l, db, last, env.ticks[i].lines, v, acc);
    }
    WriteLoopKeeps(l, db, last, env, 0, WriteVars(Start, true), [], inv);
    var o := WriteLoop(l, db, last, env, 0, WriteVars(Start, true));
    assert [] + o.ops == o.ops;
  }

  /**
   * One write pass changes phase only along the source handshake, each move
   * under its own line condition: receivers at attention (NDAC low), ready
   * (NRFD high), accepting (NRFD low) and done (NDAC high).
   */
  lemma WriteStepMoves(l: Link, db: Byte, last: bool, lines: Word, v: WriteVars)
    requires !Aborted(WriteAbort(l, lines, v.st))
    ensures var s := WriteStep(l, db, last, lines, v); var b := l.bit;
            (s.v.st == WaitForReceiverReady && v.st != WaitForReceiverReady ==>
               v.st == Start && !PinState(lines, b.NDAC) && s.ops == []) &&
            (s.v.st == PlaceData && v.st != PlaceData ==>
               v.st == WaitForReceiverReady && PinState(lines, b.NRFD) && s.ops == []) &&
            (s.v.st == DataReady && v.st != DataReady ==>
               v.st == PlaceData && s.ops == PlaceOps(l, db, l.eoi && last)) &&
            (s.v.st == ReceiverAccepting && v.st != ReceiverAccepting ==>
               v.st == DataReady && !PinState(lines, b.NRFD) && s.ops == []) &&
            (s.v.st == Complete && v.st != Complete ==>
               v.st == ReceiverAccepting && PinState(lines, b.NDAC) && s.ops == [])
  {
  }

  /**
   * A device abandons a write pass when IFC or ATN is asserted, ATN
   * winning, and switches to receiving.
   */
  lemma WriteStepAborts(l: Link, db: Byte, last: bool, lines: Word, v: WriteVars)
    requires l.nt == Device
    ensures var s := WriteStep(l, db, last, lines, v);
            (IsAsserted(lines, l.bit.ATN) ==>
               s.v.st == AtnAsserted && !s.v.run && s.ops == TransmitOps(l.bit, l.mask, TmRecv)) &&
            (IsAsserted(lines, l.bit.IFC) && !IsAsserted(lines, l.bit.ATN) ==>
               s.v.st == IfcAsserted && !s.v.run && s.ops == TransmitOps(l.bit, l.mask, TmRecv))
  {
  }

  /** A controller's write never ends in IFC_ASSERTED or ATN_ASSERTED. */
  lemma ControllerWriteNoAbort(l: Link, db: Byte, last: bool, env: ByteEnv)
    requires l.nt == Controller && Expires(env, l.tv)
    ensures WritePhase(WriteRun(l, db, last, env).v.st)
    ensures !Aborted(WriteRun(l, db, last, env).v.st)
  {
    var inv := (acc: seq<Op>, v: WriteVars) => WritePhase(v.st);
    assert WriteKeeps(l, db, last, env, inv);
    WriteLoopKeeps(l, db, last, env, 0, WriteVars(Start, true), [], inv);
  }

  /** With a timeout of at most one millisecond writeByte does nothing and returns HANDSHAKE_START. */
  lemma WriteNoTime(l: Link, db: Byte, last: bool, env: ByteEnv)
    requires Expires(env, l.tv) && l.tv <= 1
    ensures WriteRun(l, db, last, env) == WriteOut(WriteVars(Start, true), [])
  {
    ElapsedWrapSafe(env.start, 1);
  }
}
