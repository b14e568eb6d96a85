// The GPIB node as the firmware runs it (node.cpp, controller.cpp): an
// object over one signal interface whose methods drive the register bank
// step by step, loop over the byte handshakes and update the node's state.
// Each method is proved to do exactly what the matching function of the
// Handshake and Transfer modules describes, so every property proved there
// holds of the running node.

module GpibNode {
  import opened Types
  import opened Bus
  import opened Interface
  import opened Handshake
  import opened Transfer

  /**
   * The receive buffer receiveData pushes into: an append-only sequence of
   * bytes with the caller's terminator test over what it holds.
   */
  class DataBuffer {
    var contents: seq<Byte>
    const hasTerminator: (seq<Byte>, EOR) -> bool

    constructor (hasTerminator: (seq<Byte>, EOR) -> bool)
      ensures contents == [] && this.hasTerminator == hasTerminator
    {
      contents := [];
      this.hasTerminator := hasTerminator;
    }

    /** Append one byte. */
    method Push(b: Byte)
      modifies this
      ensures contents == old(contents) + [b]
    {
      contents := contents + [b];
    }

    /** Whether the bytes so far end with the terminator EOR names. */
    function HasTerminator(eor: EOR): bool
      reads this
    {
      hasTerminator(contents, eor)
    }
  }

  /**
   * A node on the bus: its signal interface, its role, the other parties on
   * the bus, its state and deviceAddressed, how many line tests and byte
   * handshakes it has made, and (as a record only) every handshake it made.
   */
  class Node {
    const io: GPIBIOInterface
    const ntype: NType
    const peer: Peer
    var state: State
    var deviceAddressed: bool
    var ns: nat
    var nh: nat
    ghost var log: seq<Xfer>

    /** The link every handshake of this node uses. */
    function HandshakeLink(): Link {
      Link(ntype, io.bit, io.mask, TimeVal(io.bus.config), io.bus.config.eoi)
    }

    /** What this node's transfers depend on and do not change. */
    function Context(): Ctx {
      Ctx(HandshakeLink(), io.bus.config, peer)
    }

    /** The node's own variables. */
    function Snapshot(): Sys
      reads this
    {
      Sys(state, deviceAddressed, ns, nh)
    }

    ghost predicate Valid()
      reads io.bus
    {
      io.Valid() && CtxOk(Context())
    }

    /** The node's variables, trace and log are what o gives after the trace t0 and the log g0. */
    ghost predicate Done<T>(o: Out<T>, t0: seq<Op>, g0: seq<Xfer>)
      reads this, io.bus
    {
      Snapshot() == o.sys && io.bus.trace == t0 + o.ops && log == g0 + o.log
    }

    constructor (io: GPIBIOInterface, ntype: NType, peer: Peer)
      requires io.Valid() && CtxOk(Ctx(Link(ntype, io.bit, io.mask, TimeVal(io.bus.config), io.bus.config.eoi),
                                        io.bus.config, peer))
      ensures Valid() && this.io == io && this.ntype == ntype && this.peer == peer
      ensures Snapshot() == Sys(Invalid, false, 0, 0) && log == []
    {
      this.io := io;
      this.ntype := ntype;
      this.peer := peer;
      state := Invalid;
      deviceAddressed := false;
      ns, nh := 0, 0;
      log := [];
    }

    // -------------------------------------------------------------------------
    // Handshakes (node.cpp)

    /** setTransmitMode: the handshake lines for idle, receiving or sending. */
    method SetTransmitMode(mode: TransmitMode)
      requires io.Valid()
      modifies io.bus
      ensures io.Valid()
      ensures io.bus.trace == old(io.bus.trace) + TransmitOps(io.bit, io.mask, mode)
    {
      match mode {
        case TmIdle =>
          io.ResetBus(io.mask.hand);
        case TmRecv =>
          io.bus.SetMode(io.bit.DAV + io.bit.EOI, InputPullup);
          io.bus.SetMode(io.bit.NRFD + io.bit.NDAC, OutputHigh);
        case TmSend =>
          io.bus.SetMode(io.bit.NRFD + io.bit.NDAC, InputPullup);
          io.bus.SetMode(io.bit.DAV + io.bit.EOI, OutputHigh);
      }
    }

    /**
     * One pass of the readByte loop over one sample of the lines: the
     * device-only abort check, then the step of the acceptor handshake.
     */
    method ReadPass(readWithEoi: bool, atnStat: bool, lines: Word, v: ReadVars) returns (v': ReadVars)
      requires io.Valid()
      modifies io.bus
      ensures io.Valid()
      ensures var s := ReadStep(HandshakeLink(), readWithEoi, atnStat, lines, v);
              v' == s.v && io.bus.trace == old(io.bus.trace) + s.ops
    {
      ghost var step := ReadStep(HandshakeLink(), readWithEoi, atnStat, lines, v);
      var st, db, eoi, run := v.st, v.db, v.eoi, v.run;
      if ntype == Device {
        if IsAsserted(lines, io.bit.IFC) {
          st := IfcAsserted;
        }
        if atnStat && !IsAsserted(lines, io.bit.ATN) {
          st := AtnAsserted;
        }
      }
      assert st == ReadAbort(HandshakeLink(), atnStat, lines, v.st);
      match st {
        case Start =>
          assert step == ReadOut(v.(st := WaitForData), [SetMode(io.bit.NRFD, OutputHigh)]);
          io.ClearSignal(io.bit.NRFD);
          st := WaitForData;
        case WaitForData =>
          if !PinState(lines, io.bit.DAV) {
            assert step == ReadOut(v.(st := ReadData), [SetMode(io.bit.NRFD, OutputLow)]);
            io.AssertSignal(io.bit.NRFD);
            st := ReadData;
          } else {
            assert step == ReadOut(v, []);
          }
        case ReadData =>
          if readWithEoi && IsAsserted(lines, io.bit.EOI) {
            eoi := true;
          }
          db := LoadDataByte(io.bit, io.mask, lines);
          assert step == ReadOut(ReadVars(DataAccepted, db, eoi, run), [SetMode(io.bit.NDAC, OutputHigh)]);
          io.ClearSignal(io.bit.NDAC);
          st := DataAccepted;
        case DataAccepted =>
          if PinState(lines, io.bit.DAV) {
            assert step == ReadOut(v.(st := Complete), [SetMode(io.bit.NDAC, OutputLow)]);
            io.AssertSignal(io.bit.NDAC);
            st := Complete;
          } else {
            assert step == ReadOut(v, []);
          }
        case AtnAsserted =>
          run := false;
        case IfcAsserted =>
          run := false;
        case _ =>
          run := false;
      }
      v' := ReadVars(st, db, eoi, run);
    }

    /**
     * One pass of the writeByte loop: the device-only abort check, then the
     * step of the source handshake.
     */
    method WritePass(db: Byte, isLastByte: bool, lines: Word, v: WriteVars) returns (v': WriteVars)
      requires io.Valid()
      modifies io.bus
      ensures io.Valid()
      ensures var s := WriteStep(HandshakeLink(), db, isLastByte, lines, v);
              v' == s.v && io.bus.trace == old(io.bus.trace) + s.ops
    {
      ghost var step := WriteStep(HandshakeLink(), db, isLastByte, lines, v);
      var st, run := v.st, v.run;
      if ntype == Device {
        if IsAsserted(lines, io.bit.IFC) {
          st := IfcAsserted;
        }
        if IsAsserted(lines, io.bit.ATN) {
          st := AtnAsserted;
        }
      }
      assert st == WriteAbort(HandshakeLink(), lines, v.st);
      match st {
        case Start =>
          if !PinState(lines, io.bit.NDAC) {
            st := WaitForReceiverReady;
          }
        case WaitForReceiverReady =>
          if PinState(lines, io.bit.NRFD) {
            st := PlaceData;
          }
        case PlaceData =>
          assert step == WriteOut(v.(st := DataReady), PlaceOps(HandshakeLink(), db, io.bus.config.eoi && isLastByte));
          PlaceByte(db, io.bus.config.eoi && isLastByte);
          st := DataReady;
        case DataReady =>
          if !PinState(lines, io.bit.NRFD) {
            st := ReceiverAccepting;
          }
        case ReceiverAccepting =>
          if PinState(lines, io.bit.NDAC) {
            st := Complete;
          }
        case IfcAsserted =>
          assert step == WriteOut(WriteVars(st, false), TransmitOps(io.bit, io.mask, TmRecv));
          SetTransmitMode(TmRecv);
          run := false;
        case AtnAsserted =>
          assert step == WriteOut(WriteVars(st, false), TransmitOps(io.bit, io.mask, TmRecv));
          SetTransmitMode(TmRecv);
          run := false;
        case _ =>
          run := false;
      }
      v' := WriteVars(st, run);
    }

    /** Placing the byte on the data lines, then asserting DAV (with EOI when withEoi). */
    method PlaceByte(db: Byte, withEoi: bool)
      requires io.Valid()
      modifies io.bus
      ensures io.Valid()
      ensures io.bus.trace == old(io.bus.trace) + PlaceOps(HandshakeLink(), db, withEoi)
    {
      io.PushDataByte(db);
      if withEoi {
        io.AssertSignal(io.bit.DAV + io.bit.EOI);
      } else {
        io.AssertSignal(io.bit.DAV);
      }
    }

    /**
     * The readByte loop over one handshake's samples: while run holds and
     * fewer than rtmo milliseconds have passed since the start, one pass.
     */
    method ReadPasses(readWithEoi: bool, atnStat: bool, env: ByteEnv, db0: Byte) returns (v: ReadVars)
      requires io.Valid() && Expires(env, HandshakeLink().tv)
      modifies io.bus
      ensures io.Valid()
      ensures var r := ReadLoop(HandshakeLink(), readWithEoi, atnStat, env, 0, ReadVars(Start, db0, false, true));
              v == r.v && io.bus.trace == old(io.bus.trace) + r.ops
    {
      ghost var l := HandshakeLink();
      var startMillis := env.start;
      var currentMillis := (startMillis + 1) % ClockModulus;
      var timeval := TimeVal(io.bus.config);
      v := ReadVars(Start, db0, false, true);
      var k := 0;
      ghost var r := ReadLoop(l, readWithEoi, atnStat, env, 0, v);
      ghost var whole := ReadOut(r.v, io.bus.trace + r.ops);
      while v.run && Elapsed(startMillis, currentMillis) < timeval
        invariant k <= |env.ticks| && currentMillis == Now(env, k) && io.Valid()
        invariant whole.v == ReadLoop(l, readWithEoi, atnStat, env, k, v).v
        invariant whole.ops == io.bus.trace + ReadLoop(l, readWithEoi, atnStat, env, k, v).ops
        decreases |env.ticks| - k
      {
        v := ReadPassAt(readWithEoi, atnStat, env, k, v, whole);
        currentMillis := env.ticks[k].millis;
        k := k + 1;
      }
      ReadLoopPass(l, readWithEoi, atnStat, env, k, v);
      assert ReadLoop(l, readWithEoi, atnStat, env, k, v) == ReadOut(v, []);
      assert io.bus.trace + [] == io.bus.trace;
    }

    /**
     * Pass k of the readByte loop, with what it does to the record of the
     * operations still to come: `whole` is the trace so far followed by the
     * loop from pass k, before and (from pass k + 1) after.
     */
    method ReadPassAt(readWithEoi: bool, atnStat: bool, env: ByteEnv, k: nat, v: ReadVars,
                      ghost whole: ReadOut) returns (v': ReadVars)
      requires io.Valid() && k <= |env.ticks| && Expires(env, HandshakeLink().tv)
      requires v.run && Elapsed(env.start, Now(env, k)) < HandshakeLink().tv
      requires whole.v == ReadLoop(HandshakeLink(), readWithEoi, atnStat, env, k, v).v
      requires whole.ops == io.bus.trace + ReadLoop(HandshakeLink(), readWithEoi, atnStat, env, k, v).ops
      modifies io.bus
      ensures io.Valid() && k < |env.ticks|
      ensures whole.v == ReadLoop(HandshakeLink(), readWithEoi, atnStat, env, k + 1, v').v
      ensures whole.ops == io.bus.trace + ReadLoop(HandshakeLink(), readWithEoi, atnStat, env, k + 1, v').ops
    {
      ReadLoopAdvance(HandshakeLink(), readWithEoi, atnStat, env, k, v, whole, io.bus.trace);
      v' := ReadPass(readWithEoi, atnStat, env.ticks[k].lines, v);
    }

    /**
     * readByte: the acceptor handshake over the next handshake the bus
     * offers, with ATN captured on entry; db0 is what *db held before.
     */
    method ReadByte(db0: Byte, readWithEoi: bool) returns (st: HandshakeState, db: Byte, eoi: bool)
      requires Valid()
      modifies this, io.bus
      ensures Valid()
      ensures var o := ReadByteF(Context(), old(Snapshot()), db0, readWithEoi);
              Done(o, old(io.bus.trace), old(log)) && o.ret == Got(st, db, eoi)
    {
      var env := peer.shakes(nh);
      assert Expires(env, HandshakeLink().tv);
      nh := nh + 1;
      var atnStat := IsAsserted(env.entry, io.bit.ATN);
      var v := ReadPasses(readWithEoi, atnStat, env, db0);
      st, db, eoi := v.st, v.db, v.eoi;
      log := log + [Got(st, db, eoi)];
    }

    /** The writeByte loop over one handshake's samples. */
    method WritePasses(db: Byte, isLastByte: bool, env: ByteEnv) returns (v: WriteVars)
      requires io.Valid() && Expires(env, HandshakeLink().tv)
      modifies io.bus
      ensures io.Valid()
      ensures var r := WriteLoop(HandshakeLink(), db, isLastByte, env, 0, WriteVars(Start, true));
              v == r.v && io.bus.trace == old(io.bus.trace) + r.ops
    {
      ghost var l := HandshakeLink();
      var startMillis := env.start;
      var currentMillis := (startMillis + 1) % ClockModulus;
      var timeval := TimeVal(io.bus.config);
      v := WriteVars(Start, true);
      var k := 0;
      ghost var r := WriteLoop(l, db, isLastByte, env, 0, v);
      ghost var whole := WriteOut(r.v, io.bus.trace + r.ops);
      while v.run && Elapsed(startMillis, currentMillis) < timeval
        invariant k <= |env.ticks| && currentMillis == Now(env, k) && io.Valid()
        invariant whole.v == WriteLoop(l, db, isLastByte, env, k, v).v
        invariant whole.ops == io.bus.trace + WriteLoop(l, db, isLastByte, env, k, v).ops
        decreases |env.ticks| - k
      {
        v := WritePassAt(db, isLastByte, env, k, v, whole);
        currentMillis := env.ticks[k].millis;
        k := k + 1;
      }
      WriteLoopPass(l, db, isLastByte, env, k, v);
    }

    /** Pass k of the writeByte loop, with its record (as ReadPassAt). */
    method WritePassAt(db: Byte, isLastByte: bool, env: ByteEnv, k: nat, v: WriteVars,
                       ghost whole: WriteOut) returns (v': WriteVars)
      requires io.Valid() && k <= |env.ticks| && Expires(env, HandshakeLink().tv)
      requires v.run && Elapsed(env.start, Now(env, k)) < HandshakeLink().tv
      requires whole.v == WriteLoop(HandshakeLink(), db, isLastByte, env, k, v).v
      requires whole.ops == io.bus.trace + WriteLoop(HandshakeLink(), db, isLastByte, env, k, v).ops
      modifies io.bus
      ensures io.Valid() && k < |env.ticks|
      ensures whole.v == WriteLoop(HandshakeLink(), db, isLastByte, env, k + 1, v').v
      ensures whole.ops == io.bus.trace + WriteLoop(HandshakeLink(), db, isLastByte, env, k + 1, v').ops
    {
      WriteLoopAdvance(HandshakeLink(), db, isLastByte, env, k, v, whole, io.bus.trace);
      v' := WritePass(db, isLastByte, env.ticks[k].lines, v);
    }

    /**
     * writeByte: the source handshake for db over the next handshake the bus
     * offers; on completion DAV (and EOI with it when it marked the byte)
     * is released and the data lines are zeroed and released.
     */
    method WriteByte(db: Byte, isLastByte: bool) returns (st: HandshakeState)
      requires Valid()
      modifies this, io.bus
      ensures Valid()
      ensures var o := WriteByteF(Context(), old(Snapshot()), db, isLastByte);
              Done(o, old(io.bus.trace), old(log)) && o.ret == st
    {
      var env := peer.shakes(nh);
      assert Expires(env, HandshakeLink().tv);
      nh := nh + 1;
      ghost var t0 := io.bus.trace;
      var v := WritePasses(db, isLastByte, env);
      ghost var loop := WriteLoop(HandshakeLink(), db, isLastByte, env, 0, WriteVars(Start, true));
      st := v.st;
      if st == Complete {
        AppendAssoc(t0, loop.ops, FinishOps(HandshakeLink(), io.bus.config.eoi && isLastByte));
        FinishWrite(io.bus.config.eoi && isLastByte);
      }
      log := log + [Wrote(db, isLastByte, st)];
    }

    /** After a completed write: release DAV (and EOI with it), zero the data lines and release them. */
    method FinishWrite(withEoi: bool)
      requires io.Valid()
      modifies io.bus
      ensures io.Valid()
      ensures io.bus.trace == old(io.bus.trace) + FinishOps(HandshakeLink(), withEoi)
    {
      if withEoi {
        io.ClearSignal(io.bit.DAV + io.bit.EOI);
      } else {
        io.ClearSignal(io.bit.DAV);
      }
      io.bus.Put(io.mask.dio, {});
      io.ResetBus(io.mask.dio);
    }

    // -------------------------------------------------------------------------
    // The controller role (controller.cpp); a device's setState does nothing

    /** The call-graph rank that orders setState, sendCmd and the addressing calls. */
    function SetStateRank(t: State): nat {
      if t == Command then 0 else 3
    }

    /**
     * setState: the controller's line configuration for a state (after
     * addressing or un-addressing the device for LISTEN and IDLE); INVALID
     * for any other state.  A device's setState changes nothing.  Each case
     * of the switch is a method of its own below.
     */
    method SetState(t: State)
      requires Valid()
      modifies this, io.bus
      decreases SetStateRank(t), 2
      ensures Valid()
      ensures Done(SetStateF(Context(), old(Snapshot()), t), old(io.bus.trace), old(log))
    {
      if ntype == Device {
        assert SetStateF(Context(), Snapshot(), t) == Issue(Snapshot(), []);
        return;
      }
      match t {
        case Init => EnterInit();
        case Idle => EnterIdle();
        case Command => EnterCommand();
        case Listen => EnterListen();
        case Talk => EnterTalk();
        case Invalid =>
          assert SetStateF(Context(), Snapshot(), t) == Issue(Snapshot().(state := Invalid), []);
          state := Invalid;
      }
    }

    /** INIT: SRQ an input, IFC, REN and ATN driven high, the handshake lines released, REN asserted. */
    method EnterInit()
      requires Valid() && ntype == Controller
      modifies this, io.bus
      ensures Valid()
      ensures Done(SetStateF(Context(), old(Snapshot()), Init), old(io.bus.trace), old(log))
    {
      ghost var c, s0 := Context(), Snapshot();
      io.bus.SetMode(io.bit.SRQ, InputPullup);
      io.bus.SetMode(io.bit.IFC + io.bit.REN + io.bit.ATN, OutputHigh);
      SetTransmitMode(TmIdle);
      io.AssertSignal(io.bit.REN);
      state := Init;
      assert SetStateF(c, s0, Init) == Issue(s0.(state := Init), InitOps(c.l));
    }

    /** IDLE: un-address the device (whatever that returns), release the handshake lines and ATN. */
    method EnterIdle()
      requires Valid() && ntype == Controller
      modifies this, io.bus
      decreases 3, 1
      ensures Valid()
      ensures Done(SetStateF(Context(), old(Snapshot()), Idle), old(io.bus.trace), old(log))
    {
      ghost var c, s0, t0, g0 := Context(), Snapshot(), io.bus.trace, log;
      var rc := UnAddressDevice();
      ghost var u := UnAddressF(c, s0);
      ghost var tail := TransmitOps(io.bit, io.mask, TmIdle) + [SetMode(io.bit.ATN, OutputHigh)];
      SetTransmitMode(TmIdle);
      io.ClearSignal(io.bit.ATN);
      AppendAssoc(t0 + u.ops, TransmitOps(io.bit, io.mask, TmIdle), [SetMode(io.bit.ATN, OutputHigh)]);
      assert Snapshot() == u.sys && log == g0 + u.log && io.bus.trace == (t0 + u.ops) + tail;
      state := Idle;
      ThenJoin(t0, g0, u, Issue(u.sys.(state := Idle), tail));
      assert SetStateF(c, s0, Idle) == Then(u, Issue(u.sys.(state := Idle), tail));
    }

    /** COMMAND: the send configuration with ATN asserted. */
    method EnterCommand()
      requires Valid() && ntype == Controller
      modifies this, io.bus
      decreases 0, 1
      ensures Valid()
      ensures Done(SetStateF(Context(), old(Snapshot()), Command), old(io.bus.trace), old(log))
    {
      ghost var c, s0 := Context(), Snapshot();
      SetTransmitMode(TmSend);
      io.AssertSignal(io.bit.ATN);
      state := Command;
      assert SetStateF(c, s0, Command) == Issue(s0.(state := Command), CommandOps(c.l));
    }

    /** LISTEN: address the device to talk (whatever that returns), the receive configuration, ATN released. */
    method EnterListen()
      requires Valid() && ntype == Controller
      modifies this, io.bus
      decreases 3, 1
      ensures Valid()
      ensures Done(SetStateF(Context(), old(Snapshot()), Listen), old(io.bus.trace), old(log))
    {
      ghost var c, s0, t0, g0 := Context(), Snapshot(), io.bus.trace, log;
      var rc := AddressDevice(io.bus.config.paddr, true);
      ghost var a := AddressF(c, s0, c.cfg.paddr, true);
      ghost var tail := TransmitOps(io.bit, io.mask, TmRecv) + [SetMode(io.bit.ATN, OutputHigh)];
      SetTransmitMode(TmRecv);
      io.ClearSignal(io.bit.ATN);
      AppendAssoc(t0 + a.ops, TransmitOps(io.bit, io.mask, TmRecv), [SetMode(io.bit.ATN, OutputHigh)]);
      assert Snapshot() == a.sys && log == g0 + a.log && io.bus.trace == (t0 + a.ops) + tail;
      state := Listen;
      ThenJoin(t0, g0, a, Issue(a.sys.(state := Listen), tail));
      assert SetStateF(c, s0, Listen) == Then(a, Issue(a.sys.(state := Listen), tail));
    }

    /** TALK: the send configuration, ATN released. */
    method EnterTalk()
      requires Valid() && ntype == Controller
      modifies this, io.bus
      ensures Valid()
      ensures Done(SetStateF(Context(), old(Snapshot()), Talk), old(io.bus.trace), old(log))
    {
      ghost var c, s0 := Context(), Snapshot();
      SetTransmitMode(TmSend);
      io.ClearSignal(io.bit.ATN);
      state := Talk;
      assert SetStateF(c, s0, Talk) ==
             Issue(s0.(state := Talk), TransmitOps(io.bit, io.mask, TmSend) + [SetMode(io.bit.ATN, OutputHigh)]);
    }

    /** sendCmd: COMMAND unless already there, then the byte without EOI; 0 iff it went through. */
    method SendCmd(cmd: Byte) returns (rc: int)
      requires Valid() && ntype == Controller
      modifies this, io.bus
      decreases 1, 0
      ensures Valid()
      ensures var o := SendCmdF(Context(), old(Snapshot()), cmd);
              Done(o, old(io.bus.trace), old(log)) && rc == o.ret
    {
      ghost var c, s0, t0, g0 := Context(), Snapshot(), io.bus.trace, log;
      ghost var a := if state != Command then CommandF(c, s0) else Issue(s0, []);
      if state != Command {
        SetState(Command);
      }
      assert Done(a, t0, g0);
      var st := WriteByte(cmd, false);
      ghost var w := WriteByteF(c, a.sys, cmd, false);
      ThenJoin(t0, g0, a, w);
      rc := if st == Complete then 0 else -1;
      assert SendCmdF(c, s0, cmd) == Then(a, Yield(w, rc));
    }

    /** addressDevice: UNL, then the talk or listen address; deviceAddressed once both went through. */
    method AddressDevice(addr: U8, talk: bool) returns (rc: int)
      requires Valid() && ntype == Controller
      modifies this, io.bus
      decreases 2, 0
      ensures Valid()
      ensures var o := AddressF(Context(), old(Snapshot()), addr, talk);
              Done(o, old(io.bus.trace), old(log)) && rc == o.ret
    {
      if talk {
        rc := UnlistenThen(TalkAddress(addr), true);
      } else {
        rc := UnlistenThen(ListenAddress(addr), true);
      }
    }

    /** unAddressDevice: 1 when nothing is addressed, else a pause, UNL and UNT. */
    method UnAddressDevice() returns (rc: int)
      requires Valid() && ntype == Controller
      modifies this, io.bus
      decreases 2, 0
      ensures Valid()
      ensures var o := UnAddressF(Context(), old(Snapshot()));
              Done(o, old(io.bus.trace), old(log)) && rc == o.ret
    {
      ghost var c, s0, t0, g0 := Context(), Snapshot(), io.bus.trace, log;
      if !deviceAddressed {
        assert UnAddressF(c, s0) == Out(s0, [], [], 1);
        assert t0 + [] == t0 && g0 + [] == g0;
        return 1;
      }
      io.bus.Sleep(30);
      assert Snapshot() == s0 && log == g0 && io.bus.trace == t0 + [Sleep(30)];
      rc := UnlistenThen(Untalk, false);
      ThenJoin(t0, g0, Issue(s0, [Sleep(30)]), UnlistenThenF(c, s0, Untalk, false));
      assert UnAddressF(c, s0) == Then(Issue(s0, [Sleep(30)]), UnlistenThenF(c, s0, Untalk, false));
    }

    /**
     * UNL, then the second command only if UNL went through; deviceAddressed
     * is set to flag, and 0 returned, only when both did, else -1.
     */
    method UnlistenThen(second: Byte, flag: bool) returns (rc: int)
      requires Valid() && ntype == Controller
      modifies this, io.bus
      decreases 1, 1
      ensures Valid()
      ensures var o := UnlistenThenF(Context(), old(Snapshot()), second, flag);
              Done(o, old(io.bus.trace), old(log)) && rc == o.ret
    {
      ghost var c, s0, t0, g0 := Context(), Snapshot(), io.bus.trace, log;
      var r := SendCmd(Unlisten);
      ghost var u := SendCmdF(c, s0, Unlisten);
      if r < 0 {
        assert UnlistenThenF(c, s0, second, flag) == u;
        return -1;
      }
      r := SendCmd(second);
      ghost var t := SendCmdF(c, u.sys, second);
      ThenJoin(t0, g0, u, t);
      if r < 0 {
        assert UnlistenThenF(c, s0, second, flag) == Then(u, t);
        return -1;
      }
      deviceAddressed := flag;
      assert UnlistenThenF(c, s0, second, flag) == Then(u, t.(sys := t.sys.(addressed := flag), ret := 0));
      return 0;
    }

    /** deinit: INVALID, every bus line released. */
    method Deinit()
      requires Valid() && ntype == Controller
      modifies this, io.bus
      ensures Valid()
      ensures Done(DeinitF(Context(), old(Snapshot())), old(io.bus.trace), old(log))
    {
      state := Invalid;
      io.ResetBus(io.mask.all);
    }

    /** sendAllClear: REN released for 40 ms, then ATN and REN asserted together for 40 ms, then ATN released. */
    method SendAllClear()
      requires Valid() && ntype == Controller
      modifies io.bus
      ensures Valid()
      ensures io.bus.trace == old(io.bus.trace) + SendAllClearOps(HandshakeLink())
    {
      io.ClearSignal(io.bit.REN);
      io.bus.Sleep(40000);
      io.AssertSignal(io.bit.ATN + io.bit.REN);
      io.bus.Sleep(40000);
      io.ClearSignal(io.bit.ATN);
    }

    /** sendIFC: IFC asserted for 150 ms. */
    method SendIFC()
      requires Valid() && ntype == Controller
      modifies io.bus
      ensures Valid()
      ensures io.bus.trace == old(io.bus.trace) + SendIfcOps(HandshakeLink())
    {
      io.AssertSignal(io.bit.IFC);
      io.bus.Sleep(150000);
      io.ClearSignal(io.bit.IFC);
    }

    /**
     * Controller::init: set up the bus, and address the primary address to
     * listen when it is above 1; always 0.
     */
    method InitController() returns (rc: int)
      requires Valid() && ntype == Controller
      modifies this, io.bus
      ensures Valid()
      ensures var o := InitF(Context(), old(Snapshot()));
              Done(o, old(io.bus.trace), old(log)) && rc == o.ret
    {
      ghost var c, s0, t0, g0 := Context(), Snapshot(), io.bus.trace, log;
      InitBus();
      ghost var p := InitBusF(c, s0);
      if io.bus.config.paddr > 1 {
        var r := AddressDevice(io.bus.config.paddr, false);
        ghost var a := AddressF(c, p.sys, c.cfg.paddr, false);
        ThenJoin(t0, g0, p, a);
        assert InitF(c, s0) == Yield(Then(p, a), 0);
      } else {
        assert InitF(c, s0) == Yield(p, 0);
      }
      rc := 0;
    }

    /** The steps of Controller::init before addressing. */
    method InitBus()
      requires Valid() && ntype == Controller
      modifies this, io.bus
      ensures Valid()
      ensures Done(InitBusF(Context(), old(Snapshot())), old(io.bus.trace), old(log))
    {
      ghost var c, s0, t0 := Context(), Snapshot(), io.bus.trace;
      ghost var z := DeinitF(c, s0);
      SendAllClear();
      Deinit();
      AppendAssoc(t0, SendAllClearOps(c.l), z.ops);
      io.bus.Sleep(200000);
      ghost var head := SendAllClearOps(c.l) + z.ops + [Sleep(200000)];
      AppendAssoc(t0, SendAllClearOps(c.l) + z.ops, [Sleep(200000)]);
      ghost var d := SetStateF(c, z.sys, Init);
      assert d == Issue(z.sys.(state := Init), InitOps(c.l));
      SetState(Init);
      AppendAssoc(t0, head, d.ops);
      io.ReadyGpibDbus();
      AppendAssoc(t0, head + d.ops, [SetMode(c.l.mask.dio, InputPullup)]);
      SendIFC();
      AppendAssoc(t0, head + d.ops + [SetMode(c.l.mask.dio, InputPullup)], SendIfcOps(c.l));
    }

    // -------------------------------------------------------------------------
    // Framed transfers (node.cpp)

    /** isAsserted on the line word the bus shows at this node's next line test. */
    method TestAsserted(m: Word) returns (b: bool)
      modifies this
      ensures Done(Out(old(Snapshot()).(ns := old(ns) + 1), [], [], ()), io.bus.trace, old(log))
      ensures b == IsAsserted(peer.samples(old(ns)), m)
    {
      b := IsAsserted(peer.samples(ns), m);
      ns := ns + 1;
    }

    /** receiveData(data): no EOI detection requested, no end byte. */
    method ReceiveDataPlain(data: DataBuffer) returns (ok: bool)
      requires Valid()
      modifies this, io.bus, data
      ensures Valid()
      ensures var o := ReceiveF(Context(), old(Snapshot()), old(data.contents), false, false, 0, data.hasTerminator);
              Done(o, old(io.bus.trace), old(log)) && ok == o.ret.ok && data.contents == o.ret.data
    {
      ok := ReceiveData(data, false, false, 0);
    }

    /**
     * receiveData: LISTEN, release the data lines, read the message into the
     * buffer, IDLE; true iff the last handshake state is HANDSHAKE_COMPLETE.
     */
    method ReceiveData(data: DataBuffer, detectEoi: bool, detectEndByte: bool, endByte: Byte) returns (ok: bool)
      requires Valid()
      modifies this, io.bus, data
      ensures Valid()
      ensures var o := ReceiveF(Context(), old(Snapshot()), old(data.contents), detectEoi, detectEndByte, endByte,
                                data.hasTerminator);
              Done(o, old(io.bus.trace), old(log)) && ok == o.ret.ok && data.contents == o.ret.data
    {
      ghost var c, s0, t0, g0, data0 := Context(), Snapshot(), io.bus.trace, log, data.contents;
      var readWithEoi := io.bus.config.eoi || detectEoi || io.bus.config.eor == EOR.SPACE || ntype == Device;
      ghost var f := Framing(readWithEoi, detectEndByte, endByte, data.hasTerminator);
      SetState(Listen);
      io.ReadyGpibDbus();
      ghost var a0 := SetStateF(c, s0, Listen);
      ghost var a := Then(a0, Issue(a0.sys, [SetMode(c.l.mask.dio, InputPullup)]));
      AppendAssoc(t0, a0.ops, [SetMode(c.l.mask.dio, InputPullup)]);
      assert Done(a, t0, g0);
      var st := ReceiveBytes(data, readWithEoi, detectEndByte, endByte);
      ghost var m := ReceiveLoop(c, a.sys, f, 0, data0);
      ThenJoin(t0, g0, a, m);
      SetState(Idle);
      ghost var z := SetStateF(c, m.sys, Idle);
      ThenJoin(t0, g0, Then(a, m), z);
      ok := st == Complete;
      assert ReceiveF(c, s0, data0, detectEoi, detectEndByte, endByte, data.hasTerminator) ==
             Yield(Then(Then(a, m), z), Received(ok, data.contents));
    }

    /** What is left for the node to do is o: the record whole is reached from here by o. */
    ghost predicate Remains<T>(whole: Out<T>, o: Out<T>)
      reads this, io.bus
    {
      whole == Out(o.sys, io.bus.trace + o.ops, log + o.log, o.ret)
    }

    /**
     * The reading loop of receiveData, from received_byte 0 and
     * HANDSHAKE_COMPLETE: it ends where the message ends, one pass at a time.
     */
    method ReceiveBytes(data: DataBuffer, readWithEoi: bool, detectEndByte: bool, endByte: Byte)
      returns (st: HandshakeState)
      requires Valid()
      modifies this, io.bus, data
      ensures Valid()
      ensures var o := ReceiveLoop(Context(), old(Snapshot()), Framing(readWithEoi, detectEndByte, endByte, data.hasTerminator),
                                   0, old(data.contents));
              Done(o, old(io.bus.trace), old(log)) && st == o.ret.st && data.contents == o.ret.data
    {
      ghost var f := Framing(readWithEoi, detectEndByte, endByte, data.hasTerminator);
      ghost var o := ReceiveLoop(Context(), Snapshot(), f, 0, data.contents);
      ghost var whole := Out(o.sys, io.bus.trace + o.ops, log + o.log, o.ret);
      var receivedByte: Byte := 0;
      st := Complete;
      while st == Complete
        invariant Valid() && st == Complete
        invariant Remains(whole, ReceiveLoop(Context(), Snapshot(), f, receivedByte, data.contents))
        decreases peer.quiet - nh
      {
        var stop: bool;
        st, receivedByte, stop := ReceivePass(data, readWithEoi, detectEndByte, endByte, receivedByte, whole);
        if stop {
          break;
        }
      }
    }

    /** Push a received byte and tell whether it ends the message. */
    method TakeByte(data: DataBuffer, readWithEoi: bool, detectEndByte: bool, endByte: Byte, db: Byte, eoi: bool)
      returns (stop: bool)
      modifies data
      ensures data.contents == old(data.contents) + [db]
      ensures stop == Ends(Context(), Framing(readWithEoi, detectEndByte, endByte, data.hasTerminator), data.contents, db, eoi)
    {
      data.Push(db);
      if readWithEoi {
        stop := eoi;
      } else if detectEndByte {
        stop := db == endByte;
      } else {
        stop := data.HasTerminator(io.bus.config.eor);
      }
    }

    /**
     * One pass of the receiveData loop: stop at ATN asserted; else read a
     * byte, stop unless it completed, push it, and stop when it ends the
     * message.
     */
    method ReceivePass(data: DataBuffer, readWithEoi: bool, detectEndByte: bool, endByte: Byte, db0: Byte,
                       ghost whole: Out<Ending>)
      returns (st: HandshakeState, db: Byte, stop: bool)
      requires Valid()
      requires Remains(whole, ReceiveLoop(Context(), Snapshot(), Framing(readWithEoi, detectEndByte, endByte, data.hasTerminator),
                                          db0, data.contents))
      modifies this, io.bus, data
      ensures Valid()
      ensures stop ==> Remains(whole, Out(Snapshot(), [], [], Ending(st, data.contents)))
      ensures !stop ==> st == Complete && old(nh) < peer.quiet && nh == old(nh) + 1 &&
                        Remains(whole, ReceiveLoop(Context(), Snapshot(), Framing(readWithEoi, detectEndByte, endByte, data.hasTerminator),
                                                   db, data.contents))
    {
      ghost var f := Framing(readWithEoi, detectEndByte, endByte, data.hasTerminator);
      ghost var c, h, d, t0, g0 := Context(), Snapshot(), data.contents, io.bus.trace, log;
      ReceiveLoopAdvance(c, h, f, db0, d, t0, g0, whole);
      db, stop := db0, true;
      st := Complete;
      var atn := TestAsserted(io.bit.ATN);
      if atn {
        assert whole == Out(Snapshot(), t0, g0, Ending(Complete, d));
        return;
      }
      ghost var s1, t1, g1 := Snapshot(), io.bus.trace, log;
      assert s1 == h.(ns := h.ns + 1) && t1 == t0 && g1 == g0;
      ghost var r := ReadByteF(c, s1, db0, f.rwe);
      var eoiDetected: bool;
      st, db, eoiDetected := ReadByte(db0, readWithEoi);
      assert Snapshot() == r.sys && io.bus.trace == t1 + r.ops && log == g1 + r.log && r.ret == Got(st, db, eoiDetected);
      if st != Complete {
        assert whole == Out(Snapshot(), io.bus.trace, log, Ending(st, d));
        return;
      }
      stop := TakeByte(data, readWithEoi, detectEndByte, endByte, db, eoiDetected);
      if !stop {
        ghost var o := ReceiveLoop(c, r.sys, f, db, d + [db]);
        assert whole == Out(o.sys, (t1 + r.ops) + o.ops, (g1 + r.log) + o.log, o.ret);
        assert whole == Out(o.sys, io.bus.trace + o.ops, log + o.log, o.ret);
      }
    }

    /**
     * sendData: TALK, the payload bytes (EOI on the last one only when EOI
     * is on and no terminator follows), the terminators when the payload
     * went through, IDLE.  `state` starts as HANDSHAKE_COMPLETE; the source
     * leaves it uninitialised.
     */
    method SendData(str: seq<Byte>)
      requires Valid()
      modifies this, io.bus
      ensures Valid()
      ensures Done(SendDataF(Context(), old(Snapshot()), str), old(io.bus.trace), old(log))
    {
      ghost var c, s0, t0, g0 := Context(), Snapshot(), io.bus.trace, log;
      var st := Complete;
      SetState(Talk);
      ghost var a := SetStateF(c, s0, Talk);
      WriteMessage(str, st);
      ghost var m := SendBodyAsWritten(c, a.sys, str, Complete);
      ThenJoin(t0, g0, a, m);
      SetState(Idle);
      ThenJoin(t0, g0, Then(a, m), SetStateF(c, m.sys, Idle));
      assert SendDataF(c, s0, str) == Then(Then(a, m), SetStateF(c, m.sys, Idle));
    }

    /**
     * The part of sendData between TALK and IDLE, with `state` starting as
     * st0: the payload, then the terminators when the payload went through.
     */
    method WriteMessage(str: seq<Byte>, st0: HandshakeState)
      requires Valid()
      modifies this, io.bus
      ensures Valid()
      ensures Done(SendBodyAsWritten(Context(), old(Snapshot()), str, st0), old(io.bus.trace), old(log))
    {
      ghost var c, s0, t0, g0 := Context(), Snapshot(), io.bus.trace, log;
      var terminator: nat;
      match io.bus.config.eos {
        case CR => terminator := 1;
        case LF => terminator := 1;
        case None => terminator := 0;
        case CRLF => terminator := 2;
      }
      var st := SendPayload(str, terminator, st0);
      ghost var p := SendLoop(c, s0, str, 0, st0);
      if terminator != 0 && st == Complete {
        WriteTerminators();
        ghost var e := SendTerminators(c, p.sys);
        ThenJoin(t0, g0, p, e);
        assert SendBodyAsWritten(c, s0, str, st0) == Then(p, e);
      } else {
        assert SendBodyAsWritten(c, s0, str, st0) == Yield(p, ());
      }
    }

    /**
     * The payload loop of sendData: write byte after byte until one does
     * not complete; the result is the last handshake state, st0 when there
     * is no byte.
     */
    method SendPayload(str: seq<Byte>, terminator: nat, st0: HandshakeState) returns (st: HandshakeState)
      requires Valid() && terminator == TerminatorCount(io.bus.config.eos)
      modifies this, io.bus
      ensures Valid()
      ensures var o := SendLoop(Context(), old(Snapshot()), str, 0, st0);
              Done(o, old(io.bus.trace), old(log)) && st == o.ret
    {
      ghost var o := SendLoop(Context(), Snapshot(), str, 0, st0);
      ghost var whole := Out(o.sys, io.bus.trace + o.ops, log + o.log, o.ret);
      st := st0;
      var i: nat := 0;
      while i < |str|
        invariant i <= |str| && Valid()
        invariant Remains(whole, SendLoop(Context(), Snapshot(), str, i, st))
        decreases |str| - i
      {
        ghost var h, t1, g1 := Snapshot(), io.bus.trace, log;
        SendLoopAdvance(Context(), h, str, i, st, t1, g1, whole);
        ghost var w := WriteByteF(Context(), h, str[i], PayloadLast(io.bus.config, |str|, i));
        if io.bus.config.eoi && terminator == 0 {
          st := WriteByte(str[i], i == |str| - 1);
        } else {
          st := WriteByte(str[i], false);
        }
        if st != Complete {
          break;
        }
        i := i + 1;
      }
    }

    /** The terminators of sendData: CR or LF with EOI as configured, or CR then LF with EOI as configured. */
    method WriteTerminators()
      requires Valid()
      modifies this, io.bus
      ensures Valid()
      ensures Done(SendTerminators(Context(), old(Snapshot())), old(io.bus.trace), old(log))
    {
      ghost var c, s0, t0, g0 := Context(), Snapshot(), io.bus.trace, log;
      var st: HandshakeState;
      match io.bus.config.eos {
        case CR =>
          st := WriteByte(CarriageReturn, io.bus.config.eoi);
        case LF =>
          st := WriteByte(LineFeed, io.bus.config.eoi);
        case None =>
        case CRLF =>
          st := WriteByte(CarriageReturn, false);
          ghost var w := WriteByteF(c, s0, CarriageReturn, false);
          st := WriteByte(LineFeed, io.bus.config.eoi);
          ThenJoin(t0, g0, w, WriteByteF(c, w.sys, LineFeed, c.cfg.eoi));
      }
    }
  }

  /** Doing a after t0 and g0, then b, is doing Then(a, b). */
  lemma ThenJoin<A, B>(t0: seq<Op>, g0: seq<Xfer>, a: Out<A>, b: Out<B>)
    ensures (t0 + a.ops) + b.ops == t0 + Then(a, b).ops
    ensures (g0 + a.log) + b.log == g0 + Then(a, b).log
  {
  }

}
