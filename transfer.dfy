// What a GPIB node does above the byte handshakes, as functions of what the
// other parties on the bus do: the controller role's states and commands
// (controller.cpp) and the framed transfers receiveData and sendData
// (node.cpp).  The Node class in node.dfy performs the same steps on the
// register bank and is proved to agree with these functions.

module Transfer {
  import opened Types
  import opened Bus
  import opened Interface
  import opened Handshake

  /** The node states controller.cpp switches between. */
  datatype State = Invalid | Init | Idle | Command | Listen | Talk

  /** The command bytes of routines.hpp. */
  const ListenGroup: Byte := 0x20
  const Unlisten: Byte := 0x3F
  const TalkGroup: Byte := 0x40
  const Untalk: Byte := 0x5F

  /** The ASCII carriage return and line feed sent as terminators. */
  const CarriageReturn: Byte := 0x0D
  const LineFeed: Byte := 0x0A

  /** GC_TAD + addr and GC_LAD + addr, truncated to eight bits. */
  function TalkAddress(addr: U8): Byte {
    (TalkGroup + addr) % 0x100
  }

  function ListenAddress(addr: U8): Byte {
    (ListenGroup + addr) % 0x100
  }

  /**
   * What the other parties on the bus do, as one node sees it: the line
   * word of each single test (the ATN check at the top of the receiveData
   * loop), in order; what each byte handshake sees, in order; and a number
   * of handshakes after which no talker drives DAV any more.
   */
  datatype Peer = Peer(samples: nat -> Word, shakes: nat -> ByteEnv, quiet: nat)

  /**
   * Everything a node's transfers depend on but do not change: the link of
   * its handshakes, its configuration and the other parties.
   */
  datatype Ctx = Ctx(l: Link, cfg: Config, peer: Peer)

  /**
   * The link agrees with the configuration, every handshake lasts until its
   * timeout, and from some point on the bus is quiet.
   */
  ghost predicate CtxOk(c: Ctx) {
    c.l.tv == TimeVal(c.cfg) && c.l.eoi == c.cfg.eoi &&
    (forall n: nat :: Expires(c.peer.shakes(n), c.l.tv)) &&
    (forall n: nat :: n >= c.peer.quiet ==> Silent(c.peer.shakes(n), c.l.bit.DAV))
  }

  /**
   * The node's own variables: its state, deviceAddressed, and how many line
   * tests and byte handshakes it has used up.
   */
  datatype Sys = Sys(state: State, addressed: bool, ns: nat, nh: nat)

  /**
   * One byte handshake as the node called it: a writeByte of db with its
   * isLastByte argument and outcome, or a readByte with its outcome, *db and
   * *eoi.
   */
  datatype Xfer =
    | Wrote(db: Byte, last: bool, st: HandshakeState)
    | Got(st: HandshakeState, db: Byte, eoi: bool)

  /** What a step of the node leaves: its variables, the line operations and handshakes in order, a result. */
  datatype Out<T> = Out(sys: Sys, ops: seq<Op>, log: seq<Xfer>, ret: T)

  /** a, then b (which started from a's variables): b's variables and result. */
  function Then<A, B>(a: Out<A>, b: Out<B>): Out<B> {
    Out(b.sys, a.ops + b.ops, a.log + b.log, b.ret)
  }

  /** o with another result. */
  function Yield<A, B>(o: Out<A>, r: B): Out<B> {
    Out(o.sys, o.ops, o.log, r)
  }

  /** Operations only. */
  function Issue(s: Sys, ops: seq<Op>): Out<()> {
    Out(s, ops, [], ())
  }

  // ---------------------------------------------------------------------------
  // The byte handshakes, one environment each

  function WriteByteF(c: Ctx, s: Sys, db: Byte, last: bool): (o: Out<HandshakeState>)
    requires CtxOk(c)
    ensures o.log == [Wrote(db, last, o.ret)] && o.sys == s.(nh := s.nh + 1)
    ensures o.ops == WriteRun(c.l, db, last, c.peer.shakes(s.nh)).ops
  {
    var w := WriteRun(c.l, db, last, c.peer.shakes(s.nh));
    Out(s.(nh := s.nh + 1), w.ops, [Wrote(db, last, w.v.st)], w.v.st)
  }

  function ReadByteF(c: Ctx, s: Sys, db0: Byte, rwe: bool): (o: Out<Xfer>)
    requires CtxOk(c)
    ensures o.ret.Got? && o.log == [o.ret] && o.sys == s.(nh := s.nh + 1)
  {
    var r := ReadRun(c.l, rwe, c.peer.shakes(s.nh), db0);
    Out(s.(nh := s.nh + 1), r.ops, [Got(r.v.st, r.v.db, r.v.eoi)], Got(r.v.st, r.v.db, r.v.eoi))
  }

  // ---------------------------------------------------------------------------
  // The controller role (controller.cpp)

  /** setTransmitMode(TM_SEND) then ATN asserted: the COMMAND configuration. */
  function CommandOps(l: Link): seq<Op> {
    TransmitOps(l.bit, l.mask, TmSend) + [SetMode(l.bit.ATN, OutputLow)]
  }

  function InitOps(l: Link): seq<Op> {
    [SetMode(l.bit.SRQ, InputPullup), SetMode(l.bit.IFC + l.bit.REN + l.bit.ATN, OutputHigh)] +
    TransmitOps(l.bit, l.mask, TmIdle) + [SetMode(l.bit.REN, OutputLow)]
  }

  /** The controller's setState(COMMAND): the COMMAND configuration. */
  function CommandF(c: Ctx, s: Sys): Out<()> {
    Issue(s.(state := Command), CommandOps(c.l))
  }

  /**
   * setState: the controller's line configuration for each state, after
   * addressing the device to talk (LISTEN) or un-addressing it (IDLE),
   * whatever that returns; any other state gives INVALID.  A device's
   * setState does nothing.
   */
  function SetStateF(c: Ctx, s: Sys, t: State): Out<()>
    requires CtxOk(c)
  {
    var l := c.l;
    if l.nt == Device then Issue(s, [])
    else
      match t
      case Init => Issue(s.(state := Init), InitOps(l))
      case Idle =>
        var u := UnAddressF(c, s);
        Out(u.sys.(state := Idle), u.ops + TransmitOps(l.bit, l.mask, TmIdle) + [SetMode(l.bit.ATN, OutputHigh)], u.log, ())
      case Command => CommandF(c, s)
      case Listen =>
        var a := AddressF(c, s, c.cfg.paddr, true);
        Out(a.sys.(state := Listen), a.ops + TransmitOps(l.bit, l.mask, TmRecv) + [SetMode(l.bit.ATN, OutputHigh)], a.log, ())
      case Talk => Issue(s.(state := Talk), TransmitOps(l.bit, l.mask, TmSend) + [SetMode(l.bit.ATN, OutputHigh)])
      case Invalid => Issue(s.(state := Invalid), [])
  }

  /** sendCmd: enter COMMAND unless already there, then write the byte without EOI. */
  function SendCmdF(c: Ctx, s: Sys, cmd: Byte): Out<int>
    requires CtxOk(c) && c.l.nt == Controller
  {
    var a := if s.state != Command then CommandF(c, s) else Issue(s, []);
    var w := WriteByteF(c, a.sys, cmd, false);
    Out(w.sys, a.ops + w.ops, a.log + w.log, if w.ret == Complete then 0 else -1)
  }

  /**
   * The common tail of addressDevice and unAddressDevice: UNL, then the
   * second command only if UNL went through; deviceAddressed becomes flag
   * and the result 0 only when both did, else the result is -1.
   */
  function UnlistenThenF(c: Ctx, s: Sys, second: Byte, flag: bool): Out<int>
    requires CtxOk(c) && c.l.nt == Controller
  {
    var u := SendCmdF(c, s, Unlisten);
    if u.ret < 0 then u
    else
      var t := SendCmdF(c, u.sys, second);
      if t.ret < 0 then Then(u, t)
      else Then(u, t.(sys := t.sys.(addressed := flag), ret := 0))
  }

  /** addressDevice: UNL, then the talk or listen address; the flag is set once both went through. */
  function AddressF(c: Ctx, s: Sys, addr: U8, talk: bool): Out<int>
    requires CtxOk(c) && c.l.nt == Controller
  {
    UnlistenThenF(c, s, if talk then TalkAddress(addr) else ListenAddress(addr), true)
  }

  /** unAddressDevice: nothing when no device is addressed; else a short pause, UNL, UNT. */
  function UnAddressF(c: Ctx, s: Sys): Out<int>
    requires CtxOk(c) && c.l.nt == Controller
  {
    if !s.addressed then Out(s, [], [], 1)
    else Then(Issue(s, [Sleep(30)]), UnlistenThenF(c, s, Untalk, false))
  }

  function SendAllClearOps(l: Link): seq<Op> {
    [SetMode(l.bit.REN, OutputHigh), Sleep(40000), SetMode(l.bit.ATN + l.bit.REN, OutputLow),
     Sleep(40000), SetMode(l.bit.ATN, OutputHigh)]
  }

  function SendIfcOps(l: Link): seq<Op> {
    [SetMode(l.bit.IFC, OutputLow), Sleep(150000), SetMode(l.bit.IFC, OutputHigh)]
  }

  /** deinit: INVALID, every bus line released. */
  function DeinitF(c: Ctx, s: Sys): Out<()> {
    Issue(s.(state := Invalid), [SetMode(c.l.mask.all, InputPullup)])
  }

  /**
   * The part of Controller::init before addressing: clear devices to local,
   * deinit, settle, INIT, release the data lines, pulse IFC.
   */
  function InitBusF(c: Ctx, s: Sys): Out<()>
    requires CtxOk(c) && c.l.nt == Controller
  {
    var z := DeinitF(c, s);
    var d := SetStateF(c, z.sys, Init);
    Out(d.sys, SendAllClearOps(c.l) + z.ops + [Sleep(200000)] + d.ops +
               [SetMode(c.l.mask.dio, InputPullup)] + SendIfcOps(c.l), d.log, ())
  }

  /**
   * Controller::init after Node::init (which returns 0): the bus set up,
   * then the primary address addressed to listen when it is above 1.
   */
  function InitF(c: Ctx, s: Sys): Out<int>
    requires CtxOk(c) && c.l.nt == Controller
  {
    var p := InitBusF(c, s);
    if c.cfg.paddr > 1 then Yield(Then(p, AddressF(c, p.sys, c.cfg.paddr, false)), 0)
    else Yield(p, 0)
  }

  // ---------------------------------------------------------------------------
  // receiveData (node.cpp)

  /**
   * How a message ends: by EOI when reading with EOI, else by the end byte
   * when one is to be detected, else by the buffer's terminator test for the
   * configured EOR (has_terminator is not part of this model, so it is given).
   */
  datatype Framing = Framing(rwe: bool, detectEndByte: bool, endByte: Byte, hasTerminator: (seq<Byte>, EOR) -> bool)

  /** readWithEoi. */
  function ReadWithEoi(c: Ctx, detectEoi: bool): bool {
    c.cfg.eoi || detectEoi || c.cfg.eor == EOR.SPACE || c.l.nt == Device
  }

  /** Whether a completed byte db, with eoi seen, ends a message whose buffer is now data. */
  function Ends(c: Ctx, f: Framing, data: seq<Byte>, db: Byte, eoi: bool): bool {
    if f.rwe then eoi
    else if f.detectEndByte then db == f.endByte
    else f.hasTerminator(data, c.cfg.eor)
  }

  /** How the reading loop ended: the last handshake state and the buffer. */
  datatype Ending = Ending(st: HandshakeState, data: seq<Byte>)

  /** A read can complete only while some talker is left. */
  lemma ReadCompletesBeforeQuiet(c: Ctx, s: Sys, db0: Byte, rwe: bool)
    requires CtxOk(c)
    ensures ReadByteF(c, s, db0, rwe).ret.st == Complete ==> s.nh < c.peer.quiet
  {
    if s.nh >= c.peer.quiet {
      SilentReadStalls(c.l, rwe, c.peer.shakes(s.nh), db0);
    }
  }

  /**
   * The receiveData loop: stop at ATN asserted, else read a byte; stop
   * unless it completed; push it; stop when it ends the message.
   */
  function ReceiveLoop(c: Ctx, s: Sys, f: Framing, db0: Byte, data: seq<Byte>): Out<Ending>
    requires CtxOk(c)
    decreases c.peer.quiet - s.nh
  {
    var s1 := s.(ns := s.ns + 1);
    if IsAsserted(c.peer.samples(s.ns), c.l.bit.ATN) then Out(s1, [], [], Ending(Complete, data))
    else
      var r := ReadByteF(c, s1, db0, f.rwe);
      if r.ret.st != Complete then Out(r.sys, r.ops, r.log, Ending(r.ret.st, data))
      else
        var data' := data + [r.ret.db];
        if Ends(c, f, data', r.ret.db, r.ret.eoi) then Out(r.sys, r.ops, r.log, Ending(Complete, data'))
        else
          ReadCompletesBeforeQuiet(c, s1, db0, f.rwe);
          Then(r, ReceiveLoop(c, r.sys, f, r.ret.db, data'))
  }

  /** The outcome of receiveData: its boolean result and the buffer. */
  datatype Received = Received(ok: bool, data: seq<Byte>)

  /**
   * receiveData: LISTEN, release the data lines, read until the message
   * ends, IDLE; true iff the last handshake completed.
   */
  function ReceiveF(c: Ctx, s: Sys, data: seq<Byte>, detectEoi: bool, detectEndByte: bool, endByte: Byte,
                    hasTerminator: (seq<Byte>, EOR) -> bool): Out<Received>
    requires CtxOk(c)
  {
    var f := Framing(ReadWithEoi(c, detectEoi), detectEndByte, endByte, hasTerminator);
    var a0 := SetStateF(c, s, Listen);
    var a := Then(a0, Issue(a0.sys, [SetMode(c.l.mask.dio, InputPullup)]));
    var m := ReceiveLoop(c, a.sys, f, 0, data);
    var z := SetStateF(c, m.sys, Idle);
    Out(z.sys, a.ops + m.ops + z.ops, a.log + m.log + z.log, Received(m.ret.st == Complete, m.ret.data))
  }

  // ---------------------------------------------------------------------------
  // sendData (node.cpp)

  /** The number of terminator bytes the end-of-send setting calls for. */
  function TerminatorCount(eos: EOS): nat {
    match eos
    case CR => 1
    case LF => 1
    case None => 0
    case CRLF => 2
  }

  /** The isLastByte argument of payload byte i of n. */
  function PayloadLast(cfg: Config, n: nat, i: nat): bool {
    if cfg.eoi && TerminatorCount(cfg.eos) == 0 then i == n - 1 else false
  }

  /** The payload loop from byte i on; st is the handshake state so far. */
  function SendLoop(c: Ctx, s: Sys, str: seq<Byte>, i: nat, st: HandshakeState): Out<HandshakeState>
    requires CtxOk(c) && i <= |str|
    decreases |str| - i
  {
    if i == |str| then Out(s, [], [], st)
    else
      var w := WriteByteF(c, s, str[i], PayloadLast(c.cfg, |str|, i));
      if w.ret != Complete then w
      else Then(w, SendLoop(c, w.sys, str, i + 1, w.ret))
  }

  /**
   * Advancing a sendData loop's record by one byte: when `whole` is what
   * the operations t0 and handshakes g0 so far followed by the loop from
   * byte i give, it is what they and this byte's write give, followed by
   * the loop from byte i + 1 when the write completed.
   */
  lemma SendLoopAdvance(c: Ctx, s: Sys, str: seq<Byte>, i: nat, st: HandshakeState,
                        t0: seq<Op>, g0: seq<Xfer>, whole: Out<HandshakeState>)
    requires CtxOk(c) && i < |str|
    requires var o := SendLoop(c, s, str, i, st); whole == Out(o.sys, t0 + o.ops, g0 + o.log, o.ret)
    ensures var w := WriteByteF(c, s, str[i], PayloadLast(c.cfg, |str|, i));
            (w.ret != Complete ==> whole == Out(w.sys, t0 + w.ops, g0 + w.log, w.ret)) &&
            (w.ret == Complete ==>
               var o := SendLoop(c, w.sys, str, i + 1, w.ret);
               whole == Out(o.sys, (t0 + w.ops) + o.ops, (g0 + w.log) + o.log, o.ret))
  {
    var w := WriteByteF(c, s, str[i], PayloadLast(c.cfg, |str|, i));
    if w.ret == Complete {
      var o := SendLoop(c, w.sys, str, i + 1, w.ret);
      assert t0 + (w.ops + o.ops) == (t0 + w.ops) + o.ops;
      assert g0 + (w.log + o.log) == (g0 + w.log) + o.log;
    }
  }

  /** The terminators: CR or LF with EOI as configured, or CR without EOI then LF with it. */
  function SendTerminators(c: Ctx, s: Sys): Out<()>
    requires CtxOk(c)
  {
    match c.cfg.eos
    case CR => Yield(WriteByteF(c, s, CarriageReturn, c.cfg.eoi), ())
    case LF => Yield(WriteByteF(c, s, LineFeed, c.cfg.eoi), ())
    case None => Issue(s, [])
    case CRLF =>
      var a := WriteByteF(c, s, CarriageReturn, false);
      Yield(Then(a, WriteByteF(c, a.sys, LineFeed, c.cfg.eoi)), ())
  }

  /**
   * The body of sendData as written: `state` starts as st0, which the source
   * leaves uninitialised, so with an empty string it decides whether the
   * terminators go out.
   */
  function SendBodyAsWritten(c: Ctx, s: Sys, str: seq<Byte>, st0: HandshakeState): Out<()>
    requires CtxOk(c)
  {
    var p := SendLoop(c, s, str, 0, st0);
    if TerminatorCount(c.cfg.eos) != 0 && p.ret == Complete then Then(p, SendTerminators(c, p.sys))
    else Yield(p, ())
  }

  /** The body of sendData with `state` starting as HANDSHAKE_COMPLETE. */
  function SendBody(c: Ctx, s: Sys, str: seq<Byte>): Out<()>
    requires CtxOk(c)
  {
    SendBodyAsWritten(c, s, str, Complete)
  }

  /** sendData as written: TALK, the body, IDLE. */
  function SendDataAsWritten(c: Ctx, s: Sys, str: seq<Byte>, st0: HandshakeState): Out<()>
    requires CtxOk(c)
  {
    var a := SetStateF(c, s, Talk);
    var m := SendBodyAsWritten(c, a.sys, str, st0);
    Then(Then(a, m), SetStateF(c, m.sys, Idle))
  }

  /** sendData with `state` initialised. */
  function SendDataF(c: Ctx, s: Sys, str: seq<Byte>): Out<()>
    requires CtxOk(c)
  {
    SendDataAsWritten(c, s, str, Complete)
  }

  // ---------------------------------------------------------------------------
  // Properties of the controller role

  /**
   * The talk and listen addresses stay inside their IEEE 488.1 address
   * groups, clear of UNT and UNL, only up to address 30: address 31 gives
   * exactly UNT and UNL, and no range check stops larger addresses from
   * wrapping around eight bits.
   */
  lemma CommandBytes(addr: U8)
    ensures addr <= 30 ==>
              TalkGroup <= TalkAddress(addr) < Untalk && ListenGroup <= ListenAddress(addr) < Unlisten
    ensures addr == 31 ==> TalkAddress(addr) == Untalk && ListenAddress(addr) == Unlisten
    ensures addr >= 0xC0 ==> TalkAddress(addr) == addr - 0xC0 && TalkAddress(addr) < TalkGroup
  {
  }

  /** Every handshake a step called was a write. */
  predicate OnlyWrites(log: seq<Xfer>) {
    forall i :: 0 <= i < |log| ==> log[i].Wrote?
  }

  lemma TwoWrites(log: seq<Xfer>)
    requires |log| <= 2 && (|log| >= 1 ==> log[0].Wrote?) && (|log| == 2 ==> log[1].Wrote?)
    ensures OnlyWrites(log)
  {
  }

  /**
   * sendCmd leaves the controller in COMMAND, entering it (TM_SEND, ATN
   * asserted) only when not already there; it writes the byte once, never
   * as a last byte, so never with EOI, and returns 0 exactly when that
   * handshake completed and -1 otherwise.
   */
  lemma SendCmdFacts(c: Ctx, s: Sys, cmd: Byte)
    requires CtxOk(c) && c.l.nt == Controller
    ensures var o := SendCmdF(c, s, cmd);
            o.sys == s.(state := Command, nh := s.nh + 1) &&
            o.ops == (if s.state == Command then [] else CommandOps(c.l)) +
                     WriteRun(c.l, cmd, false, c.peer.shakes(s.nh)).ops &&
            |o.log| == 1 && o.log[0] == Wrote(cmd, false, o.log[0].st) &&
            (o.ret == 0 <==> o.log[0].st == Complete) && (o.ret == 0 || o.ret == -1)
  {
  }

  /**
   * addressDevice writes UNL first and the talk (or listen) address only if
   * UNL went through, returns -1 at the first failed command, and sets
   * deviceAddressed only when both completed, returning 0.  The controller
   * is left in COMMAND.
   */
  lemma AddressFacts(c: Ctx, s: Sys, addr: U8, talk: bool)
    requires CtxOk(c) && c.l.nt == Controller
    ensures var o := AddressF(c, s, addr, talk);
            o.sys.state == Command && o.sys.ns == s.ns && o.sys.nh == s.nh + |o.log| &&
            1 <= |o.log| <= 2 && o.log[0] == Wrote(Unlisten, false, o.log[0].st) &&
            (o.log[0].st != Complete ==> |o.log| == 1 && o.ret == -1) &&
            (o.log[0].st == Complete ==>
               |o.log| == 2 &&
               o.log[1] == Wrote(if talk then TalkAddress(addr) else ListenAddress(addr), false, o.log[1].st) &&
               (o.ret == 0 <==> o.log[1].st == Complete)) &&
            (o.ret == 0 || o.ret == -1) &&
            o.sys.addressed == (o.ret == 0 || s.addressed)
  {
    var u := SendCmdF(c, s, Unlisten);
    SendCmdFacts(c, s, Unlisten);
    if u.ret >= 0 {
      SendCmdFacts(c, u.sys, if talk then TalkAddress(addr) else ListenAddress(addr));
    }
  }

  /**
   * unAddressDevice returns 1 and does nothing at all when no device is
   * addressed.  Otherwise, after the pause, it writes UNL and then, only if
   * UNL went through, UNT; it clears deviceAddressed and returns 0 only
   * when both completed, and returns -1 with the flag still set otherwise.
   */
  lemma UnAddressFacts(c: Ctx, s: Sys)
    requires CtxOk(c) && c.l.nt == Controller
    ensures var o := UnAddressF(c, s);
            (!s.addressed ==> o == Out(s, [], [], 1)) &&
            (s.addressed ==>
               |o.ops| >= 1 && o.ops[0] == Sleep(30) &&
               o.sys.state == Command && o.sys.ns == s.ns && o.sys.nh == s.nh + |o.log| &&
               1 <= |o.log| <= 2 && o.log[0] == Wrote(Unlisten, false, o.log[0].st) &&
               (o.log[0].st != Complete ==> |o.log| == 1 && o.ret == -1) &&
               (o.log[0].st == Complete ==>
                  |o.log| == 2 && o.log[1] == Wrote(Untalk, false, o.log[1].st) &&
                  (o.ret == 0 <==> o.log[1].st == Complete)) &&
               (o.ret == 0 || o.ret == -1) &&
               o.sys.addressed == (o.ret != 0))
  {
    if s.addressed {
      var u := SendCmdF(c, s, Unlisten);
      SendCmdFacts(c, s, Unlisten);
      if u.ret >= 0 {
        SendCmdFacts(c, u.sys, Untalk);
      }
    }
  }

  /** A device's setState changes nothing. */
  lemma SetStateDevice(c: Ctx, s: Sys, t: State)
    requires CtxOk(c) && c.l.nt == Device
    ensures SetStateF(c, s, t) == Out(s, [], [], ())
  {
  }

  /**
   * For every argument the controller's state ends equal to it, although
   * LISTEN and IDLE pass through COMMAND on the way; only writes are
   * called, and no line test is used.
   */
  lemma SetStateEnds(c: Ctx, s: Sys, t: State)
    requires CtxOk(c) && c.l.nt == Controller
    ensures SetStateF(c, s, t).sys.state == t
    ensures OnlyWrites(SetStateF(c, s, t).log) && SetStateF(c, s, t).sys.ns == s.ns
  {
    var o := SetStateF(c, s, t);
    if t == Listen {
      var a := AddressF(c, s, c.cfg.paddr, true);
      AddressFacts(c, s, c.cfg.paddr, true);
      assert o.log == a.log && o.sys == a.sys.(state := Listen);
      TwoWrites(a.log);
    } else if t == Idle {
      var u := UnAddressF(c, s);
      UnAddressFacts(c, s);
      assert o.log == u.log && o.sys == u.sys.(state := Idle);
      TwoWrites(u.log);
    } else {
      assert o.log == [];
    }
  }

  /**
   * The lines of each controller state: INIT listens to SRQ, drives IFC,
   * REN and ATN high, idles the handshake and asserts REN; COMMAND sends
   * with ATN asserted; TALK sends with ATN cleared; LISTEN addresses the
   * device to talk, then receives with ATN cleared; IDLE un-addresses, then
   * idles with ATN cleared.  What addressing returns is ignored; INVALID
   * issues nothing.
   */
  lemma SetStateLines(c: Ctx, s: Sys, t: State)
    requires CtxOk(c) && c.l.nt == Controller
    ensures var o := SetStateF(c, s, t);
            match t
            case Init => o.ops == InitOps(c.l) && o.log == []
            case Command => o.ops == CommandOps(c.l) && o.log == []
            case Talk =>
              o.ops == TransmitOps(c.l.bit, c.l.mask, TmSend) + [SetMode(c.l.bit.ATN, OutputHigh)] && o.log == []
            case Listen =>
              var a := AddressF(c, s, c.cfg.paddr, true);
              o.ops == a.ops + TransmitOps(c.l.bit, c.l.mask, TmRecv) + [SetMode(c.l.bit.ATN, OutputHigh)] &&
              o.log == a.log && o.sys.addressed == a.sys.addressed
            case Idle =>
              var u := UnAddressF(c, s);
              o.ops == u.ops + TransmitOps(c.l.bit, c.l.mask, TmIdle) + [SetMode(c.l.bit.ATN, OutputHigh)] &&
              o.log == u.log && o.sys.addressed == u.sys.addressed
            case Invalid => o == Out(s.(state := Invalid), [], [], ())
  {
  }

  /**
   * Controller::init returns 0 whatever addressing gives.  It issues the
   * all-clear (REN cleared, ATN and REN asserted, ATN cleared), releases
   * every line, waits 200 ms, configures INIT, releases the data lines and
   * pulses IFC; then, only for a primary address above 1, it addresses that
   * device to listen, which leaves the controller in COMMAND.
   */
  lemma InitFacts(c: Ctx, s: Sys)
    requires CtxOk(c) && c.l.nt == Controller
    ensures var o := InitF(c, s); var s1 := s.(state := Init);
            var head := SendAllClearOps(c.l) + [SetMode(c.l.mask.all, InputPullup)] + [Sleep(200000)] +
                        InitOps(c.l) + [SetMode(c.l.mask.dio, InputPullup)] + SendIfcOps(c.l);
            o.ret == 0 &&
            (c.cfg.paddr > 1 ==>
               var a := AddressF(c, s1, c.cfg.paddr, false);
               o.ops == head + a.ops && o.log == a.log && o.sys == a.sys && o.sys.state == Command) &&
            (c.cfg.paddr <= 1 ==> o.ops == head && o.log == [] && o.sys == s1)
  {
    var s1 := s.(state := Init);
    var z := DeinitF(c, s);
    var d := SetStateF(c, z.sys, Init);
    assert d.ops == InitOps(c.l) && d.sys == s1 && d.log == [];
    if c.cfg.paddr > 1 {
      AddressFacts(c, s1, c.cfg.paddr, false);
    }
  }

  // ---------------------------------------------------------------------------
  // Properties of receiveData

  /** The bytes of the completed reads of a log, in order. */
  function Accepted(log: seq<Xfer>): seq<Byte> {
    if log == [] then []
    else (if log[0].Got? && log[0].st == Complete then [log[0].db] else []) + Accepted(log[1..])
  }

  lemma {:induction false} AcceptedAppend(a: seq<Xfer>, b: seq<Xfer>)
    ensures Accepted(a + b) == Accepted(a) + Accepted(b)
    decreases |a|
  {
    if a != [] {
      assert (a + b)[1..] == a[1..] + b;
      AcceptedAppend(a[1..], b);
    } else {
      assert a + b == b;
    }
  }

  lemma {:induction false} WritesAcceptNothing(log: seq<Xfer>)
    requires OnlyWrites(log)
    ensures Accepted(log) == []
    decreases |log|
  {
    if log != [] {
      WritesAcceptNothing(log[1..]);
    }
  }

  /** Every read of the log completed. */
  predicate ReadsComplete(log: seq<Xfer>) {
    forall i :: 0 <= i < |log| && log[i].Got? ==> log[i].st == Complete
  }

  /** One pass of the receiveData loop, case by case. */
  lemma ReceiveLoopUnfold(c: Ctx, s: Sys, f: Framing, db0: Byte, data: seq<Byte>)
    requires CtxOk(c)
    ensures var o := ReceiveLoop(c, s, f, db0, data); var s1 := s.(ns := s.ns + 1);
            var r := ReadByteF(c, s1, db0, f.rwe); var g := r.ret; var data' := data + [g.db];
            var atn := IsAsserted(c.peer.samples(s.ns), c.l.bit.ATN);
            g.Got? && r.log == [g] && r.sys == s1.(nh := s.nh + 1) &&
            (atn ==> o == Out(s1, [], [], Ending(Complete, data))) &&
            (!atn && g.st != Complete ==> o == Out(r.sys, r.ops, [g], Ending(g.st, data))) &&
            (!atn && g.st == Complete && Ends(c, f, data', g.db, g.eoi) ==>
               o == Out(r.sys, r.ops, [g], Ending(Complete, data'))) &&
            (!atn && g.st == Complete && !Ends(c, f, data', g.db, g.eoi) ==>
               s.nh < c.peer.quiet && o == Then(r, ReceiveLoop(c, r.sys, f, g.db, data')))
  {
    ReadCompletesBeforeQuiet(c, s.(ns := s.ns + 1), db0, f.rwe);
  }

  /**
   * Advancing a receiveData loop's record by one pass: when `whole` is what
   * the operations t0 and handshakes g0 so far followed by the loop give,
   * it is also what they and this pass give, followed by the loop from the
   * next pass when there is one.
   */
  lemma ReceiveLoopAdvance(c: Ctx, s: Sys, f: Framing, db0: Byte, data: seq<Byte>,
                           t0: seq<Op>, g0: seq<Xfer>, whole: Out<Ending>)
    requires CtxOk(c)
    requires var o := ReceiveLoop(c, s, f, db0, data); whole == Out(o.sys, t0 + o.ops, g0 + o.log, o.ret)
    ensures var s1 := s.(ns := s.ns + 1);
            var r := ReadByteF(c, s1, db0, f.rwe); var g := r.ret; var data' := data + [g.db];
            var atn := IsAsserted(c.peer.samples(s.ns), c.l.bit.ATN);
            (atn ==> whole == Out(s1, t0, g0, Ending(Complete, data))) &&
            (!atn && g.st != Complete ==> whole == Out(r.sys, t0 + r.ops, g0 + r.log, Ending(g.st, data))) &&
            (!atn && g.st == Complete && Ends(c, f, data', g.db, g.eoi) ==>
               whole == Out(r.sys, t0 + r.ops, g0 + r.log, Ending(Complete, data'))) &&
            (!atn && g.st == Complete && !Ends(c, f, data', g.db, g.eoi) ==>
               s.nh < c.peer.quiet &&
               var o := ReceiveLoop(c, r.sys, f, g.db, data');
               whole == Out(o.sys, (t0 + r.ops) + o.ops, (g0 + r.log) + o.log, o.ret))
  {
    ReceiveLoopUnfold(c, s, f, db0, data);
    var s1 := s.(ns := s.ns + 1);
    var r := ReadByteF(c, s1, db0, f.rwe);
    var o := ReceiveLoop(c, r.sys, f, r.ret.db, data + [r.ret.db]);
    assert t0 + (r.ops + o.ops) == (t0 + r.ops) + o.ops;
    assert g0 + (r.log + o.log) == (g0 + r.log) + o.log;
  }

  /** Every handshake of the log was a read. */
  predicate OnlyReads(log: seq<Xfer>) {
    forall i :: 0 <= i < |log| ==> log[i].Got?
  }

  /** The receiveData loop only reads, and leaves the state and deviceAddressed alone. */
  lemma {:induction false} ReceiveLoopReads(c: Ctx, s: Sys, f: Framing, db0: Byte, data: seq<Byte>)
    requires CtxOk(c)
    ensures var o := ReceiveLoop(c, s, f, db0, data);
            OnlyReads(o.log) && o.sys.state == s.state && o.sys.addressed == s.addressed
    decreases c.peer.quiet - s.nh
  {
    var s1 := s.(ns := s.ns + 1);
    var r := ReadByteF(c, s1, db0, f.rwe);
    var g := r.ret;
    var data' := data + [g.db];
    ReceiveLoopUnfold(c, s, f, db0, data);
    if !IsAsserted(c.peer.samples(s.ns), c.l.bit.ATN) && g.st == Complete && !Ends(c, f, data', g.db, g.eoi) {
      var rest := ReceiveLoop(c, r.sys, f, g.db, data');
      ReceiveLoopReads(c, r.sys, f, g.db, data');
      OnlyReadsCons(g, rest.log);
    }
  }

  /**
   * The receiveData loop pushes each completed byte once, in order, and
   * never a failed or aborted one.
   */
  lemma {:induction false} ReceiveLoopData(c: Ctx, s: Sys, f: Framing, db0: Byte, data: seq<Byte>)
    requires CtxOk(c)
    ensures var o := ReceiveLoop(c, s, f, db0, data);
            o.ret.data == data + Accepted(o.log)
    decreases c.peer.quiet - s.nh
  {
    var s1 := s.(ns := s.ns + 1);
    var r := ReadByteF(c, s1, db0, f.rwe);
    var g := r.ret;
    var data' := data + [g.db];
    ReceiveLoopUnfold(c, s, f, db0, data);
    AcceptedOne(g);
    if !IsAsserted(c.peer.samples(s.ns), c.l.bit.ATN) && g.st == Complete && !Ends(c, f, data', g.db, g.eoi) {
      var rest := ReceiveLoop(c, r.sys, f, g.db, data');
      ReceiveLoopData(c, r.sys, f, g.db, data');
      AcceptedStep(data, g, rest.ret.data, rest.log);
    }
  }

  lemma AcceptedOne(g: Xfer)
    ensures Accepted([g]) == if g.Got? && g.st == Complete then [g.db] else []
  {
    assert [g][1..] == [];
  }

  /** One more completed byte in front of the log is one more byte in front of the data. */
  lemma AcceptedStep(data: seq<Byte>, g: Xfer, got: seq<Byte>, log: seq<Xfer>)
    requires g.Got? && g.st == Complete
    requires got == data + [g.db] + Accepted(log)
    ensures got == data + Accepted([g] + log)
  {
    assert ([g] + log)[1..] == log;
    assert data + [g.db] + Accepted(log) == data + ([g.db] + Accepted(log));
  }

  lemma OnlyReadsCons(g: Xfer, log: seq<Xfer>)
    requires g.Got? && OnlyReads(log)
    ensures OnlyReads([g] + log)
  {
    var l := [g] + log;
    assert forall i :: 1 <= i < |l| ==> l[i] == log[i - 1];
  }

  lemma ReadsCompleteCons(g: Xfer, log: seq<Xfer>)
    ensures ReadsComplete([g] + log) <==> (g.Got? ==> g.st == Complete) && ReadsComplete(log)
  {
    var l := [g] + log;
    assert l[0] == g;
    assert forall i :: 1 <= i < |l| ==> l[i] == log[i - 1];
    if ReadsComplete(l) {
      forall i | 0 <= i < |log| && log[i].Got? ensures log[i].st == Complete {
        assert l[i + 1] == log[i];
      }
    }
  }

  /**
   * The receiveData loop ends in HANDSHAKE_COMPLETE exactly when every read
   * it made completed, stopping at ATN included.
   */
  lemma {:induction false} ReceiveLoopOk(c: Ctx, s: Sys, f: Framing, db0: Byte, data: seq<Byte>)
    requires CtxOk(c)
    ensures var o := ReceiveLoop(c, s, f, db0, data);
            o.ret.st == Complete <==> ReadsComplete(o.log)
    decreases c.peer.quiet - s.nh
  {
    var s1 := s.(ns := s.ns + 1);
    var r := ReadByteF(c, s1, db0, f.rwe);
    var g := r.ret;
    var data' := data + [g.db];
    ReceiveLoopUnfold(c, s, f, db0, data);
    if IsAsserted(c.peer.samples(s.ns), c.l.bit.ATN) {
    } else if g.st != Complete {
      assert [g][0] == g;
    } else if Ends(c, f, data', g.db, g.eoi) {
    } else {
      var rest := ReceiveLoop(c, r.sys, f, g.db, data');
      ReceiveLoopOk(c, r.sys, f, g.db, data');
      ReadsCompleteCons(g, rest.log);
    }
  }

  /**
   * Reading with EOI, no byte before the last carried EOI; reading to an
   * end byte, no byte before the last was the end byte.
   */
  lemma {:induction false} ReceiveLoopStops(c: Ctx, s: Sys, f: Framing, db0: Byte, data: seq<Byte>)
    requires CtxOk(c)
    ensures var o := ReceiveLoop(c, s, f, db0, data);
            (f.rwe ==> forall i :: 0 <= i < |o.log| - 1 ==> o.log[i].Got? && !o.log[i].eoi) &&
            (!f.rwe && f.detectEndByte ==> forall i :: 0 <= i < |o.log| - 1 ==> o.log[i].db != f.endByte)
    decreases c.peer.quiet - s.nh
  {
    var s1 := s.(ns := s.ns + 1);
    var r := ReadByteF(c, s1, db0, f.rwe);
    var g := r.ret;
    var data' := data + [g.db];
    ReceiveLoopUnfold(c, s, f, db0, data);
    if !IsAsserted(c.peer.samples(s.ns), c.l.bit.ATN) && g.st == Complete && !Ends(c, f, data', g.db, g.eoi) {
      var rest := ReceiveLoop(c, r.sys, f, g.db, data');
      ReceiveLoopStops(c, r.sys, f, g.db, data');
      var l := [g] + rest.log;
      forall i | 0 <= i < |l| - 1
        ensures (f.rwe ==> l[i].Got? && !l[i].eoi) && (!f.rwe && f.detectEndByte ==> l[i].db != f.endByte)
      {
        if i > 0 {
          assert l[i] == rest.log[i - 1];
        }
      }
    }
  }

  /**
   * receiveData pushes each completed byte once, in order, and no failed or
   * aborted one, and returns true exactly when every read it made
   * completed; a controller ends it in IDLE.
   */
  lemma ReceiveFacts(c: Ctx, s: Sys, data: seq<Byte>, detectEoi: bool, detectEndByte: bool, endByte: Byte,
                     hasTerminator: (seq<Byte>, EOR) -> bool)
    requires CtxOk(c)
    ensures var o := ReceiveF(c, s, data, detectEoi, detectEndByte, endByte, hasTerminator);
            o.ret.data == data + Accepted(o.log) &&
            (o.ret.ok <==> ReadsComplete(o.log)) &&
            (c.l.nt == Controller ==> o.sys.state == Idle)
  {
    var f := Framing(ReadWithEoi(c, detectEoi), detectEndByte, endByte, hasTerminator);
    var a0 := SetStateF(c, s, Listen);
    var a := Then(a0, Issue(a0.sys, [SetMode(c.l.mask.dio, InputPullup)]));
    var m := ReceiveLoop(c, a.sys, f, 0, data);
    var z := SetStateF(c, m.sys, Idle);
    ReceiveLoopData(c, a.sys, f, 0, data);
    ReceiveLoopOk(c, a.sys, f, 0, data);
    ReceiveLoopReads(c, a.sys, f, 0, data);
    if c.l.nt == Controller {
      SetStateEnds(c, s, Listen);
      SetStateEnds(c, m.sys, Idle);
    }
    var o := ReceiveF(c, s, data, detectEoi, detectEndByte, endByte, hasTerminator);
    assert o == Out(z.sys, a.ops + m.ops + z.ops, a.log + m.log + z.log, Received(m.ret.st == Complete, m.ret.data));
    assert a.log == a0.log + [];
    ReadsBetweenWrites(a.log, m.log, z.log);
  }

  /** Writes around the reads add no byte and no failed read. */
  lemma ReadsBetweenWrites(a: seq<Xfer>, m: seq<Xfer>, z: seq<Xfer>)
    requires OnlyWrites(a) && OnlyWrites(z)
    ensures Accepted(a + m + z) == Accepted(m)
    ensures ReadsComplete(a + m + z) <==> ReadsComplete(m)
  {
    WritesAcceptNothing(a);
    WritesAcceptNothing(z);
    AcceptedAppend(a, m);
    AcceptedAppend(a + m, z);
    var log := a + m + z;
    forall i | 0 <= i < |log| && log[i].Got?
      ensures log[i] == m[i - |a|]
    {
      assert |a| <= i < |a| + |m|;
    }
    if ReadsComplete(m) {
      forall i | 0 <= i < |log| && log[i].Got? ensures log[i].st == Complete {
        assert log[i] == m[i - |a|];
      }
    }
    if ReadsComplete(log) {
      forall i | 0 <= i < |m| && m[i].Got? ensures m[i].st == Complete {
        assert log[i + |a|] == m[i];
      }
    }
  }

  /**
   * receiveData stops at once, returning true and pushing nothing, when ATN
   * is asserted at the top of its loop, before any byte.
   */
  lemma ReceiveAtnFirst(c: Ctx, s: Sys, data: seq<Byte>, detectEoi: bool, detectEndByte: bool, endByte: Byte,
                        hasTerminator: (seq<Byte>, EOR) -> bool)
    requires CtxOk(c) && IsAsserted(c.peer.samples(s.ns), c.l.bit.ATN)
    ensures ReceiveF(c, s, data, detectEoi, detectEndByte, endByte, hasTerminator).ret == Received(true, data)
  {
    if c.l.nt == Controller {
      SetStateEnds(c, s, Listen);
    }
  }

  /** Two framings that agree on everything that can end a message. */
  ghost predicate SameEnding(f1: Framing, f2: Framing) {
    f1.rwe == f2.rwe &&
    (!f1.rwe ==>
       (f1.detectEndByte == f2.detectEndByte &&
        (f1.detectEndByte ==> f1.endByte == f2.endByte) &&
        (!f1.detectEndByte ==> f1.hasTerminator == f2.hasTerminator)))
  }

  /**
   * Reading with EOI, only EOI ends a message: the end byte and the EOR
   * test are ignored; otherwise a detected end byte decides and the EOR
   * test is ignored.
   */
  lemma {:induction false} ReceiveLoopEnding(c: Ctx, s: Sys, f1: Framing, f2: Framing, db0: Byte, data: seq<Byte>)
    requires CtxOk(c) && SameEnding(f1, f2)
    ensures ReceiveLoop(c, s, f1, db0, data) == ReceiveLoop(c, s, f2, db0, data)
    decreases c.peer.quiet - s.nh
  {
    var s1 := s.(ns := s.ns + 1);
    if !IsAsserted(c.peer.samples(s.ns), c.l.bit.ATN) {
      var r := ReadByteF(c, s1, db0, f1.rwe);
      if r.ret.st == Complete {
        var data' := data + [r.ret.db];
        assert Ends(c, f1, data', r.ret.db, r.ret.eoi) == Ends(c, f2, data', r.ret.db, r.ret.eoi);
        if !Ends(c, f1, data', r.ret.db, r.ret.eoi) {
          ReadCompletesBeforeQuiet(c, s1, db0, f1.rwe);
          ReceiveLoopEnding(c, r.sys, f1, f2, r.ret.db, data');
        }
      }
    }
  }

  /**
   * When receiveData reads with EOI (configured EOI, EOI asked for, EOR
   * SPACE, or a device) its end byte and EOR test make no difference; when
   * it detects an end byte its EOR test makes none.
   */
  lemma ReceiveEnding(c: Ctx, s: Sys, data: seq<Byte>, detectEoi: bool,
                      detectEndByte1: bool, endByte1: Byte, hasTerminator1: (seq<Byte>, EOR) -> bool,
                      detectEndByte2: bool, endByte2: Byte, hasTerminator2: (seq<Byte>, EOR) -> bool)
    requires CtxOk(c)
    requires ReadWithEoi(c, detectEoi) ||
             (detectEndByte1 && detectEndByte2 && endByte1 == endByte2)
    ensures ReceiveF(c, s, data, detectEoi, detectEndByte1, endByte1, hasTerminator1) ==
            ReceiveF(c, s, data, detectEoi, detectEndByte2, endByte2, hasTerminator2)
  {
    var f1 := Framing(ReadWithEoi(c, detectEoi), detectEndByte1, endByte1, hasTerminator1);
    var f2 := Framing(ReadWithEoi(c, detectEoi), detectEndByte2, endByte2, hasTerminator2);
    var a0 := SetStateF(c, s, Listen);
    var a := Then(a0, Issue(a0.sys, [SetMode(c.l.mask.dio, InputPullup)]));
    ReceiveLoopEnding(c, a.sys, f1, f2, 0, data);
  }
  // ---------------------------------------------------------------------------
  // Properties of sendData

  /** The terminator bytes EOS calls for. */
  function TerminatorBytes(eos: EOS): (t: seq<Byte>)
    ensures |t| == TerminatorCount(eos)
  {
    match eos
    case CR => [CarriageReturn]
    case LF => [LineFeed]
    case None => []
    case CRLF => [CarriageReturn, LineFeed]
  }

  /** The whole message sendData puts on the bus: the string, then its terminators. */
  function Message(cfg: Config, str: seq<Byte>): seq<Byte> {
    str + TerminatorBytes(cfg.eos)
  }

  /**
   * The log is a prefix of the message, sent byte by byte in order, with EOI
   * on exactly the last byte of the message when EOI is configured.
   */
  ghost predicate SentPrefix(cfg: Config, str: seq<Byte>, log: seq<Xfer>) {
    var m := Message(cfg, str);
    |log| <= |m| && OnlyWrites(log) &&
    forall k :: 0 <= k < |log| ==> log[k].db == m[k] && log[k].last == (cfg.eoi && k == |m| - 1)
  }

  /** The isLastByte a payload byte gets is "EOI configured and last byte of the message". */
  lemma PayloadLastIsMessageEnd(cfg: Config, str: seq<Byte>, i: nat)
    requires i < |str|
    ensures PayloadLast(cfg, |str|, i) == (cfg.eoi && i == |Message(cfg, str)| - 1)
  {
  }

  /**
   * What the payload loop from byte i logs: at most the remaining bytes, in
   * order with their isLastByte flags; every write but the last completed;
   * the result is the last write's state (st when nothing was written); and
   * stopping before the end means a write failed.
   */
  ghost predicate LoopLog(cfg: Config, str: seq<Byte>, i: nat, st: HandshakeState, log: seq<Xfer>,
                          ret: HandshakeState) {
    i + |log| <= |str| && OnlyWrites(log) &&
    (forall k :: 0 <= k < |log| ==> log[k].db == str[i + k] && log[k].last == PayloadLast(cfg, |str|, i + k)) &&
    (forall k :: 0 <= k < |log| - 1 ==> log[k].st == Complete) &&
    ret == (if log == [] then st else log[|log| - 1].st) &&
    (i + |log| < |str| ==> ret != Complete)
  }

  lemma LoopLogCons(cfg: Config, str: seq<Byte>, i: nat, st: HandshakeState, w: Xfer, rest: seq<Xfer>,
                    ret: HandshakeState)
    requires i < |str| && w == Wrote(str[i], PayloadLast(cfg, |str|, i), Complete)
    requires LoopLog(cfg, str, i + 1, Complete, rest, ret)
    ensures LoopLog(cfg, str, i, st, [w] + rest, ret)
  {
    var l := [w] + rest;
    assert forall k :: 1 <= k < |l| ==> l[k] == rest[k - 1];
  }

  /** What the payload loop from byte i on leaves: its record, and one handshake used per write. */
  ghost predicate SendLoopPost(c: Ctx, s: Sys, str: seq<Byte>, i: nat, st: HandshakeState)
    requires CtxOk(c) && i <= |str|
  {
    var o := SendLoop(c, s, str, i, st);
    LoopLog(c.cfg, str, i, st, o.log, o.ret) && o.sys == s.(nh := s.nh + |o.log|)
  }

  /** The payload loop, by induction on the bytes left. */
  lemma {:induction false} SendLoopFacts(c: Ctx, s: Sys, str: seq<Byte>, i: nat, st: HandshakeState)
    requires CtxOk(c) && i <= |str|
    ensures var o := SendLoop(c, s, str, i, st);
            LoopLog(c.cfg, str, i, st, o.log, o.ret) && o.sys == s.(nh := s.nh + |o.log|)
    decreases |str| - i
  {
    if i == |str| {
      assert SendLoop(c, s, str, i, st) == Out(s, [], [], st);
    } else {
      var w := WriteByteF(c, s, str[i], PayloadLast(c.cfg, |str|, i));
      if w.ret == Complete {
        SendLoopFacts(c, w.sys, str, i + 1, w.ret);
        SendLoopNext(c, s, str, i, st);
      } else {
        SendLoopStop(c, s, str, i, st);
      }
    }
    assert SendLoopPost(c, s, str, i, st);
  }

  /** A byte that went through: the loop's record is that write, then the record from the next byte. */
  lemma SendLoopNext(c: Ctx, s: Sys, str: seq<Byte>, i: nat, st: HandshakeState)
    requires CtxOk(c) && i < |str|
    requires var w := WriteByteF(c, s, str[i], PayloadLast(c.cfg, |str|, i));
             w.ret == Complete && SendLoopPost(c, w.sys, str, i + 1, w.ret)
    ensures SendLoopPost(c, s, str, i, st)
  {
    var last := PayloadLast(c.cfg, |str|, i);
    var w := WriteByteF(c, s, str[i], last);
    var rest := SendLoop(c, w.sys, str, i + 1, w.ret);
    LoopLogCons(c.cfg, str, i, st, Wrote(str[i], last, Complete), rest.log, rest.ret);
    assert SendLoop(c, s, str, i, st) == Then(w, rest);
  }

  /** A byte that did not go through ends the loop with that write alone. */
  lemma SendLoopStop(c: Ctx, s: Sys, str: seq<Byte>, i: nat, st: HandshakeState)
    requires CtxOk(c) && i < |str|
    requires WriteByteF(c, s, str[i], PayloadLast(c.cfg, |str|, i)).ret != Complete
    ensures SendLoopPost(c, s, str, i, st)
  {
    var w := WriteByteF(c, s, str[i], PayloadLast(c.cfg, |str|, i));
    assert SendLoop(c, s, str, i, st) == w;
  }

  /** The terminators: what each EOS setting writes, in order, with its EOI flag. */
  lemma SendTerminatorsFacts(c: Ctx, s: Sys)
    requires CtxOk(c)
    ensures var o := SendTerminators(c, s); var t := TerminatorBytes(c.cfg.eos);
            |o.log| == |t| && OnlyWrites(o.log) && o.sys == s.(nh := s.nh + |t|) &&
            forall k :: 0 <= k < |t| ==> o.log[k].db == t[k] && o.log[k].last == (c.cfg.eoi && k == |t| - 1)
  {
    var o := SendTerminators(c, s);
    if c.cfg.eos == EOS.CRLF {
      var a := WriteByteF(c, s, CarriageReturn, false);
      var b := WriteByteF(c, a.sys, LineFeed, c.cfg.eoi);
      assert o.log == [a.log[0], b.log[0]];
    }
  }

  /**
   * Payload bytes and the terminators after them make a prefix of the
   * message; complete payload and terminators make the whole message.
   */
  lemma MessageJoin(cfg: Config, str: seq<Byte>, p: seq<Xfer>, t: seq<Xfer>)
    requires LoopLog(cfg, str, 0, Complete, p, Complete) && |p| == |str|
    requires var tb := TerminatorBytes(cfg.eos);
             |t| == |tb| && OnlyWrites(t) &&
             forall k :: 0 <= k < |tb| ==> t[k].db == tb[k] && t[k].last == (cfg.eoi && k == |tb| - 1)
    ensures SentPrefix(cfg, str, p + t) && |p + t| == |Message(cfg, str)|
  {
    var l := p + t;
    var m := Message(cfg, str);
    forall k | 0 <= k < |l| ensures l[k].Wrote? && l[k].db == m[k] && l[k].last == (cfg.eoi && k == |m| - 1) {
      if k < |p| {
        assert l[k] == p[k];
        PayloadLastIsMessageEnd(cfg, str, k);
      } else {
        assert l[k] == t[k - |p|];
      }
    }
  }

  /** A payload log that stopped early, or sent no terminators, is a prefix of the message. */
  lemma PayloadPrefix(cfg: Config, str: seq<Byte>, st0: HandshakeState, p: seq<Xfer>, ret: HandshakeState)
    requires LoopLog(cfg, str, 0, st0, p, ret)
    ensures SentPrefix(cfg, str, p)
  {
    forall k | 0 <= k < |p| ensures p[k].db == Message(cfg, str)[k] {
      PayloadLastIsMessageEnd(cfg, str, k);
    }
  }

  /**
   * The body of sendData (string and terminators) writes a prefix of the
   * message, EOI on the last message byte only when EOI is configured; it
   * stops right after the first payload byte that fails; and if no payload
   * byte failed it writes the whole message, terminators included (a failed
   * CR of CR+LF does not stop the LF).
   */
  lemma SendBodyFacts(c: Ctx, s: Sys, str: seq<Byte>)
    requires CtxOk(c)
    ensures var o := SendBody(c, s, str);
            SentPrefix(c.cfg, str, o.log) && o.sys == s.(nh := s.nh + |o.log|) &&
            (forall k :: 0 <= k < |o.log| && k < |str| && o.log[k].st != Complete ==> |o.log| == k + 1) &&
            ((forall k :: 0 <= k < |o.log| && k < |str| ==> o.log[k].st == Complete) ==>
               |o.log| == |Message(c.cfg, str)|)
  {
    var p := SendLoop(c, s, str, 0, Complete);
    SendLoopFacts(c, s, str, 0, Complete);
    var o := SendBody(c, s, str);
    if TerminatorCount(c.cfg.eos) != 0 && p.ret == Complete {
      var t := SendTerminators(c, p.sys);
      SendTerminatorsFacts(c, p.sys);
      assert o == Then(p, t);
      assert |p.log| == |str|;
      MessageJoin(c.cfg, str, p.log, t.log);
      forall k | 0 <= k < |o.log| && k < |str| ensures o.log[k] == p.log[k] {
      }
    } else {
      assert o.log == p.log;
      PayloadPrefix(c.cfg, str, Complete, p.log, p.ret);
    }
  }

  /**
   * As written, sendData leaves `state` uninitialised: with an empty string
   * and a terminator configured, an indeterminate value other than
   * HANDSHAKE_COMPLETE sends no terminator at all, though no byte failed.
   */
  lemma SendEmptyAsWritten(c: Ctx, s: Sys, st0: HandshakeState)
    requires CtxOk(c) && c.cfg.eos != EOS.None && st0 != Complete
    ensures SendBodyAsWritten(c, s, [], st0).log == []
    ensures |Message(c.cfg, [])| > 0
  {
  }

  /** With `state` initialised, the empty string still gets its terminators. */
  lemma SendEmptyCorrected(c: Ctx, s: Sys)
    requires CtxOk(c)
    ensures |SendBody(c, s, []).log| == TerminatorCount(c.cfg.eos)
  {
    SendBodyFacts(c, s, []);
  }

  /**
   * sendData: the body runs in TALK, and a controller ends in IDLE having
   * written nothing after the body but the UNL/UNT of unaddressing.
   */
  lemma SendDataFacts(c: Ctx, s: Sys, str: seq<Byte>)
    requires CtxOk(c)
    ensures var o := SendDataF(c, s, str); var a := SetStateF(c, s, Talk);
            var m := SendBody(c, a.sys, str); var z := SetStateF(c, m.sys, Idle);
            o.log == m.log + z.log && OnlyWrites(z.log) &&
            (c.l.nt == Controller ==> a.sys.state == Talk && o.sys.state == Idle && |z.log| <= 2)
  {
    var a := SetStateF(c, s, Talk);
    var m := SendBody(c, a.sys, str);
    var z := SetStateF(c, m.sys, Idle);
    assert SendDataF(c, s, str) == Then(Then(a, m), z);
    TalkFacts(c, s);
    ThenQuiet(a, m, z);
    if c.l.nt == Controller {
      IdleFacts(c, m.sys);
    } else {
      SetStateDevice(c, m.sys, Idle);
    }
  }

  /** Entering TALK writes nothing. */
  lemma TalkFacts(c: Ctx, s: Sys)
    requires CtxOk(c)
    ensures SetStateF(c, s, Talk).log == []
    ensures c.l.nt == Controller ==> SetStateF(c, s, Talk).sys == s.(state := Talk)
  {
  }

  /** A silent first step contributes nothing to the log. */
  lemma ThenQuiet<A, B, C>(a: Out<A>, m: Out<B>, z: Out<C>)
    requires a.log == []
    ensures Then(Then(a, m), z).log == m.log + z.log && Then(Then(a, m), z).sys == z.sys
  {
    assert a.log + m.log == m.log;
  }

  /** Entering IDLE writes at most UNL and UNT. */
  lemma IdleFacts(c: Ctx, s: Sys)
    requires CtxOk(c) && c.l.nt == Controller
    ensures var z := SetStateF(c, s, Idle);
            z.sys.state == Idle && OnlyWrites(z.log) && |z.log| <= 2
  {
    SetStateEnds(c, s, Idle);
    UnAddressFacts(c, s);
  }
}
