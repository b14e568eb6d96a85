/**
 * The core of the bootloader (bootloader.c): the loop that takes HEX records
 * one by one and hands them to the flash writer, and the decision whether
 * to stay in the bootloader or start the application.
 */
module Bootloader {
  import opened Types
  import opened Hex
  import opened Flash
  import Header

  /** The flash address of a data record: `(msb_addr << 16) | HEX.address`. */
  function LinearAddress(msb: U16, address: U16): (a: nat)
    ensures a == msb * 0x1_0000 + address && a < 0x1_0000_0000
  {
    assert Pow2(16) == 0x1_0000 by {
      Pow2Facts();
    }
    BitOrLow(msb, address, 16);
    BitOr(msb * 0x1_0000, address)
  }

  /** The upper address half an Extended Linear Address record carries: `data[0] << 8 | data[1]`. */
  function UpperAddress(r: Record): (msb: U16)
    requires |r.data| == DataCap
    ensures msb == r.data[0] as int * 0x100 + r.data[1]
  {
    Pow2Facts();
    BitOrLow(r.data[0], r.data[1], 8);
    BitOr(r.data[0] as int * 0x100, r.data[1])
  }

  /** What bootloader_load_program keeps between records: msb_addr, new_addr, and the flash writer. */
  datatype Loader = Loader(msb: U16, pending: bool, w: Writer)

  /** The loader after one record, the flash operations it issued, and whether it was the last. */
  datatype Dispatched = Dispatched(s: Loader, ops: seq<FlashOp>, done: bool)

  /** A pending address is set on the flash writer (and no longer pending); without one nothing happens. */
  function Relocate(s: Loader, r: Record): (d: Dispatched)
    requires WellFormed(s.w)
    ensures WellFormed(d.s.w) && !d.s.pending && d.s.msb == s.msb && !d.done
  {
    if s.pending then
      var st := NewAddressF(s.w, LinearAddress(s.msb, r.address));
      Dispatched(Loader(s.msb, false, st.w), st.ops, false)
    else Dispatched(s, [], false)
  }

  /**
   * One pass of the switch in bootloader_load_program: a data record is
   * taken in (after the pending address, if any), end of file finalizes the
   * flash (after the pending address, if any) and ends the load, an Extended
   * Linear Address record sets the upper address half and makes it pending,
   * and every other record type is skipped.
   */
  function Dispatch(r: Record, s: Loader): (d: Dispatched)
    requires WellFormed(s.w) && r.count <= DataCap && |r.data| == DataCap
    ensures WellFormed(d.s.w)
    ensures d.done <==> r.rtype == EndOfFileType
  {
    if r.rtype == DataType then
      var a := Relocate(s, r);
      var st := IntakeF(a.s.w, r.data[..r.count]);
      Dispatched(a.s.(w := st.w), a.ops + st.ops, false)
    else if r.rtype == EndOfFileType then
      var a := Relocate(s, r);
      var st := FinalizeF(a.s.w);
      Dispatched(a.s, a.ops + st.ops, true)
    else if r.rtype == ExtendedLinearAddressType then
      Dispatched(s.(msb := UpperAddress(r), pending := true), [], false)
    else Dispatched(s, [], false)
  }

  /** An Extended Linear Address record touches no flash: it only records the upper half and makes it pending. */
  lemma DispatchExtended(r: Record, s: Loader)
    requires WellFormed(s.w) && r.count <= DataCap && |r.data| == DataCap
    requires r.rtype == ExtendedLinearAddressType
    ensures var d := Dispatch(r, s);
      d.ops == [] && !d.done && d.s.w == s.w && d.s.pending && d.s.msb == r.data[0] as int * 0x100 + r.data[1]
  {
  }

  /**
   * The first data record after an Extended Linear Address record moves the
   * writer to (msb << 16) | address once, erasing that sector, and then takes
   * the record's bytes in at the new address; the address is then no longer
   * pending.
   */
  lemma DispatchDataPending(r: Record, s: Loader)
    requires WellFormed(s.w) && r.count <= DataCap && |r.data| == DataCap
    requires r.rtype == DataType && s.pending
    ensures var d := Dispatch(r, s);
      var target := s.msb * 0x1_0000 + r.address;
      var n := NewAddressF(s.w, target);
      d.ops == n.ops + IntakeF(n.w, r.data[..r.count]).ops &&
      n.ops[|n.ops| - 1] == Erase(target) && n.w.programming == target &&
      d.s.w == IntakeF(n.w, r.data[..r.count]).w && !d.s.pending && !d.done
  {
    NewAddressFacts(s.w, s.msb * 0x1_0000 + r.address);
  }

  /**
   * With no address pending a data record only goes to the intake, and its
   * own address field is ignored: any other address gives the same result.
   */
  lemma DispatchDataDirect(r: Record, s: Loader, other: U16)
    requires WellFormed(s.w) && r.count <= DataCap && |r.data| == DataCap
    requires r.rtype == DataType && !s.pending
    ensures var d := Dispatch(r, s);
      d == Dispatched(s.(w := IntakeF(s.w, r.data[..r.count]).w), IntakeF(s.w, r.data[..r.count]).ops, false) &&
      Dispatch(r.(address := other), s) == d
  {
  }

  /**
   * End of file finalizes the flash, after moving to the pending address if
   * there is one, and ends the load: its last operation programs the kept
   * first page at the application's offset.
   */
  lemma DispatchEndOfFile(r: Record, s: Loader)
    requires WellFormed(s.w) && r.count <= DataCap && |r.data| == DataCap
    requires r.rtype == EndOfFileType
    ensures var d := Dispatch(r, s);
      d.done && |d.ops| >= 2 && d.ops[|d.ops| - 1] == Program(MainAppFlashOffset, s.w.firstBuffer) &&
      (!s.pending ==> d.ops == FinalizeF(s.w).ops && d.s == s)
  {
    var a := Relocate(s, r);
    FinalizeFacts(a.s.w);
    if s.pending {
      NewAddressFacts(s.w, LinearAddress(s.msb, r.address));
    }
  }

  /** Record types other than data, end of file and Extended Linear Address change nothing. */
  lemma DispatchOther(r: Record, s: Loader)
    requires WellFormed(s.w) && r.count <= DataCap && |r.data| == DataCap
    requires r.rtype != DataType && r.rtype != EndOfFileType && r.rtype != ExtendedLinearAddressType
    ensures Dispatch(r, s) == Dispatched(s, [], false)
  {
  }

  /** A record that does not end the load keeps the flash writer's safety invariant. */
  lemma DispatchSafe(log: seq<FlashOp>, r: Record, s: Loader)
    requires WellFormed(s.w) && r.count <= DataCap && |r.data| == DataCap
    requires Safe(log, s.w) && r.rtype != EndOfFileType
    ensures var d := Dispatch(r, s); Safe(log + d.ops, d.s.w)
  {
    if r.rtype == DataType {
      var a := Relocate(s, r);
      if s.pending {
        NewAddressSafe(log, s.w, LinearAddress(s.msb, r.address));
      } else {
        assert log + a.ops == log;
      }
      IntakeSafe(log + a.ops, a.s.w, r.data[..r.count]);
      var st := IntakeF(a.s.w, r.data[..r.count]);
      AppendAssoc(log, a.ops, st.ops);
    } else {
      assert log + [] == log;
    }
  }

  /** The end of a load: whether it finished, the loader, the flash operations, and the HEX input's state. */
  datatype Loaded = Loaded(ok: bool, s: Loader, ops: seq<FlashOp>, hex: Record, rest: seq<U8>, replies: seq<U8>)

  /**
   * bootloader_load_program: load records and dispatch them until end of
   * file.  hex_load returns without a record only when the input has run out
   * (the source would wait for more), and then the load has not finished.
   */
  function LoadProgramF(input: seq<U8>, h: Record, s: Loader): (p: Loaded)
    requires AllFit(input) && |h.data| == DataCap && WellFormed(s.w)
    ensures !p.ok ==> p.rest == []
    ensures p.ok ==> p.hex.rtype == EndOfFileType
    ensures WellFormed(p.s.w) && |p.hex.data| == DataCap
    decreases |input|
  {
    var l := LoadF(input, h);
    if !l.loaded then Loaded(false, s, [], l.hex, l.rest, l.replies)
    else
      var d := Dispatch(l.hex, s);
      if d.done then Loaded(true, d.s, d.ops, l.hex, l.rest, l.replies)
      else
        var p := LoadProgramF(l.rest, l.hex, d.s);
        p.(ops := d.ops + p.ops, replies := l.replies + p.replies)
  }

  /**
   * A finished load leaves the flash with every page programmed inside a
   * sector erased before it, except the very last operation, which programs
   * the kept first page at the application's offset.
   */
  lemma {:induction false} LoadProgramSafe(log: seq<FlashOp>, input: seq<U8>, h: Record, s: Loader)
    requires AllFit(input) && |h.data| == DataCap && WellFormed(s.w) && Safe(log, s.w)
    ensures var p := LoadProgramF(input, h, s); p.ok ==> SafeFinish(log, p.ops)
    decreases |input|
  {
    var l := LoadF(input, h);
    if l.loaded {
      var d := Dispatch(l.hex, s);
      if d.done {
        EndOfFileSafe(log, l.hex, s);
      } else {
        DispatchSafe(log, l.hex, s);
        LoadProgramSafe(log + d.ops, l.rest, l.hex, d.s);
        var p := LoadProgramF(l.rest, l.hex, d.s);
        if p.ok {
          SafeFinishPrepend(log, d.ops, p.ops);
        }
      }
    }
  }

  /**
   * The flash operations of a finished load: every page programmed lies in a
   * sector erased before it, except the last operation, which programs the
   * application's first page.
   */
  ghost predicate SafeFinish(log: seq<FlashOp>, ops: seq<FlashOp>) {
    |ops| >= 1 && ProgramsErased(log + ops[..|ops| - 1]) &&
    ops[|ops| - 1].Program? && ops[|ops| - 1].addr == MainAppFlashOffset
  }

  lemma SafeFinishPrepend(log: seq<FlashOp>, d: seq<FlashOp>, p: seq<FlashOp>)
    requires SafeFinish(log + d, p)
    ensures SafeFinish(log, d + p)
  {
    AppendAssoc(log, d, p[..|p| - 1]);
    DropLast(d, p);
  }

  /** Dropping the last element of a concatenation whose second part is not empty. */
  lemma DropLast<T>(a: seq<T>, b: seq<T>)
    requires |b| >= 1
    ensures (a + b)[..|a + b| - 1] == a + b[..|b| - 1] && (a + b)[|a + b| - 1] == b[|b| - 1]
  {
  }

  /** End of file, pending address or not, programs only erased pages before its final operation. */
  lemma EndOfFileSafe(log: seq<FlashOp>, r: Record, s: Loader)
    requires WellFormed(s.w) && r.count <= DataCap && |r.data| == DataCap
    requires Safe(log, s.w) && r.rtype == EndOfFileType
    ensures var d := Dispatch(r, s);
      |d.ops| >= 1 && ProgramsErased(log + d.ops[..|d.ops| - 1]) &&
      d.ops[|d.ops| - 1] == Program(MainAppFlashOffset, s.w.firstBuffer)
  {
    var a := Relocate(s, r);
    if s.pending {
      NewAddressSafe(log, s.w, LinearAddress(s.msb, r.address));
    } else {
      assert log + a.ops == log;
    }
    FinalizeSafe(log + a.ops, a.s.w);
    FinalizeFacts(a.s.w);
    var f := FinalizeF(a.s.w);
    var d := Dispatch(r, s);
    assert d.ops == a.ops + f.ops;
    assert d.ops[..|d.ops| - 1] == a.ops + f.ops[..|f.ops| - 1];
    AppendAssoc(log, a.ops, f.ops[..|f.ops| - 1]);
  }

  /** One record of the loop, on the flash writer: the switch of bootloader_load_program. */
  method DispatchRecord(flash: FlashWriter, r: Record, msb: U16, pending: bool)
    returns (msb': U16, pending': bool, done: bool)
    requires flash.Valid() && r.count <= DataCap && |r.data| == DataCap
    modifies flash, flash.flashbuffer, flash.firstPageBuffer
    ensures flash.Valid()
    ensures var d := Dispatch(r, Loader(msb, pending, old(flash.State())));
      Loader(msb', pending', flash.State()) == d.s && flash.log == old(flash.log) + d.ops && done == d.done
  {
    ghost var s := Loader(msb, pending, flash.State());
    ghost var log0 := flash.log;
    msb', pending', done := msb, pending, false;
    if r.rtype == DataType || r.rtype == EndOfFileType {
      ghost var a := Relocate(s, r);
      if pending {
        flash.NewAddress(LinearAddress(msb, r.address));
        pending' := false;
      } else {
        assert log0 + [] == log0;
      }
      assert flash.State() == a.s.w && flash.log == log0 + a.ops;
      if r.rtype == DataType {
        flash.Intake(r.data, r.count);
      } else {
        flash.Finalize();
        done := true;
      }
      AppendAssoc(log0, a.ops, flash.log[|log0 + a.ops|..]);
    } else if r.rtype == ExtendedLinearAddressType {
      msb', pending' := UpperAddress(r), true;
      assert flash.log == log0 + [];
    } else {
      assert flash.log == log0 + [];
    }
  }

  /** What is left of a load under way: the whole load is what was done so far, then the remaining load. */
  ghost predicate ProgramRemains(whole: Loaded, ops: seq<FlashOp>, said: seq<U8>, input: seq<U8>, h: Record, s: Loader) {
    AllFit(input) && |h.data| == DataCap && WellFormed(s.w) &&
    var p := LoadProgramF(input, h, s);
    whole.ok == p.ok && whole.s == p.s && whole.hex == p.hex && whole.rest == p.rest &&
    whole.ops == ops + p.ops && whole.replies == said + p.replies
  }

  /** One pass of bootloader_load_program's loop: load a record and dispatch it. */
  method ProgramPass(hexIn: HexInput, flash: FlashWriter, msb: U16, newAddr: bool, ghost whole: Loaded,
                     ghost logBase: seq<FlashOp>, ghost replyBase: seq<U8>, ghost ops: seq<FlashOp>, ghost said: seq<U8>)
    returns (msb': U16, newAddr': bool, stop: bool, ok: bool, ghost ops': seq<FlashOp>, ghost said': seq<U8>)
    requires hexIn.Valid() && flash.Valid()
    requires flash.flashbuffer != hexIn.buffer && flash.flashbuffer != hexIn.loadBuffer
    requires flash.firstPageBuffer != hexIn.buffer && flash.firstPageBuffer != hexIn.loadBuffer
    requires ProgramRemains(whole, ops, said, hexIn.input, hexIn.hex, Loader(msb, newAddr, flash.State()))
    requires flash.log == logBase + ops && hexIn.replies == replyBase + said
    modifies hexIn, hexIn.buffer, hexIn.loadBuffer, flash, flash.flashbuffer, flash.firstPageBuffer
    ensures hexIn.Valid() && flash.Valid()
    ensures stop ==> (ok == whole.ok && flash.State() == whole.s.w && flash.log == logBase + whole.ops &&
      hexIn.hex == whole.hex && hexIn.input == whole.rest && hexIn.replies == replyBase + whole.replies)
    ensures !stop ==> (|hexIn.input| < |old(hexIn.input)| &&
      ProgramRemains(whole, ops', said', hexIn.input, hexIn.hex, Loader(msb', newAddr', flash.State())) &&
      flash.log == logBase + ops' && hexIn.replies == replyBase + said')
  {
    ghost var in0, h0, s0 := hexIn.input, hexIn.hex, Loader(msb, newAddr, flash.State());
    ghost var log0 := flash.log;
    msb', newAddr', ops', said' := msb, newAddr, ops, said;
    var loaded := hexIn.HexLoad();
    ghost var l := LoadF(in0, h0);
    assert flash.State() == s0.w && flash.log == log0;
    if !loaded {
      AppendAssoc(replyBase, said, l.replies);
      assert ops + [] == ops;
      return msb, newAddr, true, false, ops, said;
    }
    var done;
    msb', newAddr', done := DispatchRecord(flash, hexIn.hex, msb, newAddr);
    ghost var d := Dispatch(l.hex, s0);
    AppendAssoc(logBase, ops, d.ops);
    AppendAssoc(replyBase, said, l.replies);
    if done {
      return msb', newAddr', true, true, ops, said;
    }
    ghost var p := LoadProgramF(hexIn.input, hexIn.hex, d.s);
    AppendAssoc(ops, d.ops, p.ops);
    AppendAssoc(said, l.replies, p.replies);
    ops', said' := ops + d.ops, said + l.replies;
    stop, ok := false, false;
  }

  /**
   * bootloader_load_program on the HEX input and the flash writer, from
   * msb_addr 0 with no address pending.
   */
  method LoadProgram(hexIn: HexInput, flash: FlashWriter) returns (ok: bool)
    requires hexIn.Valid() && flash.Valid() && AllFit(hexIn.input)
    requires flash.flashbuffer != hexIn.buffer && flash.flashbuffer != hexIn.loadBuffer
    requires flash.firstPageBuffer != hexIn.buffer && flash.firstPageBuffer != hexIn.loadBuffer
    modifies hexIn, hexIn.buffer, hexIn.loadBuffer, flash, flash.flashbuffer, flash.firstPageBuffer
    ensures hexIn.Valid() && flash.Valid()
    ensures var p := LoadProgramF(old(hexIn.input), old(hexIn.hex), Loader(0, false, old(flash.State())));
      ok == p.ok && flash.State() == p.s.w && flash.log == old(flash.log) + p.ops &&
      hexIn.hex == p.hex && hexIn.input == p.rest && hexIn.replies == old(hexIn.replies) + p.replies
  {
    var msb: U16 := 0;
    var newAddr := false;
    ghost var whole := LoadProgramF(hexIn.input, hexIn.hex, Loader(0, false, flash.State()));
    ghost var ops: seq<FlashOp> := [];
    ghost var said: seq<U8> := [];
    assert flash.log == old(flash.log) + ops && hexIn.replies == old(hexIn.replies) + said;
    while true
      invariant hexIn.Valid() && flash.Valid()
      invariant flash.flashbuffer != hexIn.buffer && flash.flashbuffer != hexIn.loadBuffer
      invariant flash.firstPageBuffer != hexIn.buffer && flash.firstPageBuffer != hexIn.loadBuffer
      invariant ProgramRemains(whole, ops, said, hexIn.input, hexIn.hex, Loader(msb, newAddr, flash.State()))
      invariant flash.log == old(flash.log) + ops && hexIn.replies == old(hexIn.replies) + said
      decreases |hexIn.input|
    {
      var stop;
      msb, newAddr, stop, ok, ops, said :=
        ProgramPass(hexIn, flash, msb, newAddr, whole, old(flash.log), old(hexIn.replies), ops, said);
      if stop {
        return ok;
      }
    }
  }

  // ---------------------------------------------------------------------------
  // Staying in the bootloader or starting the application

  /**
   * What check_flash_crc32 reads: the 12-byte image header (laid out as
   * header.py packs it: load address, size, CRC-32, each a little-endian
   * word) and the main flash region, whose length is FLASH_MAIN_LENGTH.
   */
  datatype Image = Image(header: seq<U8>, main: seq<U8>)

  predicate HasHeader(img: Image) {
    |img.header| == 12
  }

  /** The size word of the header: how many bytes of the main region the CRC covers. */
  function CrcSize(img: Image): nat
    requires HasHeader(img)
  {
    Header.FromLittleEndian(img.header[4..8])
  }

  /** The CRC word of the header. */
  function CrcStored(img: Image): nat
    requires HasHeader(img)
  {
    Header.FromLittleEndian(img.header[8..12])
  }

  /**
   * check_flash_crc32's answer: false when the size word exceeds the main
   * region, else whether the CRC over that many bytes equals the CRC word.
   * The CRC the DMA sniffer computes is the parameter crc.
   */
  predicate CrcPasses(img: Image, crc: seq<U8> -> U32)
    requires HasHeader(img)
  {
    CrcSize(img) <= |img.main| && CrcStored(img) == crc(img.main[..CrcSize(img)])
  }

  /**
   * An image whose header header.py packed from the bytes now at the start
   * of the main region passes the check, when the sniffer computes the same
   * CRC-32 the script did.
   */
  lemma PackedImagePasses(addr: Header.Address, idata: seq<U8>, crc32: seq<U8> -> U32, main: seq<U8>)
    requires Header.Pack(addr, idata, crc32).Header? && |idata| <= |main| && main[..|idata|] == idata
    ensures var img := Image(Header.Pack(addr, idata, crc32).bytes, main);
      HasHeader(img) && CrcPasses(img, crc32)
  {
    Header.PackFields(addr, idata, crc32);
  }

  /** An image whose main region no longer has the CRC-32 its header was packed with fails the check. */
  lemma AlteredImageFails(addr: Header.Address, idata: seq<U8>, crc32: seq<U8> -> U32, main: seq<U8>)
    requires Header.Pack(addr, idata, crc32).Header?
    requires |idata| <= |main| ==> crc32(main[..|idata|]) != crc32(idata)
    ensures var img := Image(Header.Pack(addr, idata, crc32).bytes, main);
      HasHeader(img) && !CrcPasses(img, crc32)
  {
    Header.PackFields(addr, idata, crc32);
  }

  /**
   * The registers the decision reads and writes: the watchdog scratch
   * register 0, which a soft reset sets, and (ghost) the number of CRCs the
   * DMA sniffer has computed.
   */
  class Boot {
    var scratch: U32
    ghost var crcRuns: nat

    constructor (scratch: U32)
      ensures this.scratch == scratch && crcRuns == 0
    {
      this.scratch := scratch;
      crcRuns := 0;
    }

    /** check_flash_crc32: the size guard first; only past it does the sniffer compute a CRC. */
    method CheckFlashCrc32(img: Image, crc: seq<U8> -> U32) returns (ok: bool)
      requires HasHeader(img)
      modifies this
      ensures ok == CrcPasses(img, crc) && scratch == old(scratch)
      ensures crcRuns == old(crcRuns) + (if CrcSize(img) <= |img.main| then 1 else 0)
    {
      var size := CrcSize(img);
      if size > |img.main| {
        return false;
      }
      var computed := crc(img.main[..size]);
      crcRuns := crcRuns + 1;
      ok := CrcStored(img) == computed;
    }

    /**
     * bootloader_should_run: stay when scratch 0 is set (the CRC is then not
     * computed at all) or the CRC check fails, and clear scratch 0 when
     * staying; otherwise start the application, scratch 0 untouched.
     */
    method ShouldRun(img: Image, crc: seq<U8> -> U32) returns (run: bool)
      requires HasHeader(img)
      modifies this
      ensures run <==> old(scratch) != 0 || !CrcPasses(img, crc)
      ensures run ==> scratch == 0
      ensures !run ==> scratch == old(scratch)
      ensures old(scratch) != 0 ==> crcRuns == old(crcRuns)
    {
      if scratch != 0 {
        scratch := 0;
        return true;
      }
      var ok := CheckFlashCrc32(img, crc);
      if !ok {
        scratch := 0;
        return true;
      }
      return false;
    }

    /** bootloader_soft_reset, up to the reboot: scratch 0 is set, so the next decision stays in the bootloader. */
    method SoftReset()
      modifies this
      ensures scratch == 1 && crcRuns == old(crcRuns)
    {
      scratch := 1;
    }
  }
}
