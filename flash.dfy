/**
 * The bootloader's flash writer (flash.c): bytes arriving from HEX data
 * records are gathered in a 256-byte page buffer; every full page is
 * programmed into a 4096-byte sector that was erased beforehand, except the
 * first page of the image, which is kept back and programmed last so that a
 * half-written image is never entered.
 *
 * The writer is first described as a value (Writer) with pure transition
 * functions; the class FlashWriter keeps the source's globals, with the two
 * page buffers as arrays, and its methods are proved to follow the pure
 * description.  The flash itself is a log of program and erase operations.
 */
module Flash {
  import opened Types

  const PageSize: nat := 256
  const SectorSize: nat := 4096

  /** Where the application image starts: the bootloader occupies nine sectors. */
  const MainAppFlashOffset: nat := 4096 * 9

  /** An operation issued to the flash (flash_range_program, flash_range_erase). */
  datatype FlashOp =
    | Program(addr: nat, page: seq<U8>)
    | Erase(addr: nat)

  /**
   * The writer's globals as a value: the next page address, the next sector
   * to erase, the page buffer with its fill index, and the first-page flag
   * with the buffer that keeps the first page back.
   */
  datatype Writer = Writer(
    programming: nat,
    erasure: nat,
    buffer: seq<U8>,
    dex: nat,
    firstPage: bool,
    firstBuffer: seq<U8>)

  /**
   * The result of feeding bytes to the writer: the new writer, the flash
   * operations issued, and every page handed over by a flush, in order
   * (whether programmed at once or kept back as the first page).
   */
  datatype Step = Step(w: Writer, ops: seq<FlashOp>, pages: seq<seq<U8>>)

  /** Both buffers are pages and the fill index is an unsigned char below 256. */
  ghost predicate WellFormed(w: Writer) {
    |w.buffer| == PageSize && |w.firstBuffer| == PageSize && w.dex < PageSize
  }

  /** Every cell of the page buffer past the fill index is still zero. */
  ghost predicate Clean(w: Writer)
    requires WellFormed(w)
  {
    forall i :: w.dex <= i < PageSize ==> w.buffer[i] == 0
  }

  /** The bytes received since the last flush. */
  function Pending(w: Writer): (p: seq<U8>)
    requires WellFormed(w)
    ensures |p| == w.dex
  {
    w.buffer[..w.dex]
  }

  function Flatten(pages: seq<seq<U8>>): seq<U8> {
    if pages == [] then [] else Flatten(pages[..|pages| - 1]) + pages[|pages| - 1]
  }

  /**
   * Flushing a full page buffer.  While the erased sector has room, the
   * first page is copied aside (and not programmed) and every later one is
   * programmed at the programming address; when it has none, the next
   * sector is erased first and the erasure address moves on by a sector.
   * In every case the programming address moves on by a page and the buffer
   * is cleared.
   */
  function FlushPage(w: Writer): (r: Step)
    requires WellFormed(w)
    ensures WellFormed(r.w)
  {
    var cleared := w.(programming := w.programming + PageSize, buffer := Zeros(PageSize));
    if w.programming < w.erasure then
      if !w.firstPage then
        Step(cleared.(firstPage := true, firstBuffer := w.buffer), [], [w.buffer])
      else
        Step(cleared, [Program(w.programming, w.buffer)], [w.buffer])
    else
      Step(cleared.(erasure := w.erasure + SectorSize),
           [Erase(w.erasure), Program(w.programming, w.buffer)], [w.buffer])
  }

  /** What a flush does, case by case. */
  lemma FlushPageFacts(w: Writer)
    requires WellFormed(w)
    ensures var r := FlushPage(w);
      r.w.dex == w.dex && r.w.buffer == Zeros(PageSize) &&
      r.w.programming == w.programming + PageSize && r.pages == [w.buffer]
    ensures var r := FlushPage(w); w.programming < w.erasure && !w.firstPage ==>
              r.ops == [] && r.w.firstPage && r.w.firstBuffer == w.buffer && r.w.erasure == w.erasure
    ensures var r := FlushPage(w); w.programming < w.erasure && w.firstPage ==>
              r.ops == [Program(w.programming, w.buffer)] && r.w.firstPage &&
              r.w.firstBuffer == w.firstBuffer && r.w.erasure == w.erasure
    ensures var r := FlushPage(w); w.erasure <= w.programming ==>
              r.ops == [Erase(w.erasure), Program(w.programming, w.buffer)] &&
              r.w.erasure == w.erasure + SectorSize &&
              r.w.firstPage == w.firstPage && r.w.firstBuffer == w.firstBuffer
  {
  }

  /** Storing one byte at the fill index; the unsigned char index wraps from 255 to 0. */
  function Store(w: Writer, b: U8): (v: Writer)
    requires WellFormed(w)
    ensures WellFormed(v)
  {
    w.(buffer := w.buffer[w.dex := b], dex := (w.dex + 1) % 0x100)
  }

  /** One byte of flash_intake: store it, and flush when the index wrapped to 0. */
  function IntakeByte(w: Writer, b: U8): (r: Step)
    requires WellFormed(w)
    ensures WellFormed(r.w)
  {
    var v := Store(w, b);
    if v.dex == 0 then FlushPage(v) else Step(v, [], [])
  }

  /** flash_intake: the bytes one after another, in order. */
  function IntakeF(w: Writer, bytes: seq<U8>): (r: Step)
    requires WellFormed(w)
    ensures WellFormed(r.w)
    decreases |bytes|
  {
    if bytes == [] then Step(w, [], [])
    else
      var s := IntakeF(w, bytes[..|bytes| - 1]);
      var t := IntakeByte(s.w, bytes[|bytes| - 1]);
      Step(t.w, s.ops + t.ops, s.pages + t.pages)
  }

  /**
   * flash_new_address: a non-empty partial page is programmed first (into
   * the current sector if it has room, else after erasing the next one,
   * without moving the erasure address); then the buffer is cleared, the
   * sector at the new address is erased, and programming continues there
   * with the following sector as the next one to erase.
   */
  function NewAddressF(w: Writer, address: nat): (r: Step)
    requires WellFormed(w)
    ensures WellFormed(r.w) && Clean(r.w) && r.pages == []
  {
    var flush :=
      if w.dex == 0 then []
      else if w.programming < w.erasure then [Program(w.programming, w.buffer)]
      else [Erase(w.erasure), Program(w.programming, w.buffer)];
    Step(w.(programming := address, erasure := address + SectorSize, buffer := Zeros(PageSize), dex := 0),
         flush + [Erase(address)], [])
  }

  /** What flash_new_address does to the globals and to the flash, case by case. */
  lemma NewAddressFacts(w: Writer, address: nat)
    requires WellFormed(w)
    ensures var r := NewAddressF(w, address);
      r.w == w.(programming := address, erasure := address + SectorSize,
                buffer := Zeros(PageSize), dex := 0)
    ensures var r := NewAddressF(w, address); w.dex == 0 ==> r.ops == [Erase(address)]
    ensures var r := NewAddressF(w, address); w.dex != 0 && w.programming < w.erasure ==>
              r.ops == [Program(w.programming, w.buffer), Erase(address)]
    ensures var r := NewAddressF(w, address); w.dex != 0 && w.erasure <= w.programming ==>
              r.ops == [Erase(w.erasure), Program(w.programming, w.buffer), Erase(address)]
  {
  }

  /**
   * flash_finalize: the current buffer is programmed whatever its fill (after
   * an erase when the sector has no room, without moving the erasure address),
   * and then the kept-back first page at the start of the application.
   */
  function FinalizeF(w: Writer): (r: Step)
    requires WellFormed(w)
    ensures r.w == w && r.pages == []
    ensures |r.ops| >= 2 && r.ops[|r.ops| - 1] == Program(MainAppFlashOffset, w.firstBuffer)
  {
    var last :=
      if w.programming < w.erasure then [Program(w.programming, w.buffer)]
      else [Erase(w.erasure), Program(w.programming, w.buffer)];
    Step(w, last + [Program(MainAppFlashOffset, w.firstBuffer)], [])
  }

  /** What flash_finalize issues, case by case: the current buffer, then the kept-back first page. */
  lemma FinalizeFacts(w: Writer)
    requires WellFormed(w)
    ensures w.programming < w.erasure ==>
              FinalizeF(w).ops == [Program(w.programming, w.buffer), Program(MainAppFlashOffset, w.firstBuffer)]
    ensures w.erasure <= w.programming ==>
              FinalizeF(w).ops == [Erase(w.erasure), Program(w.programming, w.buffer),
                                   Program(MainAppFlashOffset, w.firstBuffer)]
  {
  }

  /** flash_init: the first-page flag and both addresses are zeroed; the buffer is left as it is. */
  function InitF(w: Writer): (v: Writer)
    ensures v.programming == 0 && v.erasure == 0 && !v.firstPage
    ensures v.buffer == w.buffer && v.dex == w.dex && v.firstBuffer == w.firstBuffer
  {
    w.(programming := 0, erasure := 0, firstPage := false)
  }

  /** The writer as the program image starts: every static zero. */
  function Initial(): (w: Writer)
    ensures WellFormed(w) && Clean(w) && Pending(w) == []
  {
    Writer(0, 0, Zeros(PageSize), 0, false, Zeros(PageSize))
  }

  // ---------------------------------------------------------------------
  // Counting and ordering of flushes.

  lemma FlattenSnoc(pages: seq<seq<U8>>, p: seq<U8>)
    ensures Flatten(pages + [p]) == Flatten(pages) + p
  {
    assert (pages + [p])[..|pages|] == pages;
  }

  lemma FlattenAppend(a: seq<seq<U8>>, b: seq<seq<U8>>)
    ensures Flatten(a + b) == Flatten(a) + Flatten(b)
    decreases |b|
  {
    if b == [] {
      assert a + b == a;
    } else {
      var b' := b[..|b| - 1];
      assert b == b' + [b[|b| - 1]];
      AppendAssoc(a, b', [b[|b| - 1]]);
      FlattenSnoc(a + b', b[|b| - 1]);
      FlattenAppend(a, b');
      FlattenSnoc(b', b[|b| - 1]);
      assert b == b' + [b[|b| - 1]];
    }
  }

  /** One byte: the index moves on by one, wrapping to 0 exactly when a page is flushed. */
  lemma IntakeByteCount(w: Writer, b: U8)
    requires WellFormed(w)
    ensures var r := IntakeByte(w, b);
      r.w.dex == (w.dex + 1) % 0x100 &&
      |r.pages| == (w.dex + 1) / 0x100 &&
      r.w.programming == w.programming + PageSize * |r.pages|
  {
    var v := Store(w, b);
    if v.dex == 0 {
      FlushPageFacts(v);
    }
  }

  /** One byte into a clean buffer: either it joins the pending bytes, or it completes the page that is flushed. */
  lemma IntakeByteOrder(w: Writer, b: U8)
    requires WellFormed(w) && Clean(w)
    ensures var r := IntakeByte(w, b);
      Clean(r.w) && Pending(w) + [b] == Flatten(r.pages) + Pending(r.w) &&
      (forall k :: 0 <= k < |r.pages| ==> |r.pages[k]| == PageSize)
  {
    var v := Store(w, b);
    if v.dex == 0 {
      FlushPageFacts(v);
      assert w.dex == PageSize - 1;
      assert v.buffer == Pending(w) + [b];
      FlattenSnoc([], v.buffer);
    } else {
      assert Pending(v) == Pending(w) + [b];
      assert Flatten([]) + Pending(v) == Pending(v);
    }
  }

  /** One more byte: the intake of the earlier bytes, then that byte. */
  lemma IntakeSnoc(w: Writer, bytes: seq<U8>, b: U8)
    requires WellFormed(w)
    ensures var s := IntakeF(w, bytes); var t := IntakeByte(s.w, b);
      IntakeF(w, bytes + [b]) == Step(t.w, s.ops + t.ops, s.pages + t.pages)
  {
    assert (bytes + [b])[..|bytes|] == bytes;
  }

  /**
   * After flash_intake of any bytes: the fill index is (old index + count)
   * mod 256, exactly (old index + count) div 256 pages were flushed, and
   * the programming address moved by a page for each.
   */
  lemma {:induction false} IntakeCount(w: Writer, bytes: seq<U8>)
    requires WellFormed(w)
    ensures var r := IntakeF(w, bytes);
      r.w.dex == (w.dex + |bytes|) % 0x100 &&
      |r.pages| == (w.dex + |bytes|) / 0x100 &&
      r.w.programming == w.programming + PageSize * |r.pages|
    decreases |bytes|
  {
    if bytes != [] {
      var init := bytes[..|bytes| - 1];
      var b := bytes[|bytes| - 1];
      assert bytes == init + [b];
      IntakeCount(w, init);
      IntakeSnoc(w, init, b);
      var s := IntakeF(w, init);
      IntakeByteCount(s.w, b);
      CountStep(w.dex + |init|);
    }
  }

  /** Counting one more byte, in the index and in completed pages. */
  lemma CountStep(n: nat)
    ensures (n % 0x100 + 1) % 0x100 == (n + 1) % 0x100
    ensures n / 0x100 + (n % 0x100 + 1) / 0x100 == (n + 1) / 0x100
  {
  }

  /**
   * After flash_intake of any bytes into a clean buffer: every flushed page
   * has 256 bytes, the buffer stays clean, and the pending bytes followed by
   * the input are, in arrival order, the flushed pages followed by the new
   * pending bytes.
   */
  lemma {:induction false} IntakeOrder(w: Writer, bytes: seq<U8>)
    requires WellFormed(w) && Clean(w)
    ensures var r := IntakeF(w, bytes);
      Clean(r.w) &&
      (forall k :: 0 <= k < |r.pages| ==> |r.pages[k]| == PageSize) &&
      Pending(w) + bytes == Flatten(r.pages) + Pending(r.w)
    decreases |bytes|
  {
    if bytes == [] {
      assert Flatten([]) + Pending(w) == Pending(w) + bytes;
    } else {
      var init := bytes[..|bytes| - 1];
      var b := bytes[|bytes| - 1];
      assert bytes == init + [b];
      IntakeOrder(w, init);
      IntakeSnoc(w, init, b);
      var s := IntakeF(w, init);
      IntakeByteOrder(s.w, b);
      var t := IntakeByte(s.w, b);
      FlattenAppend(s.pages, t.pages);
      OrderStep(Pending(w), init, b, Flatten(s.pages), Pending(s.w), Flatten(t.pages), Pending(t.w));
      PagesStep(s.pages, t.pages);
    }
  }

  lemma OrderStep<T>(p: seq<T>, init: seq<T>, b: T, fs: seq<T>, ps: seq<T>, ft: seq<T>, pt: seq<T>)
    requires p + init == fs + ps && ps + [b] == ft + pt
    ensures p + (init + [b]) == (fs + ft) + pt
  {
    calc {
      p + (init + [b]);
      (p + init) + [b];
      (fs + ps) + [b];
      fs + (ps + [b]);
      fs + (ft + pt);
    }
  }

  lemma PagesStep(a: seq<seq<U8>>, b: seq<seq<U8>>)
    requires forall k :: 0 <= k < |a| ==> |a[k]| == PageSize
    requires forall k :: 0 <= k < |b| ==> |b[k]| == PageSize
    ensures forall k :: 0 <= k < |a + b| ==> |(a + b)[k]| == PageSize
  {
  }

  /** Feeding a + b is feeding a and then b. */
  lemma {:induction false} IntakeAppend(w: Writer, a: seq<U8>, b: seq<U8>)
    requires WellFormed(w)
    ensures var x := IntakeF(w, a); var y := IntakeF(x.w, b);
      IntakeF(w, a + b) == Step(y.w, x.ops + y.ops, x.pages + y.pages)
    decreases |b|
  {
    if b == [] {
      assert a + b == a;
    } else {
      var b' := b[..|b| - 1];
      var c := b[|b| - 1];
      assert b == b' + [c];
      AppendAssoc(a, b', [c]);
      IntakeAppend(w, a, b');
      IntakeSnoc(w, a + b', c);
      var x := IntakeF(w, a);
      IntakeSnoc(x.w, b', c);
      var s := IntakeF(w, a + b');
      var y' := IntakeF(x.w, b');
      var t := IntakeByte(y'.w, c);
      assert s == Step(y'.w, x.ops + y'.ops, x.pages + y'.pages);
      assert IntakeF(w, a + b) == Step(t.w, s.ops + t.ops, s.pages + t.pages);
      assert IntakeF(x.w, b) == Step(t.w, y'.ops + t.ops, y'.pages + t.pages);
      AppendAssoc(x.ops, y'.ops, t.ops);
      AppendAssoc(x.pages, y'.pages, t.pages);
    }
  }

  /** Fewer than 256 bytes into an empty buffer: no flash operation, and they are the pending bytes. */
  lemma {:induction false} IntakeShort(w: Writer, bytes: seq<U8>)
    requires WellFormed(w) && Clean(w) && w.dex == 0 && |bytes| < PageSize
    ensures var r := IntakeF(w, bytes);
      r.ops == [] && r.pages == [] &&
      r.w == w.(buffer := bytes + Zeros(PageSize - |bytes|), dex := |bytes|)
    decreases |bytes|
  {
    if bytes == [] {
      assert w.buffer == Zeros(PageSize);
    } else {
      var init := bytes[..|bytes| - 1];
      var b := bytes[|bytes| - 1];
      assert bytes == init + [b];
      IntakeShort(w, init);
      IntakeSnoc(w, init, b);
      var s := IntakeF(w, init);
      StoreAfter(init, b);
      var v := Store(s.w, b);
      assert s.w.buffer == init + Zeros(PageSize - |init|) && s.w.dex == |init|;
      assert v.buffer == bytes + Zeros(PageSize - |bytes|);
      assert v.dex == |bytes|;
      assert v == w.(buffer := bytes + Zeros(PageSize - |bytes|), dex := |bytes|);
      assert IntakeByte(s.w, b) == Step(v, [], []);
    }
  }

  /** Storing after the bytes already gathered in an otherwise zero page. */
  lemma StoreAfter(init: seq<U8>, b: U8)
    requires |init| < PageSize
    ensures (init + Zeros(PageSize - |init|))[|init| := b] == (init + [b]) + Zeros(PageSize - |init| - 1)
  {
  }

  /** A whole page into an empty buffer: exactly one flush, of that page. */
  lemma IntakePage(w: Writer, page: seq<U8>)
    requires WellFormed(w) && Clean(w) && w.dex == 0 && |page| == PageSize
    ensures IntakeF(w, page) == FlushPage(w.(buffer := page))
  {
    var init := page[..PageSize - 1];
    var b := page[PageSize - 1];
    assert page == init + [b];
    IntakeShort(w, init);
    IntakeSnoc(w, init, b);
    var s := IntakeF(w, init);
    LastByteFlushes(w, s.w, init, b);
    var t := IntakeByte(s.w, b);
    assert s.ops + t.ops == t.ops && s.pages + t.pages == t.pages;
  }

  /** The 256th byte into a buffer holding the other 255 completes the page and flushes it. */
  lemma LastByteFlushes(w: Writer, v: Writer, init: seq<U8>, b: U8)
    requires WellFormed(w) && w.dex == 0 && |init| == PageSize - 1
    requires v == w.(buffer := init + Zeros(1), dex := PageSize - 1)
    ensures IntakeByte(v, b) == FlushPage(w.(buffer := init + [b]))
  {
    StoreAfter(init, b);
    assert (init + [b]) + Zeros(0) == init + [b];
    var u := Store(v, b);
    assert u == w.(buffer := init + [b]);
  }

  // ---------------------------------------------------------------------
  // Programming only into erased sectors.

  /**
   * The address invariant: the programming address lies in the sector
   * below the erasure address (or at it), a whole number of pages away.
   */
  ghost predicate AddressesOk(w: Writer) {
    w.programming <= w.erasure && w.erasure <= w.programming + SectorSize &&
    (w.erasure - w.programming) % 0x100 == 0
  }

  /** The sector below the erasure address has been erased, whenever programming is inside it. */
  ghost predicate SectorErased(log: seq<FlashOp>, w: Writer) {
    w.programming < w.erasure ==> w.erasure >= SectorSize && Erase(w.erasure - SectorSize) in log
  }

  /** The page at a lies inside the sector erased at e. */
  ghost predicate Inside(a: nat, e: nat) {
    e <= a && a + PageSize <= e + SectorSize
  }

  /** Every page programmed lies inside a sector erased before it. */
  ghost predicate ProgramsErased(log: seq<FlashOp>) {
    forall i :: 0 <= i < |log| && log[i].Program? ==>
      exists j :: 0 <= j < i && log[j].Erase? && Inside(log[i].addr, log[j].addr)
  }

  /** What the writer keeps true about itself and the flash. */
  ghost predicate Safe(log: seq<FlashOp>, w: Writer) {
    AddressesOk(w) && SectorErased(log, w) && ProgramsErased(log)
  }

  lemma ProgramsErasedSnocErase(log: seq<FlashOp>, e: nat)
    requires ProgramsErased(log)
    ensures ProgramsErased(log + [Erase(e)])
  {
    var l := log + [Erase(e)];
    forall i | 0 <= i < |l| && l[i].Program?
      ensures exists j :: 0 <= j < i && l[j].Erase? && Inside(l[i].addr, l[j].addr)
    {
      var j :| 0 <= j < i && log[j].Erase? && Inside(log[i].addr, log[j].addr);
      assert l[j] == log[j];
    }
  }

  lemma ProgramsErasedSnocProgram(log: seq<FlashOp>, a: nat, page: seq<U8>, e: nat)
    requires ProgramsErased(log) && Erase(e) in log && Inside(a, e)
    ensures ProgramsErased(log + [Program(a, page)])
  {
    var l := log + [Program(a, page)];
    forall i | 0 <= i < |l| && l[i].Program?
      ensures exists j :: 0 <= j < i && l[j].Erase? && Inside(l[i].addr, l[j].addr)
    {
      if i < |log| {
        var j :| 0 <= j < i && log[j].Erase? && Inside(log[i].addr, log[j].addr);
        assert l[j] == log[j];
      } else {
        var j :| 0 <= j < |log| && log[j] == Erase(e);
        assert l[j] == log[j];
      }
    }
  }

  /** Programming the page at the programming address is safe under the invariant, erasing first if needed. */
  lemma ProgramHereSafe(log: seq<FlashOp>, w: Writer)
    requires Safe(log, w)
    ensures w.programming < w.erasure ==>
              ProgramsErased(log + [Program(w.programming, w.buffer)])
    ensures w.erasure <= w.programming ==>
              ProgramsErased(log + [Erase(w.erasure), Program(w.programming, w.buffer)])
  {
    if w.programming < w.erasure {
      assert w.programming + PageSize <= w.erasure;
      ProgramsErasedSnocProgram(log, w.programming, w.buffer, w.erasure - SectorSize);
    } else {
      ProgramsErasedSnocErase(log, w.erasure);
      assert w.programming == w.erasure;
      ProgramsErasedSnocProgram(log + [Erase(w.erasure)], w.programming, w.buffer, w.erasure);
      AppendAssoc(log, [Erase(w.erasure)], [Program(w.programming, w.buffer)]);
      assert [Erase(w.erasure)] + [Program(w.programming, w.buffer)] ==
             [Erase(w.erasure), Program(w.programming, w.buffer)];
    }
  }

  /** A flush keeps the writer safe; a sector is erased only when programming has reached the erasure address. */
  lemma FlushSafe(log: seq<FlashOp>, w: Writer)
    requires WellFormed(w) && Safe(log, w)
    ensures var r := FlushPage(w); Safe(log + r.ops, r.w)
    ensures var r := FlushPage(w); (exists e :: Erase(e) in r.ops) ==> w.erasure <= w.programming
  {
    var r := FlushPage(w);
    FlushPageFacts(w);
    ProgramHereSafe(log, w);
    if w.programming < w.erasure {
      if !w.firstPage {
        assert log + r.ops == log;
      }
      assert w.programming + PageSize <= w.erasure;
    } else {
      assert w.programming == w.erasure;
      assert Erase(w.erasure) in log + r.ops by {
        assert (log + r.ops)[|log|] == Erase(w.erasure);
      }
    }
    if exists e :: Erase(e) in r.ops {
      var e :| Erase(e) in r.ops;
      assert w.erasure <= w.programming;
    }
  }

  /** One byte of flash_intake keeps the writer safe. */
  lemma IntakeByteSafe(log: seq<FlashOp>, w: Writer, b: U8)
    requires WellFormed(w) && Safe(log, w)
    ensures var t := IntakeByte(w, b); Safe(log + t.ops, t.w)
  {
    var v := Store(w, b);
    var t := IntakeByte(w, b);
    assert Safe(log, v);
    if v.dex == 0 {
      FlushSafe(log, v);
      assert t == FlushPage(v);
    } else {
      assert t.ops == [] && t.w == v;
      assert log + t.ops == log;
    }
  }

  /** flash_intake keeps the writer safe, from any safe state. */
  lemma {:induction false} IntakeSafe(log: seq<FlashOp>, w: Writer, bytes: seq<U8>)
    requires WellFormed(w) && Safe(log, w)
    ensures var r := IntakeF(w, bytes); Safe(log + r.ops, r.w)
    decreases |bytes|
  {
    if bytes == [] {
      assert log + [] == log;
    } else {
      var init := bytes[..|bytes| - 1];
      var b := bytes[|bytes| - 1];
      assert bytes == init + [b];
      IntakeSafe(log, w, init);
      IntakeSnoc(w, init, b);
      var s := IntakeF(w, init);
      var t := IntakeByte(s.w, b);
      IntakeByteSafe(log + s.ops, s.w, b);
      AppendAssoc(log, s.ops, t.ops);
      assert IntakeF(w, bytes) == Step(t.w, s.ops + t.ops, s.pages + t.pages);
    }
  }

  /** flash_new_address makes any writer safe again, whatever the address. */
  lemma NewAddressSafe(log: seq<FlashOp>, w: Writer, address: nat)
    requires WellFormed(w) && Safe(log, w)
    ensures var r := NewAddressF(w, address); Safe(log + r.ops, r.w)
  {
    var r := NewAddressF(w, address);
    NewAddressFacts(w, address);
    var flush := r.ops[..|r.ops| - 1];
    assert r.ops == flush + [Erase(address)];
    ProgramHereSafe(log, w);
    if w.dex == 0 {
      assert log + flush == log;
    } else if w.programming < w.erasure {
      assert flush == [Program(w.programming, w.buffer)];
    } else {
      assert flush == [Erase(w.erasure), Program(w.programming, w.buffer)];
    }
    ProgramsErasedSnocErase(log + flush, address);
    AppendAssoc(log, flush, [Erase(address)]);
    assert (log + r.ops)[|log + r.ops| - 1] == Erase(address);
  }

  /**
   * flash_finalize: every page it programs except the kept-back first page
   * lies in an erased sector; that first page is the last operation, at the
   * start of the application.
   */
  lemma FinalizeSafe(log: seq<FlashOp>, w: Writer)
    requires WellFormed(w) && Safe(log, w)
    ensures var r := FinalizeF(w);
      ProgramsErased(log + r.ops[..|r.ops| - 1]) &&
      (log + r.ops)[|log + r.ops| - 1] == Program(MainAppFlashOffset, w.firstBuffer)
  {
    var r := FinalizeF(w);
    ProgramHereSafe(log, w);
    if w.programming < w.erasure {
      assert r.ops[..|r.ops| - 1] == [Program(w.programming, w.buffer)];
    } else {
      assert r.ops[..|r.ops| - 1] == [Erase(w.erasure), Program(w.programming, w.buffer)];
    }
  }

  /** The writer as the program image starts is safe with an empty log, and flash_init keeps it so. */
  lemma InitialSafe(log: seq<FlashOp>, w: Writer)
    requires ProgramsErased(log)
    ensures Safe([], Initial()) && Safe(log, InitF(w))
  {
  }

  /**
   * Without flash_new_address: the first full page after flash_init erases
   * sector 0 and is programmed at 0 directly, and it is the second page that
   * is kept back as the first page.
   */
  lemma NoNewAddressFirstPages(w: Writer, a: seq<U8>, b: seq<U8>)
    requires WellFormed(w) && Clean(w) && w.dex == 0
    requires |a| == PageSize && |b| == PageSize
    ensures var r := IntakeF(InitF(w), a + b);
      r.ops == [Erase(0), Program(0, a)] && r.w.firstPage && r.w.firstBuffer == b &&
      r.w.programming == 2 * PageSize && r.w.erasure == SectorSize && r.pages == [a, b]
  {
    var v := InitF(w);
    IntakeAppend(v, a, b);
    IntakePage(v, a);
    var x := IntakeF(v, a);
    IntakePage(x.w, b);
  }

  /**
   * After flash_new_address(a): the first full page is kept back (no flash
   * operation), and flash_finalize then programs the partial buffer and
   * finally that page at the start of the application.
   */
  lemma NewAddressDefersFirstPage(w: Writer, address: nat, page: seq<U8>)
    requires WellFormed(w) && |page| == PageSize
    ensures var n := NewAddressF(InitF(w), address); var r := IntakeF(n.w, page);
      r.ops == [] && r.w.firstPage && r.w.firstBuffer == page &&
      r.w.programming == address + PageSize &&
      FinalizeF(r.w).ops == [Program(address + PageSize, Zeros(PageSize)), Program(MainAppFlashOffset, page)]
  {
    var n := NewAddressF(InitF(w), address);
    NewAddressFacts(InitF(w), address);
    assert n.w.programming == address && n.w.erasure == address + SectorSize && !n.w.firstPage;
    IntakePage(n.w, page);
    var full := n.w.(buffer := page);
    FlushPageFacts(full);
    var r := FlushPage(full);
    assert r.ops == [] && r.w.firstBuffer == page && r.w.buffer == Zeros(PageSize);
    assert r.w.programming < r.w.erasure;
    FinalizeFacts(r.w);
  }

  // ---------------------------------------------------------------------
  // The globals of flash.c.

  class FlashWriter {
    var programmingAddress: nat
    var erasureAddress: nat
    /** flashbuffer and first_page_buffer: static arrays, so the references never change. */
    const flashbuffer: array<U8>
    var flashdex: U8
    var firstPage: bool
    const firstPageBuffer: array<U8>
    /** Every operation issued to the flash, in order. */
    var log: seq<FlashOp>

    ghost predicate Valid()
      reads this
    {
      flashbuffer.Length == PageSize && firstPageBuffer.Length == PageSize &&
      flashbuffer != firstPageBuffer
    }

    function State(): (w: Writer)
      requires Valid()
      reads this, flashbuffer, firstPageBuffer
      ensures WellFormed(w)
    {
      Writer(programmingAddress, erasureAddress, flashbuffer[..], flashdex, firstPage, firstPageBuffer[..])
    }

    /** The static initialisation of the program image: every global zero. */
    constructor ()
      ensures Valid() && State() == Initial() && log == []
      ensures fresh(flashbuffer) && fresh(firstPageBuffer)
    {
      programmingAddress, erasureAddress := 0, 0;
      flashbuffer := new U8[PageSize](_ => 0);
      flashdex := 0;
      firstPage := false;
      firstPageBuffer := new U8[PageSize](_ => 0);
      log := [];
      new;
      assert flashbuffer[..] == Zeros(PageSize);
      assert firstPageBuffer[..] == Zeros(PageSize);
    }

    /** flash_init. */
    method Init()
      requires Valid()
      modifies this
      ensures Valid() && State() == InitF(old(State())) && log == old(log)
    {
      firstPage := false;
      programmingAddress := 0;
      erasureAddress := 0;
    }

    /** The clearing DMA channel: a page of zeros written over flashbuffer. */
    method ClearBuffer()
      requires Valid()
      modifies flashbuffer
      ensures flashbuffer[..] == Zeros(PageSize)
    {
      for i := 0 to PageSize
        invariant forall k :: 0 <= k < i ==> flashbuffer[k] == 0
      {
        flashbuffer[i] := 0;
      }
    }

    /** The copying DMA channel: flashbuffer copied into first_page_buffer. */
    method CopyFirstPage()
      requires Valid()
      modifies firstPageBuffer
      ensures firstPageBuffer[..] == flashbuffer[..]
    {
      for i := 0 to PageSize
        invariant forall k :: 0 <= k < i ==> firstPageBuffer[k] == flashbuffer[k]
      {
        firstPageBuffer[i] := flashbuffer[i];
      }
    }

    /** The flush in flash_intake, once the index has wrapped to 0. */
    method Flush()
      requires Valid()
      modifies this, flashbuffer, firstPageBuffer
      ensures Valid()
      ensures State() == FlushPage(old(State())).w && log == old(log) + FlushPage(old(State())).ops
    {
      ghost var w := State();
      if programmingAddress < erasureAddress {
        if !firstPage {
          CopyFirstPage();
          firstPage := true;
        } else {
          log := log + [Program(programmingAddress, flashbuffer[..])];
        }
      } else {
        log := log + [Erase(erasureAddress)];
        erasureAddress := erasureAddress + SectorSize;
        log := log + [Program(programmingAddress, flashbuffer[..])];
      }
      programmingAddress := programmingAddress + PageSize;
      ClearBuffer();
    }

    /** One pass of the flash_intake loop: store the byte, and flush once the index wraps. */
    method TakeByte(b: U8)
      requires Valid()
      modifies this, flashbuffer, firstPageBuffer
      ensures Valid()
      ensures State() == IntakeByte(old(State()), b).w
      ensures log == old(log) + IntakeByte(old(State()), b).ops
    {
      ghost var w := State();
      flashbuffer[flashdex] := b;
      flashdex := (flashdex + 1) % 0x100;
      assert State() == Store(w, b);
      if flashdex == 0 {
        Flush();
      } else {
        assert log == old(log) + [];
      }
    }

    /** flash_intake(src, sz). */
    method Intake(src: seq<U8>, sz: nat)
      requires Valid() && sz <= |src|
      modifies this, flashbuffer, firstPageBuffer
      ensures Valid()
      ensures State() == IntakeF(old(State()), src[..sz]).w
      ensures log == old(log) + IntakeF(old(State()), src[..sz]).ops
    {
      ghost var w0 := State();
      ghost var g0 := log;
      for i := 0 to sz
        invariant Valid()
        invariant State() == IntakeF(w0, src[..i]).w
        invariant log == g0 + IntakeF(w0, src[..i]).ops
      {
        ghost var s := IntakeF(w0, src[..i]);
        ghost var t := IntakeByte(s.w, src[i]);
        assert src[..i + 1] == src[..i] + [src[i]];
        IntakeSnoc(w0, src[..i], src[i]);
        TakeByte(src[i]);
        AppendAssoc(g0, s.ops, t.ops);
      }
    }

    /** flash_new_address(address). */
    method NewAddress(address: nat)
      requires Valid()
      modifies this, flashbuffer
      ensures Valid()
      ensures State() == NewAddressF(old(State()), address).w
      ensures log == old(log) + NewAddressF(old(State()), address).ops
    {
      if flashdex != 0 {
        if programmingAddress < erasureAddress {
          log := log + [Program(programmingAddress, flashbuffer[..])];
        } else {
          log := log + [Erase(erasureAddress), Program(programmingAddress, flashbuffer[..])];
        }
      }
      ClearBuffer();
      flashdex := 0;
      log := log + [Erase(address)];
      programmingAddress := address;
      erasureAddress := address + SectorSize;
    }

    /** flash_finalize. */
    method Finalize()
      requires Valid()
      modifies this
      ensures Valid() && State() == old(State())
      ensures log == old(log) + FinalizeF(old(State())).ops
    {
      if programmingAddress < erasureAddress {
        log := log + [Program(programmingAddress, flashbuffer[..])];
      } else {
        log := log + [Erase(erasureAddress), Program(programmingAddress, flashbuffer[..])];
      }
      log := log + [Program(MainAppFlashOffset, firstPageBuffer[..])];
    }
  }
}
