// The GPIO register bank behind a GPIB bus: a direction register and an
// output-level register, both changed under a mask, and the input word read
// under a mask.

module Bus {
  import opened Types

  /** The three line modes the firmware distinguishes. */
  datatype BusMode = InputPullup | OutputHigh | OutputLow

  /** Direction (the lines that are outputs) and output level (the lines driven high). */
  datatype Regs = Regs(dir: Word, out: Word)

  /**
   * One operation on the register bank, as issued by the firmware.  A delay
   * changes no register; it is an event in the same order as the line changes.
   */
  datatype Op =
    | SetMode(mask: Word, mode: BusMode)
    | Put(mask: Word, value: Word)
    | Sleep(us: nat)

  /**
   * The effect of one operation on the registers.  InputPullup
   * (gpio_set_dir_in_masked) makes exactly the masked lines inputs and keeps
   * every output level; OutputHigh and OutputLow (gpio_set_dir_out_masked,
   * then gpio_set_mask or gpio_clr_mask) make them outputs driven high or low;
   * Put (gpio_put_masked) sets the output level of the masked lines to the
   * bits of the value and leaves every direction alone.  Lines outside the
   * mask never change, and a delay changes nothing.
   */
  function Apply(r: Regs, op: Op): (r': Regs)
    ensures op.SetMode? && op.mode == InputPullup ==>
              r'.dir * op.mask == {} && r'.dir - op.mask == r.dir - op.mask && r'.out == r.out
    ensures op.SetMode? && op.mode == OutputHigh ==>
              op.mask <= r'.dir && op.mask <= r'.out &&
              r'.dir - op.mask == r.dir - op.mask && r'.out - op.mask == r.out - op.mask
    ensures op.SetMode? && op.mode == OutputLow ==>
              op.mask <= r'.dir && r'.out * op.mask == {} &&
              r'.dir - op.mask == r.dir - op.mask && r'.out - op.mask == r.out - op.mask
    ensures op.Put? ==>
              r'.dir == r.dir && r'.out * op.mask == op.value * op.mask &&
              r'.out - op.mask == r.out - op.mask
    ensures op.Sleep? ==> r' == r
  {
    match op
    case SetMode(m, InputPullup) => r.(dir := r.dir - m)
    case SetMode(m, OutputHigh) => Regs(r.dir + m, r.out + m)
    case SetMode(m, OutputLow) => Regs(r.dir + m, r.out - m)
    case Put(m, v) => r.(out := (r.out - m) + (v * m))
    case Sleep(_) => r
  }

  /** Issuing the same operation twice leaves the registers as issuing it once. */
  lemma ApplyIdempotent(r: Regs, op: Op)
    ensures Apply(Apply(r, op), op) == Apply(r, op)
  {
  }

  /** The registers after issuing a sequence of operations in order. */
  function Run(r: Regs, ops: seq<Op>): Regs {
    RunFirst(r, ops, |ops|)
  }

  /** The registers after issuing the first n operations of ops. */
  function RunFirst(r: Regs, ops: seq<Op>, n: nat): Regs
    requires n <= |ops|
  {
    if n == 0 then r else Apply(RunFirst(r, ops, n - 1), ops[n - 1])
  }

  /** The first n operations decide the registers, whatever follows them. */
  lemma {:induction false} RunFirstPrefix(r: Regs, a: seq<Op>, b: seq<Op>, n: nat)
    requires n <= |a| && n <= |b| && forall i :: 0 <= i < n ==> a[i] == b[i]
    ensures RunFirst(r, a, n) == RunFirst(r, b, n)
  {
    if n != 0 {
      RunFirstPrefix(r, a, b, n - 1);
    }
  }

  /** Issuing one more operation. */
  lemma RunSnoc(r: Regs, ops: seq<Op>, op: Op)
    ensures Run(r, ops + [op]) == Apply(Run(r, ops), op)
  {
    RunFirstPrefix(r, ops + [op], ops, |ops|);
  }

  /** Issuing x and then y leaves the registers as issuing x + y. */
  lemma RunAppend(r: Regs, x: seq<Op>, y: seq<Op>)
    ensures Run(r, x + y) == Run(Run(r, x), y)
  {
    RunAppendFirst(r, x, y, |y|);
  }

  lemma {:induction false} RunAppendFirst(r: Regs, x: seq<Op>, y: seq<Op>, k: nat)
    requires k <= |y|
    ensures RunFirst(r, x + y, |x| + k) == RunFirst(Run(r, x), y, k)
  {
    if k == 0 {
      RunFirstPrefix(r, x + y, x, |x|);
    } else {
      RunAppendFirst(r, x, y, k - 1);
      assert (x + y)[|x| + k - 1] == y[k - 1];
    }
  }

  /** Issuing one operation, and issuing two in order. */
  lemma RunShort(r: Regs, a: Op, b: Op)
    ensures Run(r, [a]) == Apply(r, a)
    ensures Run(r, [a, b]) == Apply(Apply(r, a), b)
  {
    assert RunFirst(r, [a], 1) == Apply(RunFirst(r, [a], 0), a);
    assert RunFirst(r, [a, b], 1) == Apply(RunFirst(r, [a, b], 0), a);
  }

  /** Lines no operation of the sequence mentions keep their direction and level. */
  lemma RunOutside(r: Regs, ops: seq<Op>, q: Line)
    requires forall i :: 0 <= i < |ops| && !ops[i].Sleep? ==> q !in ops[i].mask
    ensures q in Run(r, ops).dir <==> q in r.dir
    ensures q in Run(r, ops).out <==> q in r.out
  {
    RunOutsideFirst(r, ops, q, |ops|);
  }

  lemma {:induction false} RunOutsideFirst(r: Regs, ops: seq<Op>, q: Line, n: nat)
    requires n <= |ops|
    requires forall i :: 0 <= i < |ops| && !ops[i].Sleep? ==> q !in ops[i].mask
    ensures q in RunFirst(r, ops, n).dir <==> q in r.dir
    ensures q in RunFirst(r, ops, n).out <==> q in r.out
  {
    if n != 0 {
      RunOutsideFirst(r, ops, q, n - 1);
    }
  }

  /** The value read back under a mask: the input word restricted to the mask. */
  function Get(input: Word, mask: Word): (v: Word)
    ensures v <= mask
    ensures forall q :: q in v <==> q in input && q in mask
  {
    input * mask
  }

  /**
   * The register bank of one GPIB interface.  The configuration is fixed at
   * construction; the registers change only through SetMode and Put.  The
   * trace records every operation issued, and the delays between them, and
   * the registers are always what the trace leaves them at.
   */
  class GPIBBus {
    const config: Config
    var dir: Word
    var out: Word
    ghost var trace: seq<Op>
    ghost const start: Regs

    ghost predicate Valid()
      reads this
    {
      Regs(dir, out) == Run(start, trace)
    }

    constructor (config: Config, dir0: Word, out0: Word)
      ensures this.config == config && Valid()
      ensures dir == dir0 && out == out0 && trace == [] && start == Regs(dir0, out0)
    {
      this.config := config;
      dir, out := dir0, out0;
      trace := [];
      start := Regs(dir0, out0);
    }

    method SetMode(mask: Word, mode: BusMode)
      requires Valid()
      modifies this
      ensures Valid()
      ensures Regs(dir, out) == Apply(old(Regs(dir, out)), Op.SetMode(mask, mode))
      ensures trace == old(trace) + [Op.SetMode(mask, mode)]
    {
      match mode {
        case InputPullup =>
          dir := dir - mask;
        case OutputHigh =>
          dir := dir + mask;
          out := out + mask;
        case OutputLow =>
          dir := dir + mask;
          out := out - mask;
      }
      RunSnoc(start, trace, Op.SetMode(mask, mode));
      trace := trace + [Op.SetMode(mask, mode)];
    }

    method Put(mask: Word, value: Word)
      requires Valid()
      modifies this
      ensures Valid()
      ensures Regs(dir, out) == Apply(old(Regs(dir, out)), Op.Put(mask, value))
      ensures trace == old(trace) + [Op.Put(mask, value)]
    {
      out := (out - mask) + (value * mask);
      RunSnoc(start, trace, Op.Put(mask, value));
      trace := trace + [Op.Put(mask, value)];
    }

    /** A delay of the given number of microseconds: recorded, nothing changed. */
    method Sleep(us: nat)
      requires Valid()
      modifies this
      ensures Valid()
      ensures dir == old(dir) && out == old(out)
      ensures trace == old(trace) + [Op.Sleep(us)]
    {
      RunSnoc(start, trace, Op.Sleep(us));
      trace := trace + [Op.Sleep(us)];
    }
  }
}
