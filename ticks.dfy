/**
 * The FreeRTOS time conversions the GPIB timeouts and delays are built on
 * (millis.hpp, delay.hpp): the tick count turned into milliseconds, and
 * microseconds turned into ticks.  The tick rate configTICK_RATE_HZ is a
 * parameter; the tick counter and vTaskDelay are outside the model.
 */
module Ticks {
  import opened Types

  /** configTICK_RATE_HZ: a tick rate of the 32-bit tick type, never zero. */
  type Rate = r: int | 1 <= r < 0x1_0000_0000 witness 1000

  type U64 = x: int | 0 <= x < 0x1_0000_0000_0000_0000

  /**
   * millis: the tick count times `1000 / configTICK_RATE_HZ`, the division
   * done first, the product wrapping in 32 bits.
   */
  function Millis(ticks: U32, rate: Rate): U32 {
    (ticks * (1000 / rate)) % 0x1_0000_0000
  }

  /** Above 1000 Hz the integer division is 0, so millis is always 0. */
  lemma MillisFastRate(ticks: U32, rate: Rate)
    requires rate > 1000
    ensures Millis(ticks, rate) == 0
  {
    assert 1000 / rate == 0;
  }

  /** A rate that divides 1000 gives the exact elapsed milliseconds, modulo 2^32. */
  lemma MillisExact(ticks: U32, rate: Rate)
    requires 1000 % rate == 0
    ensures Millis(ticks, rate) == (ticks * 1000 / rate) % 0x1_0000_0000
  {
    var k := 1000 / rate;
    assert 1000 == k * rate;
    assert ticks * 1000 == (ticks * k) * rate;
    DivOfMul(ticks * k, rate);
  }

  /** Any other rate under-reports: before wrapping, millis is at most the true milliseconds. */
  lemma MillisUnderReports(ticks: U32, rate: Rate)
    requires ticks * (1000 / rate) < 0x1_0000_0000
    ensures Millis(ticks, rate) <= ticks * 1000 / rate
  {
    var k := 1000 / rate;
    assert 1000 == k * rate + 1000 % rate;
    ScaledBelow(ticks, k, rate, 1000);
    var m := ticks * k;
    assert m % 0x1_0000_0000 == m;
  }

  /** Until the product wraps, millis does not go backwards as the tick count grows. */
  lemma MillisMonotone(t1: U32, t2: U32, rate: Rate)
    requires t1 <= t2 && t2 * (1000 / rate) < 0x1_0000_0000
    ensures Millis(t1, rate) <= Millis(t2, rate)
  {
    var k := 1000 / rate;
    MulMono(t1, t2, k);
    var m1, m2 := t1 * k, t2 * k;
    assert m1 <= m2 < 0x1_0000_0000;
    assert m1 % 0x1_0000_0000 == m1 && m2 % 0x1_0000_0000 == m2;
  }

  /** Multiplication keeps order. */
  lemma MulMono(a: nat, b: nat, c: nat)
    ensures a <= b ==> a * c <= b * c
  {
  }

  /** If q * d <= n then q <= n / d. */
  lemma DivLower(q: nat, d: nat, n: nat)
    requires d > 0 && q * d <= n
    ensures q <= n / d
  {
    var r := n / d;
    assert n == r * d + n % d;
    MulMono(r + 1, q, d);
  }

  /** A quotient k of n by r, scaled by t, stays below t * n / r. */
  lemma ScaledBelow(t: nat, k: nat, r: nat, n: nat)
    requires r > 0 && k * r <= n
    ensures t * k <= t * n / r
  {
    MulMono(k * r, n, t);
    assert (t * k) * r == (k * r) * t;
    assert t * n == n * t;
    DivLower(t * k, r, t * n);
  }

  /** Division by a positive number keeps order. */
  lemma DivMono(a: nat, b: nat, d: nat)
    requires a <= b && d > 0
    ensures a / d <= b / d
  {
    assert a / d * d <= a;
    DivLower(a / d, d, b);
  }

  /** Division undoes multiplication. */
  lemma DivOfMul(a: nat, d: nat)
    requires d > 0
    ensures (a * d) / d == a
  {
    DivLower(a, d, a * d);
    var r := (a * d) / d;
    assert r * d <= a * d;
    MulMono(a + 1, r, d);
  }

  /**
   * pdUS_TO_TICKS: microseconds times the rate in 64 bits (wrapping), divided
   * by one million, the quotient cast to the 32-bit tick type.
   */
  function UsToTicks(us: U64, rate: Rate): U32 {
    ((us * rate) % 0x1_0000_0000_0000_0000 / 1_000_000) % 0x1_0000_0000
  }

  /** While the product and the quotient fit, the conversion is the floor of us * rate / 10^6. */
  lemma UsToTicksExact(us: U64, rate: Rate)
    requires us * rate < 0x1_0000_0000_0000_0000 && us * rate / 1_000_000 < 0x1_0000_0000
    ensures UsToTicks(us, rate) == us * rate / 1_000_000
  {
    var p := us * rate;
    assert p % 0x1_0000_0000_0000_0000 == p;
    var q := p / 1_000_000;
    assert q % 0x1_0000_0000 == q;
  }

  /** While the product fits in 64 bits and the quotient in 32, more microseconds never give fewer ticks. */
  lemma UsToTicksMonotone(u1: U64, u2: U64, rate: Rate)
    requires u1 <= u2 && u2 * rate < 0x1_0000_0000_0000_0000 && u2 * rate / 1_000_000 < 0x1_0000_0000
    ensures UsToTicks(u1, rate) <= UsToTicks(u2, rate)
  {
    MulMono(u1, u2, rate);
    DivMono(u1 * rate, u2 * rate, 1_000_000);
    UsToTicksExact(u1, rate);
    UsToTicksExact(u2, rate);
  }

  /** Fewer microseconds than one tick lasts give no tick at all. */
  lemma UsToTicksShort(us: U64, rate: Rate)
    requires us < 1_000_000 / rate
    ensures UsToTicks(us, rate) == 0
  {
    var t := 1_000_000 / rate;
    MulMono(us + 1, t, rate);
    assert t * rate <= 1_000_000;
    assert us * rate < 1_000_000;
    UsToTicksExact(us, rate);
  }

  /**
   * delay_us: its argument, whatever its name says, is converted as
   * microseconds; vTaskDelay then waits that many ticks.
   */
  function DelayUsTicks(ms: U64, rate: Rate): (ticks: U32) {
    UsToTicks(ms, rate)
  }

  /**
   * The 30 microsecond delay_us after unaddressing: no tick at all for any
   * rate up to 33333 Hz, at least one above.
   */
  lemma UnaddressDelay(rate: Rate)
    ensures DelayUsTicks(30, rate) == 0 <==> rate <= 33333
  {
    UsToTicksExact(30, rate);
  }
}
