/**
 Choosing timer registers for a PWM period and pulse in nanoseconds, and reading
 them back.  Clocks are in MHz; `U32` arithmetic is what the driver's 32-bit
 variables and unsigned long constants make of the products.
 */
module PwmTimer {
  import opened Arithmetic

  const U32 := 0x1_0000_0000
  const U64 := 0x1_0000_0000_0000_0000

  const MAX_PERIOD := 65535
  const MIN_PERIOD := 3
  const MIN_PULSE := 2

  /** Prescaler, auto-reload and compare registers; each holds its count less one. */
  datatype Regs = Regs(psc: nat, arr: nat, ccr: nat)

  /** Timer ticks in a time, rounded down. */
  function TickCount(ns: nat, clk: nat): nat {
    ns * clk / 1000
  }

  function Prescale(periodNs: nat, clk: nat): nat {
    TickCount(periodNs, clk) / MAX_PERIOD + 1
  }

  /** The registers meant, in exact arithmetic. */
  function Settings(periodNs: nat, pulseNs: nat, clk: nat): Regs {
    var psc := Prescale(periodNs, clk);
    var ticks := TickCount(periodNs, clk) / psc;
    var period := if ticks < MIN_PERIOD then MIN_PERIOD else ticks;
    Regs(psc - 1, period - 1, Pulse(pulseNs * clk / psc / 1000, period) - 1)
  }

  /** Ticks of the pulse, kept between MIN_PULSE and the period. */
  function Pulse(on: nat, period: nat): nat
    requires period >= MIN_PERIOD
  {
    if on < MIN_PULSE then MIN_PULSE else if on > period then period else on
  }

  /** Dividing twice is dividing by the product, in either order. */
  lemma DivideTwice(x: nat, a: nat, b: nat)
    requires a > 0 && b > 0
    ensures x / a / b == x / b / a
  {
    DivideProduct(x, a, b);
    DivideProduct(x, b, a);
    assert a * b == b * a;
  }

  lemma DivideProduct(x: nat, a: nat, b: nat)
    requires a > 0 && b > 0
    ensures a * b > 0 && x / a / b == x / (a * b)
  {
    Scale(a, 1, b);
    var q1, r1 := x / a, x % a;
    var q2, r2 := q1 / b, q1 % b;
    assert x == q1 * a + r1;
    assert q1 == q2 * b + r2;
    Regroup(q1, q2, r2, a, b);
    Scale(a, r2 + 1, b);
    assert a * (r2 + 1) == r2 * a + a;
    QuotientIs(x, a * b, q2, r2 * a + r1);
  }

  lemma Regroup(q1: nat, q2: nat, r2: nat, a: nat, b: nat)
    requires q1 == q2 * b + r2
    ensures q1 * a == q2 * (a * b) + r2 * a
  {
    calc {
      q1 * a;
      ==
      (q2 * b) * a + r2 * a;
      ==
      q2 * (a * b) + r2 * a;
    }
  }

  lemma TimesMonotone(x: nat, y: nat, k: nat)
    requires x <= y
    ensures x * k / 1000 <= y * k / 1000
  {
    Scale(k, x, y);
  }

  /** For every 32-bit period and pulse and every clock below 1 GHz all three values
      fit their 16-bit registers, and the compare value lies in the period. */
  lemma SettingsFit(periodNs: nat, pulseNs: nat, clk: nat)
    requires periodNs < U32 && 1 <= clk < 1000
    ensures var r := Settings(periodNs, pulseNs, clk);
      && r.psc < 0x1_0000
      && MIN_PERIOD <= r.arr + 1 <= MAX_PERIOD - 1
      && MIN_PULSE <= r.ccr + 1 <= r.arr + 1
    ensures TickCount(periodNs, clk) < U32
  {
    Scale(periodNs, clk, 999);
    var p := TickCount(periodNs, clk);
    assert p <= (U32 - 1) * 999 / 1000;
    var psc := p / MAX_PERIOD + 1;
    assert p < MAX_PERIOD * psc;
    assert p < psc * MAX_PERIOD;
    QuotientBelow(p, psc, MAX_PERIOD);
  }

  /** count is the number of whole units in x, raised to `least` if that is more. */
  predicate FloorAtLeast(count: nat, unit: nat, x: nat, least: nat) {
    && least <= count
    && x < (count + 1) * unit
    && (count == least || count * unit <= x)
  }

  lemma FloorIs(x: nat, unit: nat, least: nat)
    requires unit > 0
    ensures FloorAtLeast(if x / unit < least then least else x / unit, unit, x, least)
  {
    Division(x, unit);
    var count := if x / unit < least then least else x / unit;
    Scale(unit, x / unit + 1, count + 1);
    assert unit * (x / unit + 1) == unit * (x / unit) + unit;
    assert (count + 1) * unit == unit * (count + 1);
  }

  /** What the registers are for.  The prescaler is the smallest with which the period
      stays below MAX_PERIOD ticks; the period is then the largest number of prescaled
      ticks that fits the request, and at least MIN_PERIOD; the pulse is so likewise, and
      at least MIN_PULSE, unless the request is as long as the period or longer, which
      gives the period. */
  lemma SettingsMeaning(periodNs: nat, pulseNs: nat, clk: nat)
    ensures var r := Settings(periodNs, pulseNs, clk);
            var ticks := periodNs * clk / 1000;
      && r.psc * 65535 <= ticks < (r.psc + 1) * 65535
      && FloorAtLeast(r.arr + 1, r.psc + 1, ticks, 3)
      && r.ccr <= r.arr
      && (r.ccr == r.arr <==> (r.arr + 1) * (1000 * (r.psc + 1)) <= pulseNs * clk)
      && (r.ccr < r.arr ==> FloorAtLeast(r.ccr + 1, 1000 * (r.psc + 1), pulseNs * clk, 2))
  {
    var r := Settings(periodNs, pulseNs, clk);
    var ticks, psc := TickCount(periodNs, clk), r.psc + 1;
    FloorIs(ticks, psc, MIN_PERIOD);
    PulseMeaning(pulseNs * clk, psc, r.arr + 1);
    hide FloorAtLeast;
  }

  lemma PulseMeaning(x: nat, psc: nat, period: nat)
    requires psc > 0 && period >= MIN_PERIOD
    ensures var pulse := Pulse(x / psc / 1000, period);
      && MIN_PULSE <= pulse <= period
      && (pulse == period <==> period * (1000 * psc) <= x)
      && (pulse < period ==> FloorAtLeast(pulse, 1000 * psc, x, MIN_PULSE))
  {
    var unit := 1000 * psc;
    DivideProduct(x, psc, 1000);
    assert psc * 1000 == unit;
    var on := x / unit;
    FloorIs(x, unit, MIN_PULSE);
    Division(x, unit);
    assert period * unit == unit * period;
    if on >= period {
      Scale(unit, period, on);
    } else {
      Scale(unit, on + 1, period);
      assert unit * (on + 1) == unit * on + unit;
    }
    hide FloorAtLeast;
  }

  /** A pulse no longer than the period is never cut to it. */
  lemma NoUpperClamp(periodNs: nat, pulseNs: nat, clk: nat)
    requires periodNs < U32 && 1 <= clk < 1000 && pulseNs <= periodNs
    ensures var psc := Prescale(periodNs, clk);
      && pulseNs * clk / psc / 1000 <= TickCount(periodNs, clk) / psc
      && Settings(periodNs, pulseNs, clk).ccr + 1
           == (if TickCount(pulseNs, clk) / psc < MIN_PULSE then MIN_PULSE else TickCount(pulseNs, clk) / psc)
  {
    var psc := Prescale(periodNs, clk);
    var on, ticks := pulseNs * clk / psc / 1000, TickCount(periodNs, clk) / psc;
    DivideTwice(pulseNs * clk, psc, 1000);
    TimesMonotone(pulseNs, periodNs, clk);
    QuotientMonotone(TickCount(pulseNs, clk), TickCount(periodNs, clk), psc);
    assert on == TickCount(pulseNs, clk) / psc;
    hide TickCount, Prescale, Pulse;
    Uncut(on, ticks);
    assert Settings(periodNs, pulseNs, clk).ccr + 1 == Pulse(on, if ticks < MIN_PERIOD then MIN_PERIOD else ticks);
  }

  lemma Uncut(on: nat, ticks: nat)
    requires on <= ticks
    ensures Pulse(on, if ticks < MIN_PERIOD then MIN_PERIOD else ticks) == if on < MIN_PULSE then MIN_PULSE else on
  {
  }

  /** What the getter makes of a register, given the prescaler register. */
  function ReadBack(register: nat, psc: nat, clk: nat): nat
    requires clk > 0
  {
    ((register + 1) * (psc + 1) * 1000) % U32 / clk
  }

  /** The getter is exact just as long as the product fits 32 bits. */
  lemma ReadBackExactIff(register: nat, psc: nat, clk: nat)
    requires 1 <= clk < 1000
    ensures ReadBack(register, psc, clk) == (register + 1) * (psc + 1) * 1000 / clk
       <==> (register + 1) * (psc + 1) * 1000 < U32
  {
    var x := (register + 1) * (psc + 1) * 1000;
    if x >= U32 {
      WrapDrops(x);
      QuotientMonotone(x % U32 + clk, x, clk);
      AddDivisor(x % U32, clk);
    }
  }

  lemma WrapDrops(x: nat)
    requires x >= U32
    ensures x % U32 <= x - U32
  {
  }

  lemma AddDivisor(x: nat, d: nat)
    requires d > 0
    ensures (x + d) / d == x / d + 1
  {
    QuotientIs(x + d, d, x / d + 1, x % d);
  }

  /** The registers are those of a setting whose period needs no lower clamp, and whose
      product fits the getter. */
  predicate WasSet(regs: Regs, periodNs: nat, pulseNs: nat, clk: nat) {
    && periodNs < U32 && 1 <= clk < 1000
    && regs == Settings(periodNs, pulseNs, clk)
    && TickCount(periodNs, clk) / Prescale(periodNs, clk) >= MIN_PERIOD
    && (regs.arr + 1) * (regs.psc + 1) * 1000 < U32
  }

  /** A period set and read back is never longer than requested, and short by less
      than one prescaled tick plus a nanosecond. */
  lemma PeriodRoundTrip(regs: Regs, periodNs: nat, pulseNs: nat, clk: nat)
    requires clk > 0 && WasSet(regs, periodNs, pulseNs, clk)
    ensures var got := ReadBack(regs.arr, regs.psc, clk);
      got <= periodNs && (periodNs - got) * clk < 1000 * (regs.psc + 1) + clk
  {
    var psc := regs.psc + 1;
    var p := TickCount(periodNs, clk);
    var x := (regs.arr + 1) * psc * 1000;
    ReadBackExactIff(regs.arr, regs.psc, clk);
    Division(p, psc);
    ReadBackError(periodNs, clk, p, psc, p % psc, x / clk, x);
  }

  /** p ticks in the request, x a thousand times the ticks programmed. */
  lemma ReadBackError(periodNs: nat, clk: nat, p: nat, psc: nat, lost: nat, got: nat, x: nat)
    requires clk > 0 && p == periodNs * clk / 1000 && lost < psc && x == (p - lost) * 1000 && got == x / clk
    ensures got <= periodNs && (periodNs - got) * clk < 1000 * psc + clk
  {
    var asked, told := periodNs * clk, got * clk;
    assert asked - 1000 < p * 1000 <= asked;
    assert told == x - x % clk;
    assert (periodNs - got) * clk == asked - told;
    if got > periodNs {
      Scale(clk, periodNs + 1, got);
    }
  }

  class Timer {
    var regs: Regs
    var cnt: nat

    constructor ()
    {
      regs := Regs(0, 0, 0);
      cnt := 0;
    }

    /** drv_pwm_set with its 32- and 64-bit intermediates: none is truncated.  The
        registers hold the smallest prescaler for the period, and period and pulse as
        the largest numbers of prescaled ticks that fit, kept in their bounds. */
    method Set(periodNs: nat, pulseNs: nat, clk: nat)
      requires periodNs < U32 && pulseNs < U32 && 1 <= clk < 1000
      modifies this
      ensures regs == Settings(periodNs, pulseNs, clk) && cnt == 0
      ensures regs.psc * 65535 <= periodNs * clk / 1000 < (regs.psc + 1) * 65535
      ensures FloorAtLeast(regs.arr + 1, regs.psc + 1, periodNs * clk / 1000, 3)
      ensures regs.ccr <= regs.arr
      ensures regs.ccr == regs.arr <==> (regs.arr + 1) * (1000 * (regs.psc + 1)) <= pulseNs * clk
      ensures regs.ccr < regs.arr ==> FloorAtLeast(regs.ccr + 1, 1000 * (regs.psc + 1), pulseNs * clk, 2)
    {
      SettingsMeaning(periodNs, pulseNs, clk);
      hide FloorAtLeast;
      ProductsFit(periodNs, pulseNs, clk);
      SettingsFit(periodNs, pulseNs, clk);
      hide Cut;
      var period: nat := Cut(Cut(periodNs * clk, U64) / 1000, U32);
      assert period == TickCount(periodNs, clk);
      var psc: nat := period / MAX_PERIOD + 1;
      period := period / psc;
      var pscReg: nat := Cut(psc - 1, U32);
      if period < MIN_PERIOD {
        period := MIN_PERIOD;
      }
      var pulse := OnTicks(pulseNs, clk, psc, period);
      regs := Regs(pscReg, period - 1, pulse - 1);
      cnt := 0;
    }

    /** The pulse half of drv_pwm_set. */
    static method OnTicks(pulseNs: nat, clk: nat, psc: nat, period: nat) returns (pulse: nat)
      requires pulseNs < U32 && 1 <= clk < 1000 && psc > 0 && period >= MIN_PERIOD
      ensures pulse == Pulse(pulseNs * clk / psc / 1000, period)
    {
      PulseFits(pulseNs, clk, psc);
      hide Cut;
      var product: nat := pulseNs * clk;
      ghost var on := product / psc / 1000;
      assert Cut(product, U64) == product && Cut(on, U32) == on;
      pulse := Cut(Cut(product, U64) / psc / 1000, U32);
      if pulse < MIN_PULSE {
        pulse := MIN_PULSE;
      } else if pulse > period {
        pulse := period;
      }
    }

    /** drv_pwm_get; `division` is the clock division of the timer.  Each time is that
        of the register, rounded down to nanoseconds, exactly when its product fits 32
        bits.  A period that was set with the same clock is never read as longer, nor as
        shorter by a prescaled tick and a nanosecond. */
    method Get(clkIn: nat, division: nat) returns (periodNs: nat, pulseNs: nat)
      requires division == 1 || division == 2 || division == 4
      requires 1 <= clkIn / division < 1000
      ensures periodNs == (regs.arr + 1) * (regs.psc + 1) * 1000 / (clkIn / division)
         <==> (regs.arr + 1) * (regs.psc + 1) * 1000 < U32
      ensures pulseNs == (regs.ccr + 1) * (regs.psc + 1) * 1000 / (clkIn / division)
         <==> (regs.ccr + 1) * (regs.psc + 1) * 1000 < U32
      ensures forall period: nat, pulse: nat :: WasSet(regs, period, pulse, clkIn / division) ==>
        periodNs <= period && (period - periodNs) * (clkIn / division) < 1000 * (regs.psc + 1) + clkIn / division
    {
      var clk := clkIn / division;
      periodNs := ((regs.arr + 1) * (regs.psc + 1) * 1000) % U32 / clk;
      pulseNs := ((regs.ccr + 1) * (regs.psc + 1) * 1000) % U32 / clk;
      assert periodNs == ReadBack(regs.arr, regs.psc, clk) && pulseNs == ReadBack(regs.ccr, regs.psc, clk);
      hide *;
      ReadBackExactIff(regs.arr, regs.psc, clk);
      ReadBackExactIff(regs.ccr, regs.psc, clk);
      forall period: nat, pulse: nat | WasSet(regs, period, pulse, clk)
        ensures periodNs <= period && (period - periodNs) * clk < 1000 * (regs.psc + 1) + clk
      {
        PeriodRoundTrip(regs, period, pulse, clk);
      }
    }
  }

  /** A value stored in a variable of the given width. */
  function Cut(x: nat, width: nat): (r: nat)
    requires width > 0
    ensures x < width ==> r == x
  {
    x % width
  }

  lemma ProductsFit(periodNs: nat, pulseNs: nat, clk: nat)
    requires periodNs < U32 && pulseNs < U32 && 1 <= clk < 1000
    ensures pulseNs * clk < U64 && periodNs * clk < U64
  {
    Scale(pulseNs, clk, 999);
    Scale(periodNs, clk, 999);
  }

  lemma PulseFits(pulseNs: nat, clk: nat, psc: nat)
    requires pulseNs < U32 && 1 <= clk < 1000 && psc > 0
    ensures pulseNs * clk < U64 && pulseNs * clk / psc / 1000 < U32
  {
    ProductsFit(0, pulseNs, clk);
    DivideTwice(pulseNs * clk, psc, 1000);
    QuotientAtMost(pulseNs * clk / 1000, psc);
    Scale(pulseNs, clk, 999);
  }
}
