/**
 Converting between OS ticks, `rate` of them in a second, and the counts of the
 low-power timer that replaces the tick while the system sleeps.  The conversion
 back carries its remainder over to the next one.  All arithmetic is 32-bit
 unsigned.
 */
module PmTicks {
  import opened Arithmetic

  const U32 := 0x1_0000_0000
  const RT_TICK_MAX := 0xFFFF_FFFF

  /** stm32l4_pm_tick_from_os_tick. */
  function PmTick(freq: nat, rate: nat, tick: nat): nat
    requires rate > 0
  {
    (freq * tick) % U32 / rate
  }

  /** The value os_tick_remain and the quotient are taken from. */
  function Pool(rate: nat, remain: nat, tick: nat): nat {
    (tick * rate + remain) % U32
  }

  class TickConverter {
    const rate: nat // RT_TICK_PER_SECOND
    var os_tick_remain: nat

    constructor (rate: nat)
      ensures this.rate == rate && os_tick_remain == 0
    {
      this.rate := rate;
      os_tick_remain := 0;
    }

    /** stm32l4_os_tick_from_pm_tick. */
    method OsTickFromPmTick(tick: nat, freq: nat) returns (ret: nat)
      requires freq > 0 && os_tick_remain < U32
      modifies this
      ensures ret == (tick * rate + old(os_tick_remain)) % U32 / freq
      ensures os_tick_remain == (tick * rate + old(os_tick_remain)) % U32 % freq < U32
      ensures freq * ret + os_tick_remain == tick * rate + old(os_tick_remain)
         <==> tick * rate + old(os_tick_remain) < U32
    {
      ExactIff(tick * rate + os_tick_remain, freq);
      SumWraps(tick * rate, os_tick_remain);
      var product := (tick * rate) % U32;
      ret := (product + os_tick_remain) % U32 / freq;
      os_tick_remain := (os_tick_remain + product) % U32;
      os_tick_remain := os_tick_remain % freq;
    }
  }

  lemma ExactIff(total: nat, freq: nat)
    requires freq > 0
    ensures var pool := total % U32;
      && pool % freq <= pool < U32
      && (freq * (pool / freq) + pool % freq == total <==> total < U32)
  {
    Division(total % U32, freq);
    Wraps(total);
  }

  lemma SumWraps(x: nat, y: nat)
    ensures (x % U32 + y) % U32 == (x + y) % U32
  {
  }

  /** Remainder and total of OS ticks returned after a series of conversions. */
  datatype Account = Account(remain: nat, returned: nat)

  function Convert(freq: nat, rate: nat, a: Account, ticks: seq<nat>): Account
    requires freq > 0
    decreases |ticks|
  {
    if ticks == [] then a else Convert(freq, rate, ConvertOne(freq, rate, a, ticks[0]), ticks[1..])
  }

  function ConvertOne(freq: nat, rate: nat, a: Account, tick: nat): Account
    requires freq > 0
  {
    var pool := Pool(rate, a.remain, tick);
    Account(pool % freq, a.returned + pool / freq)
  }

  /** What 32-bit overflow removes over the series; a multiple of 2^32. */
  function Dropped(freq: nat, rate: nat, a: Account, ticks: seq<nat>): nat
    requires freq > 0
    decreases |ticks|
  {
    if ticks == [] then 0
    else Overflow(ticks[0] * rate + a.remain) + Dropped(freq, rate, ConvertOne(freq, rate, a, ticks[0]), ticks[1..])
  }

  function Overflow(x: nat): nat {
    x / U32 * U32
  }

  /** No conversion of the series overflows. */
  predicate NoOverflow(freq: nat, rate: nat, a: Account, ticks: seq<nat>)
    requires freq > 0
    decreases |ticks|
  {
    ticks == [] || (
      && ticks[0] * rate + a.remain < U32
      && NoOverflow(freq, rate, ConvertOne(freq, rate, a, ticks[0]), ticks[1..]))
  }

  function Sum(s: seq<nat>): nat {
    if s == [] then 0 else s[0] + Sum(s[1..])
  }

  /** The account of a series: what is returned, scaled up, and the remainder are what
      came in, less what overflow dropped; if a conversion overflows, that is 2^32 at
      least, and otherwise nothing. */
  lemma {:induction false} AccountBalances(freq: nat, rate: nat, a: Account, ticks: seq<nat>)
    requires freq > 0
    ensures var a' := Convert(freq, rate, a, ticks);
      && freq * a'.returned + a'.remain + Dropped(freq, rate, a, ticks)
           == freq * a.returned + a.remain + rate * Sum(ticks)
      && (ticks != [] ==> a'.remain < freq)
    ensures if NoOverflow(freq, rate, a, ticks) then Dropped(freq, rate, a, ticks) == 0
            else Dropped(freq, rate, a, ticks) >= U32
    decreases |ticks|
  {
    if ticks != [] {
      hide ConvertOne, Overflow;
      OneBalances(freq, rate, a, ticks[0]);
      AccountBalances(freq, rate, ConvertOne(freq, rate, a, ticks[0]), ticks[1..]);
      Distribute(rate, ticks[0], Sum(ticks[1..]));
    }
  }

  lemma OneBalances(freq: nat, rate: nat, a: Account, tick: nat)
    requires freq > 0
    ensures var a1 := ConvertOne(freq, rate, a, tick);
      && a1.remain < freq
      && freq * a1.returned + a1.remain + Overflow(tick * rate + a.remain)
           == freq * a.returned + tick * rate + a.remain
    ensures var total := tick * rate + a.remain;
      if total < U32 then Overflow(total) == 0 else Overflow(total) >= U32
  {
    var pool := Pool(rate, a.remain, tick);
    Division(pool, freq);
    assert freq * (a.returned + pool / freq) == freq * a.returned + freq * (pool / freq);
  }

  lemma Distribute(k: nat, a: nat, b: nat)
    ensures k * (a + b) == a * k + k * b
  {
  }

  /** No drift: however the series is cut up, the total returned is the exact total
      rounded down exactly when no conversion overflows. */
  lemma NoDriftIff(freq: nat, rate: nat, ticks: seq<nat>)
    requires 0 < freq < U32
    ensures Convert(freq, rate, Account(0, 0), ticks).returned == rate * Sum(ticks) / freq
       <==> NoOverflow(freq, rate, Account(0, 0), ticks)
  {
    AccountBalances(freq, rate, Account(0, 0), ticks);
    var a := Convert(freq, rate, Account(0, 0), ticks);
    var total := rate * Sum(ticks);
    Division(total, freq);
    if NoOverflow(freq, rate, Account(0, 0), ticks) {
      QuotientIs(total, freq, a.returned, a.remain);
    }
  }

  // ---------------------------------------------------------------- sleeping

  datatype Option<T> = None | Some(value: T)

  /** pm_timer_start: no timer for "forever"; otherwise the timer never runs longer
      than the timeout, and is the longest that its limit and the product, cut to 32
      bits, allow. */
  method TimerStart(timeout: nat, freq: nat, rate: nat, tickMax: nat) returns (started: Option<nat>)
    requires rate > 0 && 0 < timeout <= RT_TICK_MAX
    ensures started.None? <==> timeout == RT_TICK_MAX
    ensures started.Some? ==>
      && started.value <= tickMax
      && rate * started.value <= (freq * timeout) % U32 <= freq * timeout
      && (started.value < tickMax ==> (freq * timeout) % U32 < rate * (started.value + 1))
    ensures started.Some? ==> started.value == TimerCount(timeout, freq, rate, tickMax)
  {
    CountIsLongest(timeout, freq, rate, tickMax);
    if timeout != RT_TICK_MAX {
      var count := PmTick(freq, rate, timeout);
      if count > tickMax {
        count := tickMax;
      }
      return Some(count);
    }
    return None;
  }

  function TimerCount(timeout: nat, freq: nat, rate: nat, tickMax: nat): nat
    requires rate > 0
  {
    if PmTick(freq, rate, timeout) > tickMax then tickMax else PmTick(freq, rate, timeout)
  }

  lemma CountIsLongest(timeout: nat, freq: nat, rate: nat, tickMax: nat)
    requires rate > 0
    ensures var count := TimerCount(timeout, freq, rate, tickMax);
      && rate * count <= (freq * timeout) % U32 <= freq * timeout
      && (count < tickMax ==> (freq * timeout) % U32 < rate * (count + 1))
  {
    Wraps(freq * timeout);
    var product := (freq * timeout) % U32;
    Division(product, rate);
    Scale(rate, TimerCount(timeout, freq, rate, tickMax), product / rate);
    assert rate * (product / rate + 1) == rate * (product / rate) + rate;
  }

  /** A sleep timed by that count never comes back as more OS ticks than were asked
      for, whatever overflows or is clamped. */
  lemma NeverOversleeps(timeout: nat, freq: nat, rate: nat, tickMax: nat, remain: nat)
    requires rate > 0 && remain < freq
    ensures Pool(rate, remain, TimerCount(timeout, freq, rate, tickMax)) / freq <= timeout
  {
    var count := TimerCount(timeout, freq, rate, tickMax);
    CountIsLongest(timeout, freq, rate, tickMax);
    Wraps(count * rate + remain);
    assert Pool(rate, remain, count) < freq * (timeout + 1);
    QuotientBelow(Pool(rate, remain, count), freq, timeout + 1);
  }

  /** It is at most one tick short if the timer is no slower than the tick and neither
      overflow nor clamping happens. */
  lemma SleepsLongEnough(timeout: nat, freq: nat, rate: nat, tickMax: nat, remain: nat)
    requires 0 < rate <= freq && remain < freq
    requires freq * timeout + freq <= U32 && PmTick(freq, rate, timeout) <= tickMax
    ensures timeout <= Pool(rate, remain, TimerCount(timeout, freq, rate, tickMax)) / freq + 1
  {
    var asked := freq * timeout;
    var count := TimerCount(timeout, freq, rate, tickMax);
    Wraps(asked);
    Division(asked, rate);
    assert asked - rate < count * rate <= asked;
    Wraps(count * rate + remain);
    assert freq * (timeout - 1) == asked - freq;
    QuotientAbove(Pool(rate, remain, count), freq, timeout - 1);
  }

  lemma Wraps(x: nat)
    ensures x % U32 <= x && (x < U32 <==> x % U32 == x)
  {
  }
}
