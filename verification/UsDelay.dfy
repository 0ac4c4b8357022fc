/**
 The busy wait on SysTick.  The counter runs from `reload` down to 0 and starts
 again, one step per clock cycle; the loop samples it and adds up the differences,
 counting `reload` instead of reload + 1 cycles when it sees the counter wrap.
 */
module UsDelay {
  import opened Arithmetic

  const U32 := 0x1_0000_0000
  const RT_TICK_PER_SECOND := 1000

  /** SysTick->VAL, `cycle` clock cycles after the counter last was `reload`. */
  function Val(reload: nat, cycle: nat): (v: nat)
    ensures v <= reload
  {
    reload - cycle % (reload + 1)
  }

  /** What one sample adds to tcnt. */
  function Gain(reload: nat, told: nat, tnow: nat): int
    requires told <= reload && tnow <= reload
  {
    if tnow == told then 0 else if tnow < told then told - tnow else reload - tnow + told
  }

  /** Times the counter has been reloaded by the given cycle. */
  function Wraps(reload: nat, cycle: nat): nat {
    cycle / (reload + 1)
  }

  /** The cycles from one time to another, less the reloads between them. */
  function Counted(reload: nat, from: nat, to: nat): int {
    (to - from) - (Wraps(reload, to) - Wraps(reload, from))
  }

  /** Every whole period between two samples goes unseen: the gain is the true number
      of cycles less the reloads, and `reload` less still for each such period. */
  lemma PeriodsAreMissed(reload: nat, from: nat, to: nat)
    requires from <= to
    ensures Gain(reload, Val(reload, from), Val(reload, to))
         == Counted(reload, from, to) - (to - from) / (reload + 1) * reload
  {
    var n := reload + 1;
    var m, r := (to - from) / n, (to - from) % n;
    assert to == (from + r) + m * n;
    LapsAdd(from + r, m, n);
    PositionMoves(n, from, from + r);
  }

  /** A sample adds the true number of cycles less the reloads exactly when it comes
      at most `reload` cycles after the one before. */
  lemma GainExactIff(reload: nat, from: nat, to: nat)
    requires reload >= 1 && from <= to
    ensures Gain(reload, Val(reload, from), Val(reload, to)) == Counted(reload, from, to)
       <==> to - from <= reload
  {
    hide Gain, Val, Counted;
    PeriodsAreMissed(reload, from, to);
    var m := (to - from) / (reload + 1);
    if to - from > reload {
      QuotientMonotone(reload + 1, to - from, reload + 1);
      QuotientIs(reload + 1, reload + 1, 1, 0);
      Scale(reload, 1, m);
    } else {
      QuotientIs(to - from, reload + 1, 0, to - from);
    }
  }

  /** Every such sample sees the counter moved. */
  lemma ValMoves(reload: nat, from: nat, to: nat)
    requires from < to <= from + reload
    ensures Val(reload, from) != Val(reload, to)
  {
    PositionMoves(reload + 1, from, to);
  }

  /** The number of ticks the loop waits for, in 32-bit arithmetic. */
  function Ticks(us: nat, reload: nat): nat {
    Wrap32(us * reload) / (1000000 / RT_TICK_PER_SECOND)
  }

  /** The product is the intended one exactly when it fits 32 bits. */
  lemma TicksExactIff(us: nat, reload: nat)
    ensures Ticks(us, reload) == us * reload / 1000 <==> us * reload < U32
  {
    var p := us * reload;
    if p >= U32 {
      assert p % U32 <= p - U32;
      assert p / 1000 >= (p - U32) / 1000 + 4294967;
    }
  }

  /** The time of each read of SysTick->VAL. */
  type Clock = nat -> nat

  /** Time passes between reads, and at most `reload` cycles of it. */
  ghost predicate Paced(clock: Clock, reload: nat) {
    forall i: nat :: clock(i) < clock(i + 1) <= clock(i) + reload
  }

  /** E cycles that contain W reloads are at least twice W less one. */
  lemma ReloadsAreRare(reload: nat, from: nat, to: nat)
    requires reload >= 1 && from <= to
    ensures 2 * (Wraps(reload, to) - Wraps(reload, from)) <= (to - from) + 1
  {
    var n := reload + 1;
    var w := to / n - from / n;
    assert (w - 1) * n == (to - from) - (to % n - from % n) - n;
    AtLeastDouble(w - 1, n);
  }

  lemma AtLeastDouble(w: int, n: nat)
    requires n >= 2
    ensures w >= 0 ==> w * n >= 2 * w
  {
  }

  /** Counting `reload` for a period of reload + 1 cycles is what makes the delay come
      out right: the elapsed cycles are those of `us` microseconds, at most 3 short and
      at most one period and a cycle over. */
  lemma CountedIsRealTime(us: nat, reload: nat, from: nat, to: nat)
    requires reload >= 1 && from <= to
    requires var counted := Counted(reload, from, to);
      us * reload / 1000 <= counted <= us * reload / 1000 + reload
    ensures us * (reload + 1) - 2998 <= 1000 * (to - from) <= (us + 1000) * (reload + 1) + 1000
  {
    var n, e := reload + 1, to - from;
    var w := to / n - from / n;
    assert w * n == e - (to % n - from % n);
    var counted := e - w;
    assert n * counted == reload * e + (e - w * n) by {
      assert n * counted == n * e - w * n;
    }
    var p := us * reload;
    assert p - 999 <= 1000 * (p / 1000) <= p;
    LowerBound(us, reload, e, counted);
    UpperBound(us, reload, e, counted);
  }

  lemma LowerBound(us: nat, reload: nat, e: int, counted: int)
    requires reload >= 1
    requires (reload + 1) * counted <= reload * e + reload
    requires us * reload - 999 <= 1000 * counted
    ensures us * (reload + 1) - 2998 <= 1000 * e
  {
    var n := reload + 1;
    calc {
      reload * (us * n);
      n * (us * reload);
      <= { Scale(n, us * reload, 1000 * counted + 999); }
      n * (1000 * counted + 999);
      ==
      1000 * (n * counted) + 999 * n;
      <=
      1000 * (reload * e + reload) + 999 * n;
      <=
      1000 * (reload * e + reload) + 1998 * reload;
      ==
      reload * (1000 * e + 2998);
    }
    Cancel(reload, us * n, 1000 * e + 2998);
  }

  lemma UpperBound(us: nat, reload: nat, e: int, counted: int)
    requires reload >= 1
    requires reload * e - reload <= (reload + 1) * counted
    requires 1000 * counted <= us * reload + 1000 * reload
    ensures 1000 * e <= (us + 1000) * (reload + 1) + 1000
  {
    var n := reload + 1;
    calc {
      reload * (1000 * e - 1000);
      ==
      1000 * (reload * e - reload);
      <=
      1000 * (n * counted);
      ==
      n * (1000 * counted);
      <= { Scale(n, 1000 * counted, us * reload + 1000 * reload); }
      n * (us * reload + 1000 * reload);
      ==
      reload * ((us + 1000) * n);
    }
    Cancel(reload, 1000 * e - 1000, (us + 1000) * n);
  }

  /** rt_hw_us_delay.  `samples` is the number of the last read it makes. */
  method Delay(us: nat, reload: nat, clock: Clock) returns (samples: nat)
    requires 1 <= reload < 0x100_0000 && us < U32 && Paced(clock, reload)
    ensures clock(0) <= clock(samples)
    ensures var ticks := us * reload % U32 / 1000;
            var counted := Counted(reload, clock(0), clock(samples));
      && samples > 0
      && ticks <= counted
      && counted <= ticks + reload
    ensures us * reload < U32 ==>
      us * (reload + 1) - 2998 <= 1000 * (clock(samples) - clock(0)) <= (us + 1000) * (reload + 1) + 1000
  {
    var ticks := Ticks(us, reload);
    TicksBound(us, reload);
    var told := Val(reload, clock(0));
    var tcnt := 0;
    samples := 0;
    while true
      invariant clock(0) <= clock(samples) && told == Val(reload, clock(samples))
      invariant tcnt == Counted(reload, clock(0), clock(samples))
      invariant 0 <= tcnt && (samples > 0 ==> tcnt < ticks)
      decreases 2 * ticks + 2 - (clock(samples) - clock(0))
    {
      var tnow := Val(reload, clock(samples + 1));
      ghost var before := clock(samples);
      GainExactIff(reload, before, clock(samples + 1));
      ValMoves(reload, before, clock(samples + 1));
      ReloadsAreRare(reload, clock(0), before);
      samples := samples + 1;
      if tnow != told {
        if tnow < told {
          tcnt := Wrap32(tcnt + (told - tnow));
        } else {
          tcnt := Wrap32(tcnt + (reload - tnow + told));
        }
        told := tnow;
        if tcnt >= ticks {
          break;
        }
      }
    }
    if us * reload < U32 {
      TicksExactIff(us, reload);
      CountedIsRealTime(us, reload, clock(0), clock(samples));
    }
  }

  /** 32-bit unsigned arithmetic. */
  function Wrap32(x: nat): (r: nat)
    ensures x < U32 ==> r == x
  {
    x % U32
  }

  lemma TicksBound(us: nat, reload: nat)
    ensures Ticks(us, reload) <= 4294967
  {
  }
}
