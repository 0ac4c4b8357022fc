/**
 A quadrature encoder on a timer that counts 0 .. ARR up and down and raises an
 update event whenever it wraps either way.  The handler counts the wraps by the
 direction it finds when it runs; the reader multiplies them by ARR.

 The truth the driver does not see is kept beside it: the position, the wraps since
 the last service and what services have counted wrongly so far.
 */
module PulseEncoder {
  const U32 := 0x1_0000_0000
  const AUTO_RELOAD_VALUE := 0x7FFF
  const PERIOD := AUTO_RELOAD_VALUE + 1

  function ToInt32(x: int): (r: int)
    ensures -0x8000_0000 <= r < 0x8000_0000 && (r - x) % U32 == 0
  {
    if x % U32 < 0x8000_0000 then x % U32 else x % U32 - U32
  }

  function ToInt16(x: int): int {
    if x % 0x1_0000 < 0x8000 then x % 0x1_0000 else x % 0x1_0000 - 0x1_0000
  }

  datatype Timer = Timer(cnt: nat, down: bool, update: bool, flow: int)

  const AT_REST := Timer(0, false, false, 0)

  datatype Event = Up | Down | Serve | Clear

  function Step(t: Timer, e: Event): Timer {
    match e
    case Up =>
      if t.cnt == AUTO_RELOAD_VALUE then t.(cnt := 0, down := false, update := true)
      else t.(cnt := t.cnt + 1, down := false)
    case Down =>
      if t.cnt == 0 then t.(cnt := AUTO_RELOAD_VALUE, down := true, update := true)
      else t.(cnt := t.cnt - 1, down := true)
    case Serve =>
      if t.update then t.(update := false, flow := t.flow + Counts(t)) else t
    case Clear => t.(cnt := 0, flow := 0)
  }

  /** What a service adds to the wrap count. */
  function Counts(t: Timer): int {
    if t.down then -1 else 1
  }

  function Reported(t: Timer): int {
    ToInt32(t.cnt + t.flow * AUTO_RELOAD_VALUE)
  }

  /** Movement since the start or the last clear; wraps since the last service, upward
      less downward; wraps that services have failed to count. */
  datatype Truth = Truth(position: int, net: int, missed: int)

  const NOTHING_YET := Truth(0, 0, 0)

  function Watch(w: Truth, t: Timer, e: Event): Truth {
    match e
    case Up => w.(position := w.position + 1, net := if t.cnt == AUTO_RELOAD_VALUE then w.net + 1 else w.net)
    case Down => w.(position := w.position - 1, net := if t.cnt == 0 then w.net - 1 else w.net)
    case Serve => if t.update then w.(net := 0, missed := w.missed + w.net - Counts(t)) else w
    case Clear => NOTHING_YET
  }

  /** The wraps counted, waiting and missed make up the position; a wrap that waits
      has its flag set. */
  ghost predicate Tracks(t: Timer, w: Truth) {
    && t.cnt <= AUTO_RELOAD_VALUE
    && w.position == t.cnt + (t.flow + w.net + w.missed) * PERIOD
    && (!t.update ==> w.net == 0)
  }

  /** The wrap count says where the encoder is. */
  predicate Right(t: Timer, w: Truth) {
    w.position == t.cnt + t.flow * PERIOD
  }

  lemma StepTracks(t: Timer, w: Truth, e: Event)
    requires Tracks(t, w)
    ensures Tracks(Step(t, e), Watch(w, t, e))
  {
  }

  /** A service leaves the count right exactly when the wraps since the last one, with
      those missed before, come to the one that the direction bit suggests. */
  lemma ServiceRightIff(t: Timer, w: Truth)
    requires Tracks(t, w) && t.update
    ensures Right(Step(t, Serve), Watch(w, t, Serve)) <==> w.missed + w.net == Counts(t)
  {
    StepTracks(t, w, Serve);
  }

  function Run(t: Timer, es: seq<Event>): Timer
    decreases |es|
  {
    if es == [] then t else Run(Step(t, es[0]), es[1..])
  }

  function WatchRun(w: Truth, t: Timer, es: seq<Event>): Truth
    decreases |es|
  {
    if es == [] then w else WatchRun(Watch(w, t, es[0]), Step(t, es[0]), es[1..])
  }

  /** Over any run whatever, the position is the counter plus a period for each wrap
      counted, waiting or missed. */
  lemma {:induction false} PositionIsLaps(t: Timer, w: Truth, es: seq<Event>)
    requires Tracks(t, w)
    ensures Tracks(Run(t, es), WatchRun(w, t, es))
    decreases |es|
  {
    if es != [] {
      StepTracks(t, w, es[0]);
      PositionIsLaps(Step(t, es[0]), Watch(w, t, es[0]), es[1..]);
    }
  }

  /** After any run that leaves no update waiting: the wrap count is right exactly when
      what services have missed sums to 0.  The reader takes ARR for a period of
      ARR + 1, so its report is off by the wrap count as well, and right exactly when
      these errors cancel (within 32 bits). */
  lemma ReportedIff(es: seq<Event>)
    requires !Run(AT_REST, es).update
    requires var t, w := Run(AT_REST, es), WatchRun(NOTHING_YET, AT_REST, es);
      -0x8000_0000 <= w.position - t.flow - w.missed * PERIOD < 0x8000_0000
    ensures var t, w := Run(AT_REST, es), WatchRun(NOTHING_YET, AT_REST, es);
      && (Right(t, w) <==> w.missed == 0)
      && Reported(t) == w.position - t.flow - w.missed * PERIOD
      && (Reported(t) == w.position <==> t.flow + w.missed * PERIOD == 0)
  {
    PositionIsLaps(AT_REST, NOTHING_YET, es);
    hide Run, WatchRun;
    InRange(Run(AT_REST, es), WatchRun(NOTHING_YET, AT_REST, es));
  }

  lemma InRange(t: Timer, w: Truth)
    requires Tracks(t, w) && !t.update
    requires -0x8000_0000 <= w.position - t.flow - w.missed * PERIOD < 0x8000_0000
    ensures Right(t, w) <==> w.missed == 0
    ensures Reported(t) == w.position - t.flow - w.missed * PERIOD
  {
  }

  /** While an update is waiting the encoder neither turns round nor wraps again, and
      the count is not cleared. */
  predicate ServedInTime(t: Timer, es: seq<Event>)
    decreases |es|
  {
    es == [] || (
      && (t.update ==>
            match es[0]
            case Up => !t.down && t.cnt < AUTO_RELOAD_VALUE
            case Down => t.down && t.cnt > 0
            case Serve => true
            case Clear => false)
      && ServedInTime(Step(t, es[0]), es[1..]))
  }

  /** Then no service misses anything: on such runs the report is right exactly while
      the wrap count is 0. */
  lemma {:induction false} ServedInTimeMissesNothing(t: Timer, w: Truth, es: seq<Event>)
    requires Tracks(t, w) && ServedInTime(t, es)
    requires w.missed == 0 && (t.update ==> w.net == Counts(t))
    ensures var t', w' := Run(t, es), WatchRun(w, t, es);
      w'.missed == 0 && (t'.update ==> w'.net == Counts(t'))
    decreases |es|
  {
    if es != [] {
      StepTracks(t, w, es[0]);
      ServedInTimeMissesNothing(Step(t, es[0]), Watch(w, t, es[0]), es[1..]);
    }
  }

  lemma RunFour(t: Timer, w: Truth, a: Event, b: Event, c: Event, d: Event)
    ensures var t1, w1 := Step(t, a), Watch(w, t, a);
            var t2, w2 := Step(t1, b), Watch(w1, t1, b);
            var t3, w3 := Step(t2, c), Watch(w2, t2, c);
      && Run(t, [a, b, c, d]) == Step(t3, d)
      && WatchRun(w, t, [a, b, c, d]) == Watch(w3, t3, d)
  {
    hide Step, Watch;
    assert [a, b, c, d][1..] == [b, c, d] && [b, c, d][1..] == [c, d] && [c, d][1..] == [d] && [d][1..] == [];
    var t1, w1 := Step(t, a), Watch(w, t, a);
    var t2, w2 := Step(t1, b), Watch(w1, t1, b);
    var t3, w3 := Step(t2, c), Watch(w2, t2, c);
    assert Run(t2, [c, d]) == Run(t3, [d]) == Run(Step(t3, d), []);
    assert WatchRun(w2, t2, [c, d]) == WatchRun(w3, t3, [d]) == WatchRun(Watch(w3, t3, d), Step(t3, d), []);
  }

  /** An update served after the encoder has turned round is counted the wrong way:
      two periods are missed. */
  lemma LateUpdateLosesTwoPeriods(t: Timer, w: Truth)
    requires Tracks(t, w) && Right(t, w) && t.cnt == AUTO_RELOAD_VALUE && !t.update
    ensures var es := [Up, Up, Down, Serve];
            var t', w' := Run(t, es), WatchRun(w, t, es);
      !t'.update && w'.missed == 2 && w'.position == t'.cnt + (t'.flow + 2) * PERIOD
  {
    RunFour(t, w, Up, Up, Down, Serve);
  }

  /** Late is not always wrong: here the encoder wraps down, up and down again before
      the service, which counts the one wrap that is left. */
  lemma LateButRight()
    ensures var es := [Down, Up, Down, Serve];
            var t, w := Run(AT_REST, es), WatchRun(NOTHING_YET, AT_REST, es);
      !ServedInTime(AT_REST, es) && Right(t, w) && t.flow == -1
  {
    RunFour(AT_REST, NOTHING_YET, Down, Up, Down, Serve);
    assert !ServedInTime(Step(AT_REST, Down), [Up, Down, Serve]);
  }

  /** One count down, served at once: the encoder is at -1 and the report is 0. */
  lemma OneStepBackReportsZero()
    ensures var es := [Down, Serve];
            var t, w := Run(AT_REST, es), WatchRun(NOTHING_YET, AT_REST, es);
      ServedInTime(AT_REST, es) && Right(t, w) && t.flow == -1 && w.position == -1 && Reported(t) == 0
  {
    var es := [Down, Serve];
    assert es[1..] == [Serve] && [Serve][1..] == [];
    var t1, w1 := Step(AT_REST, Down), Watch(NOTHING_YET, AT_REST, Down);
    assert Run(AT_REST, es) == Run(t1, [Serve]) == Run(Step(t1, Serve), []);
    assert WatchRun(NOTHING_YET, AT_REST, es) == WatchRun(w1, t1, [Serve])
        == WatchRun(Watch(w1, t1, Serve), Step(t1, Serve), []);
    assert ServedInTime(AT_REST, es) by { assert ServedInTime(t1, [Serve]); }
  }

  class Encoder {
    var cnt: nat                    // the timer's counter
    var down: bool                  // its direction bit
    var update: bool                // its update flag
    var over_under_flowcount: int
    ghost var truth: Truth

    constructor ()
      ensures Valid() && State() == AT_REST && truth == NOTHING_YET
    {
      cnt := 0;
      down := false;
      update := false;
      over_under_flowcount := 0;
      truth := NOTHING_YET;
    }

    ghost predicate Valid()
      reads this
    {
      Tracks(State(), truth)
    }

    ghost function State(): Timer
      reads this
    {
      Timer(cnt, down, update, over_under_flowcount)
    }

    /** The timer counts one edge. */
    method Edge(up: bool)
      requires Valid()
      modifies this
      ensures Valid() && State() == Step(old(State()), if up then Up else Down)
      ensures truth == Watch(old(truth), old(State()), if up then Up else Down)
    {
      truth := Watch(truth, State(), if up then Up else Down);
      if up {
        update := update || cnt == AUTO_RELOAD_VALUE;
        cnt := if cnt == AUTO_RELOAD_VALUE then 0 else cnt + 1;
      } else {
        update := update || cnt == 0;
        cnt := if cnt == 0 then AUTO_RELOAD_VALUE else cnt - 1;
      }
      down := !up;
    }

    /** The encoder has not moved and no update is waiting; the wrap count is right if
        the wraps since the last service, and those missed before it, come to one in
        the direction the timer now counts, and wrong otherwise. */
    method UpdateIsr()
      requires Valid()
      modifies this
      ensures Valid() && State() == Step(old(State()), Serve)
      ensures !update && cnt == old(cnt) && down == old(down)
      ensures truth.position == old(truth.position) && truth.net == 0
      ensures Right(State(), truth)
         <==> old(truth.missed + truth.net) == if old(update) then Counts(old(State())) else 0
    {
      truth := Watch(truth, State(), Serve);
      if update {
        update := false;
        if down {
          over_under_flowcount := over_under_flowcount - 1;
        } else {
          over_under_flowcount := over_under_flowcount + 1;
        }
      }
    }

    /** Position and report are 0; an update that is waiting stays. */
    method ClearCount()
      requires Valid()
      modifies this
      ensures Valid() && State() == Step(old(State()), Clear)
      ensures truth == NOTHING_YET && Right(State(), truth) && Reported(State()) == 0
      ensures update == old(update) && down == old(down)
    {
      over_under_flowcount := 0;
      cnt := 0;
      truth := NOTHING_YET;
    }

    /** The counter never exceeds 15 bits, so the cast to 16 signed bits keeps it. */
    method GetCount() returns (count: int)
      requires Valid()
      ensures count == Reported(State())
      ensures -0x8000_0000 <= count < 0x8000_0000 && (count - cnt - over_under_flowcount * AUTO_RELOAD_VALUE) % U32 == 0
    {
      count := ToInt32(ToInt16(cnt) + over_under_flowcount * AUTO_RELOAD_VALUE);
    }
  }
}
