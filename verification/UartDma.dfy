/**
 Reception by circular DMA.  A down-counter shared by three interrupts says how
 much of the ring buffer is still free before it wraps; each handler turns the
 movement of the counter since the last report into a number of new bytes.

 `received` counts the bytes the DMA has stored since the start and `accounted`
 those stored when the driver last reported something; the drivers see neither.
 */
module UartDma {
  import opened Arithmetic

  const U32 := 0x1_0000_0000

  datatype Kind = Idle | Half | Complete

  /** The DMA counter: reloaded to n at the moment it would become 0. */
  function Counter(n: nat, received: nat): (c: nat)
    requires n > 0
    ensures 1 <= c <= n
  {
    n - received % n
  }

  function Sum(s: seq<nat>): nat {
    if s == [] then 0 else Sum(s[..|s| - 1]) + s[|s| - 1]
  }

  lemma SumAppends(s: seq<nat>, x: nat)
    ensures Sum(s + [x]) == Sum(s) + x
  {
    assert (s + [x])[..|s|] == s;
  }

  lemma NextPosition(n: nat, x: nat)
    requires n > 0
    ensures (x + 1) / n == x / n + (if (x + 1) % n == 0 then 1 else 0)
  {
    PositionMoves(n, x, x + 1);
  }

  // ------------------------------------------------------------- driver V2

  /** recv_len in dma_recv_isr. */
  function V2Length(kind: Kind, n: nat, remaining: nat, counter: nat): nat
    requires counter <= n
  {
    match kind
    case Idle =>
      if counter <= remaining then remaining - counter else n + remaining - counter
    case Half =>
      if counter < remaining then remaining - counter else 0
    case Complete =>
      if counter >= remaining then n + remaining - counter else 0
  }

  /** What one handler should make of bytes received since the last report: everything
      new, or nothing; but a transfer-complete handler with nothing new takes it for a
      full buffer. */
  function Meant(kind: Kind, n: nat, received: nat, accounted: nat): nat
    requires n > 0 && accounted <= received
  {
    var wrapped := received / n != accounted / n;
    match kind
    case Idle => if received - accounted == n then 0 else received - accounted
    case Half => if wrapped then 0 else received - accounted
    case Complete => if wrapped then received - accounted else if received == accounted then n else 0
  }

  /** Whether a handler reports anything, by the positions in the buffer where the DMA
      stands and where it stood at the last report. */
  predicate Reports(kind: Kind, here: nat, there: nat) {
    match kind
    case Idle => here != there
    case Half => here > there
    case Complete => here <= there
  }

  /** The driver's cursor movement says that, as long as at most a buffer is new; and
      however much is new, a report is right but for whole buffers. */
  lemma LengthIsMeant(kind: Kind, n: nat, received: nat, accounted: nat)
    requires n > 0 && accounted <= received
    ensures var len := V2Length(kind, n, Counter(n, accounted), Counter(n, received));
      && len <= n
      && (received <= accounted + n ==> len == Meant(kind, n, received, accounted))
      && (len != 0 <==> Reports(kind, received % n, accounted % n))
      && (len != 0 || kind == Idle ==> len % n == (received - accounted) % n)
  {
    var len := V2Length(kind, n, Counter(n, accounted), Counter(n, received));
    if received <= accounted + n {
      PositionMoves(n, accounted, received);
    }
    var m := received / n - accounted / n;
    assert received - accounted == m * n + (received % n - accounted % n);
    if len != 0 || kind == Idle {
      SameRemainder(received - accounted, m, n, received % n - accounted % n, len);
    }
  }

  /** x and `len` are both `moved` but for whole laps. */
  lemma SameRemainder(x: nat, m: int, n: nat, moved: int, len: nat)
    requires n > 0 && x == m * n + moved && 0 < moved + n && moved < n && (len == moved || len == moved + n)
    ensures len % n == x % n
  {
    var r := if moved < 0 then moved + n else moved;
    var q := if moved < 0 then m - 1 else m;
    QuotientIs(x, n, q, r);
    QuotientIs(len, n, if len == r then 0 else 1, r);
  }

  datatype Event = Byte | Service(kind: Kind)

  datatype State = State(received: nat, accounted: nat, remaining: nat, reports: seq<nat>)

  function Init(n: nat): State {
    State(0, 0, n, [])
  }

  function Step(n: nat, s: State, e: Event): State
    requires n > 0
  {
    match e
    case Byte => s.(received := s.received + 1)
    case Service(kind) =>
      var counter := Counter(n, s.received);
      var len := V2Length(kind, n, s.remaining, counter);
      if len == 0 then s
      else s.(remaining := counter, accounted := s.received, reports := s.reports + [len])
  }

  class DmaRxV2 {
    const bufsz: nat
    var remaining_cnt: nat
    ghost var received: nat
    ghost var accounted: nat
    ghost var reports: seq<nat>

    constructor (bufsz: nat)
      requires bufsz > 0
      ensures Valid() && this.bufsz == bufsz && Snapshot() == Init(bufsz)
    {
      this.bufsz := bufsz;
      remaining_cnt := bufsz;
      received, accounted, reports := 0, 0, [];
    }

    /** The cursor is what the counter showed at the last report. */
    ghost predicate Valid()
      reads this
    {
      bufsz > 0 && accounted <= received && remaining_cnt == Counter(bufsz, accounted)
    }

    ghost function Snapshot(): State
      reads this
    {
      State(received, accounted, remaining_cnt, reports)
    }

    /** The DMA stores a byte. */
    method StoreByte()
      requires Valid()
      modifies this`received
      ensures Valid() && Snapshot() == Step(bufsz, old(Snapshot()), Byte)
    {
      received := received + 1;
    }

    /** dma_recv_isr; returns the length reported, 0 for no report.  The caller learns
        what `Meant` says if no byte was overwritten, and is told the right number but
        for whole buffers if some were. */
    method DmaRecvIsr(kind: Kind, counter: nat) returns (recv_len: nat)
      requires Valid() && counter == Counter(bufsz, received)
      modifies this`remaining_cnt, this`accounted, this`reports
      ensures Valid() && Snapshot() == Step(bufsz, old(Snapshot()), Service(kind))
      ensures accounted == if recv_len != 0 then received else old(accounted)
      ensures received <= old(accounted) + bufsz ==> recv_len == Meant(kind, bufsz, received, old(accounted))
      ensures recv_len <= bufsz
      ensures recv_len != 0 <==> Reports(kind, received % bufsz, old(accounted) % bufsz)
      ensures recv_len != 0 || kind == Idle ==> recv_len % bufsz == (received - old(accounted)) % bufsz
    {
      LengthIsMeant(kind, bufsz, received, accounted);
      hide Counter, Meant;
      recv_len := 0;
      match kind {
        case Idle =>
          if counter <= remaining_cnt {
            recv_len := remaining_cnt - counter;
          } else {
            recv_len := bufsz + remaining_cnt - counter;
          }
        case Half =>
          if counter < remaining_cnt {
            recv_len := remaining_cnt - counter;
          }
        case Complete =>
          if counter >= remaining_cnt {
            recv_len := bufsz + remaining_cnt - counter;
          }
      }
      if recv_len != 0 {
        remaining_cnt := counter;
        accounted, reports := received, reports + [recv_len];
      }
    }
  }

  function Run(n: nat, s: State, es: seq<Event>): State
    requires n > 0
    decreases |es|
  {
    if es == [] then s else Run(n, Step(n, s, es[0]), es[1..])
  }

  /** No byte arrives while a whole buffer is unreported. */
  predicate NoOverrun(n: nat, s: State, es: seq<Event>)
    requires n > 0
    decreases |es|
  {
    es == [] || ((es[0] == Byte ==> s.received < s.accounted + n) && NoOverrun(n, Step(n, s, es[0]), es[1..]))
  }

  /** A transfer-complete interrupt served when everything is already reported. */
  predicate IsSpurious(s: State, e: Event) {
    e == Service(Complete) && s.accounted == s.received
  }

  /** The bytes those interrupts report: a full buffer each. */
  function SpuriousBytes(n: nat, s: State, es: seq<Event>): nat
    requires n > 0
    decreases |es|
  {
    if es == [] then 0
    else (if IsSpurious(s, es[0]) then n else 0) + SpuriousBytes(n, Step(n, s, es[0]), es[1..])
  }

  predicate NeverSpurious(n: nat, s: State, es: seq<Event>)
    requires n > 0
    decreases |es|
  {
    es == [] || (!IsSpurious(s, es[0]) && NeverSpurious(n, Step(n, s, es[0]), es[1..]))
  }

  lemma {:induction false} NoSpuriousBytesIff(n: nat, s: State, es: seq<Event>)
    requires n > 0
    ensures SpuriousBytes(n, s, es) == 0 <==> NeverSpurious(n, s, es)
    decreases |es|
  {
    if es != [] {
      NoSpuriousBytesIff(n, Step(n, s, es[0]), es[1..]);
    }
  }

  ghost predicate InStep(n: nat, s: State)
    requires n > 0
  {
    s.accounted <= s.received <= s.accounted + n && s.remaining == Counter(n, s.accounted)
  }

  /** In the step machine as well: each handler reports what is meant. */
  lemma ReportedLength(n: nat, s: State, kind: Kind)
    requires n > 0 && InStep(n, s)
    ensures V2Length(kind, n, s.remaining, Counter(n, s.received)) == Meant(kind, n, s.received, s.accounted)
  {
    LengthIsMeant(kind, n, s.received, s.accounted);
  }

  lemma StepKeepsAccount(n: nat, s: State, e: Event)
    requires n > 0 && InStep(n, s) && (e == Byte ==> s.received < s.accounted + n)
    ensures var s' := Step(n, s, e);
      && InStep(n, s')
      && Sum(s'.reports) - s'.accounted == Sum(s.reports) - s.accounted + (if IsSpurious(s, e) then n else 0)
  {
    hide V2Length, Sum, Counter;
    if e.Service? {
      ReportedLength(n, s, e.kind);
      SumAppends(s.reports, V2Length(e.kind, n, s.remaining, Counter(n, s.received)));
    }
  }

  /** The account of a whole run: reports and unreported bytes add up to the bytes
      received plus one full buffer for every spurious transfer-complete. */
  lemma {:induction false} AccountOfRun(n: nat, s: State, es: seq<Event>)
    requires n > 0 && InStep(n, s) && NoOverrun(n, s, es)
    ensures var s' := Run(n, s, es);
      && InStep(n, s')
      && Sum(s'.reports) - s'.accounted == Sum(s.reports) - s.accounted + SpuriousBytes(n, s, es)
    decreases |es|
  {
    if es != [] {
      StepKeepsAccount(n, s, es[0]);
      AccountOfRun(n, Step(n, s, es[0]), es[1..]);
    }
  }

  /** Nothing is lost or invented exactly when no transfer-complete is served with
      everything already reported. */
  lemma ConservedIff(n: nat, es: seq<Event>)
    requires n > 0 && NoOverrun(n, Init(n), es)
    ensures var s := Run(n, Init(n), es);
      && Sum(s.reports) + (s.received - s.accounted) == s.received + SpuriousBytes(n, Init(n), es)
      && (Sum(s.reports) + (s.received - s.accounted) == s.received <==> NeverSpurious(n, Init(n), es))
  {
    AccountOfRun(n, Init(n), es);
    NoSpuriousBytesIff(n, Init(n), es);
  }

  /** The interrupt order the priorities aim at: transfer-complete becomes pending at
      the wrap and is served before any IDLE; half-transfer may come at any time. */
  predicate CompleteFirst(n: nat, s: State, pending: bool, es: seq<Event>)
    requires n > 0
    decreases |es|
  {
    es == [] ||
    var s' := Step(n, s, es[0]);
    match es[0]
    case Byte => CompleteFirst(n, s', pending || s'.received % n == 0, es[1..])
    case Service(Idle) => !pending && CompleteFirst(n, s', pending, es[1..])
    case Service(Half) => CompleteFirst(n, s', pending, es[1..])
    case Service(Complete) => pending && CompleteFirst(n, s', false, es[1..])
  }

  lemma {:induction false} CompleteFirstIsNeverSpurious(n: nat, s: State, pending: bool, es: seq<Event>)
    requires n > 0 && InStep(n, s) && NoOverrun(n, s, es) && CompleteFirst(n, s, pending, es)
    requires pending <==> s.received / n != s.accounted / n
    ensures NeverSpurious(n, s, es)
    decreases |es|
  {
    if es != [] {
      var s' := Step(n, s, es[0]);
      StepKeepsAccount(n, s, es[0]);
      PositionMoves(n, s.accounted, s.received);
      match es[0] {
        case Byte =>
          NextPosition(n, s.received);
          PositionMoves(n, s.accounted, s'.received);
          CompleteFirstIsNeverSpurious(n, s', pending || s'.received % n == 0, es[1..]);
        case Service(kind) =>
          ReportedLength(n, s, kind);
          CompleteFirstIsNeverSpurious(n, s', pending && kind != Complete, es[1..]);
      }
    }
  }

  /** In that order every byte is reported exactly once. */
  lemma EveryByteReportedOnce(n: nat, es: seq<Event>)
    requires n > 0 && NoOverrun(n, Init(n), es) && CompleteFirst(n, Init(n), false, es)
    ensures var s := Run(n, Init(n), es);
      Sum(s.reports) + (s.received - s.accounted) == s.received && s.received - s.accounted <= n
  {
    CompleteFirstIsNeverSpurious(n, Init(n), false, es);
    NoSpuriousBytesIff(n, Init(n), es);
    AccountOfRun(n, Init(n), es);
  }

  /** The order is not enforced: an IDLE handler that reads the counter just after a
      wrap reports the bytes correctly, and the transfer-complete handler that was
      pending meanwhile reports a full buffer on top. */
  lemma IdleAfterWrapMakesCompleteSpurious(n: nat, s: State)
    requires n > 0 && InStep(n, s)
    requires s.received / n != s.accounted / n && s.received < s.accounted + n
    ensures var s' := Run(n, s, [Service(Idle), Service(Complete)]);
      s'.reports == s.reports + [s.received - s.accounted, n]
  {
    var es := [Service(Idle), Service(Complete)];
    assert es[1..] == [Service(Complete)] && es[1..][1..] == [];
    ReportedLength(n, s, Idle);
    var s1 := Step(n, s, Service(Idle));
    StepKeepsAccount(n, s, Service(Idle));
    ReportedLength(n, s1, Complete);
    assert Run(n, s, es) == Run(n, s1, es[1..]) == Run(n, Step(n, s1, Service(Complete)), []);
  }

  /** The state before it is within reach, with a buffer of 4: after 3 bytes, an IDLE
      and 2 bytes more, the two handlers make it 9 bytes reported for 5 received. */
  lemma SpuriousBufferExample()
    ensures var s := Step(4, Step(4, Run(4, Init(4), [Byte, Byte, Byte]), Service(Idle)), Byte);
            var s' := Run(4, Step(4, s, Byte), [Service(Idle), Service(Complete)]);
      s'.received == 5 && s'.reports == [3, 2, 4]
  {
    var es := [Byte, Byte, Byte];
    assert es[1..] == [Byte, Byte] && [Byte, Byte][1..] == [Byte] && [Byte][1..] == [];
    assert Run(4, Init(4), es) == Run(4, State(1, 0, 4, []), [Byte, Byte]) == Run(4, State(2, 0, 4, []), [Byte])
        == Run(4, State(3, 0, 4, []), []);
    var s := State(5, 3, 1, [3]);
    assert Step(4, State(3, 0, 4, []), Service(Idle)) == State(3, 3, 1, [3]);
    IdleAfterWrapMakesCompleteSpurious(4, s);
    var last := [Service(Idle), Service(Complete)];
    assert last[1..] == [Service(Complete)] && last[1..][1..] == [];
    assert Run(4, s, last) == Run(4, Step(4, s, Service(Idle)), last[1..])
        == Run(4, Step(4, Step(4, s, Service(Idle)), Service(Complete)), []);
  }

  // ------------------------------------------------------------- driver V1

  /** recv_len in the IDLE branch of uart_isr, an unsigned difference. */
  function V1IdleLength(n: nat, last: nat, counter: nat): nat
    requires counter <= n
  {
    (n - counter - last) % U32
  }

  /** recv_len in dma_isr, for half-transfer and transfer-complete alike. */
  function V1DmaLength(n: nat, last: nat, counter: nat): nat
    requires counter <= n
  {
    if n - counter == 0 then (n - last) % U32 else (n - counter - last) % U32
  }

  class DmaRxV1 {
    const bufsz: nat
    var last_index: nat
    ghost var received: nat
    ghost var accounted: nat

    constructor (bufsz: nat)
      requires 0 < bufsz < U32
      ensures Valid() && this.bufsz == bufsz && received == accounted == 0
    {
      this.bufsz := bufsz;
      last_index := 0;
      received, accounted := 0, 0;
    }

    /** The cursor is the position in the buffer at the last interrupt. */
    ghost predicate Valid()
      reads this
    {
      0 < bufsz < U32 && accounted <= received && last_index == accounted % bufsz
    }

    /** The IDLE branch of uart_isr: with at most a buffer of new bytes it reports them
        exactly when the end of the buffer has not been passed since. */
    method UartIsrIdle(counter: nat) returns (recv_len: nat)
      requires Valid() && counter == Counter(bufsz, received)
      modifies this`last_index, this`accounted
      ensures Valid() && accounted == received
      ensures received <= old(accounted) + bufsz ==>
        (recv_len == received - old(accounted) <==> received / bufsz == old(accounted) / bufsz)
      ensures recv_len == (received % bufsz - old(accounted) % bufsz) % U32
      ensures recv_len == V1IdleLength(bufsz, old(last_index), counter)
    {
      IdleRightIff(bufsz, received, accounted);
      var recv_total_index := bufsz - counter;
      recv_len := (recv_total_index - last_index) % U32;
      last_index := recv_total_index;
      accounted := received;
    }

    /** dma_isr: with at most a buffer of new bytes it reports them exactly when the end
        of the buffer has been passed since if and only if the DMA stands there now. */
    method DmaIsr(counter: nat) returns (recv_len: nat)
      requires Valid() && counter == Counter(bufsz, received)
      modifies this`last_index, this`accounted
      ensures Valid() && accounted == received
      ensures received <= old(accounted) + bufsz ==>
        (recv_len == received - old(accounted)
         <==> (received / bufsz != old(accounted) / bufsz <==> received % bufsz == 0))
      ensures recv_len ==
        ((if received % bufsz == 0 then bufsz else received % bufsz) - old(accounted) % bufsz) % U32
      ensures recv_len == V1DmaLength(bufsz, old(last_index), counter)
    {
      DmaRightIff(bufsz, received, accounted);
      var recv_total_index := bufsz - counter;
      if recv_total_index == 0 {
        recv_len := (bufsz - last_index) % U32;
      } else {
        recv_len := (recv_total_index - last_index) % U32;
      }
      last_index := recv_total_index;
      accounted := received;
    }
  }

  lemma IdleRightIff(n: nat, received: nat, accounted: nat)
    requires 0 < n < U32 && accounted <= received
    ensures received <= accounted + n ==>
      (V1IdleLength(n, accounted % n, Counter(n, received)) == received - accounted
       <==> received / n == accounted / n)
  {
    if received <= accounted + n {
      PositionMoves(n, accounted, received);
    }
  }

  lemma DmaRightIff(n: nat, received: nat, accounted: nat)
    requires 0 < n < U32 && accounted <= received
    ensures received <= accounted + n ==>
      (V1DmaLength(n, accounted % n, Counter(n, received)) == received - accounted
       <==> (received / n != accounted / n <==> received % n == 0))
  {
    if received <= accounted + n {
      PositionMoves(n, accounted, received);
    }
  }

  /** Both drivers on the same line. */
  datatype Both = Both(v2: State, last: nat, reports1: seq<nat>)

  /** Transfer-complete is served exactly at the wrap. */
  datatype Input = Arrive | IdleIrq | HalfIrq

  function Report(reports: seq<nat>, len: nat): seq<nat> {
    if len == 0 then reports else reports + [len]
  }

  function StepBoth(n: nat, b: Both, i: Input): Both
    requires n > 0
  {
    match i
    case Arrive =>
      var s := Step(n, b.v2, Byte);
      if s.received % n != 0 then b.(v2 := s)
      else Both(Step(n, s, Service(Complete)), 0, Report(b.reports1, V1DmaLength(n, b.last, n)))
    case IdleIrq =>
      var c := Counter(n, b.v2.received);
      Both(Step(n, b.v2, Service(Idle)), n - c, Report(b.reports1, V1IdleLength(n, b.last, c)))
    case HalfIrq =>
      var c := Counter(n, b.v2.received);
      Both(Step(n, b.v2, Service(Half)), n - c, Report(b.reports1, V1DmaLength(n, b.last, c)))
  }

  function RunBoth(n: nat, b: Both, is_: seq<Input>): Both
    requires n > 0
    decreases |is_|
  {
    if is_ == [] then b else RunBoth(n, StepBoth(n, b, is_[0]), is_[1..])
  }

  /** A half-transfer interrupt served while the counter stands at its reload value. */
  predicate IsLateHalf(n: nat, b: Both, i: Input)
    requires n > 0
  {
    i == HalfIrq && b.v2.received % n == 0
  }

  predicate NoLateHalf(n: nat, b: Both, is_: seq<Input>)
    requires n > 0
    decreases |is_|
  {
    is_ == [] || (!IsLateHalf(n, b, is_[0]) && NoLateHalf(n, StepBoth(n, b, is_[0]), is_[1..]))
  }

  ghost predicate SameCursor(n: nat, b: Both)
    requires n > 0
  {
    && InStep(n, b.v2)
    && b.v2.received / n == b.v2.accounted / n
    && b.last == b.v2.accounted % n
  }

  lemma Unsigned(x: nat)
    requires x < U32
    ensures x % U32 == x
  {
  }

  lemma ArriveAgrees(n: nat, b: Both)
    requires 0 < n < U32 && SameCursor(n, b)
    ensures var b' := StepBoth(n, b, Arrive);
      && SameCursor(n, b')
      && exists len: nat :: b'.reports1 == Report(b.reports1, len) && b'.v2.reports == Report(b.v2.reports, len)
  {
    var s := b.v2;
    PositionMoves(n, s.accounted, s.received);
    NextPosition(n, s.received);
    PositionMoves(n, s.accounted, s.received + 1);
    var s1 := Step(n, s, Byte);
    var b' := StepBoth(n, b, Arrive);
    if s1.received % n == 0 {
      var len := V1DmaLength(n, b.last, n);
      ReportedLength(n, s1, Complete);
      assert len == s1.received - s.accounted == V2Length(Complete, n, s.remaining, n);
      assert b'.reports1 == Report(b.reports1, len) && b'.v2.reports == Report(b.v2.reports, len);
    } else {
      assert b'.reports1 == Report(b.reports1, 0) && b'.v2.reports == Report(b.v2.reports, 0);
    }
  }

  lemma IdleAgrees(n: nat, b: Both)
    requires 0 < n < U32 && SameCursor(n, b)
    ensures var b' := StepBoth(n, b, IdleIrq);
      && SameCursor(n, b')
      && exists len: nat :: b'.reports1 == Report(b.reports1, len) && b'.v2.reports == Report(b.v2.reports, len)
  {
    var s := b.v2;
    PositionMoves(n, s.accounted, s.received);
    var len := s.received - s.accounted;
    ReportedLength(n, s, Idle);
    assert V1IdleLength(n, b.last, Counter(n, s.received)) == len by { Unsigned(len); }
    var b' := StepBoth(n, b, IdleIrq);
    assert b'.reports1 == Report(b.reports1, len) && b'.v2.reports == Report(b.v2.reports, len);
  }

  lemma HalfAgrees(n: nat, b: Both)
    requires 0 < n < U32 && SameCursor(n, b)
    ensures var b' := StepBoth(n, b, HalfIrq);
      && SameCursor(n, b')
      && (if IsLateHalf(n, b, HalfIrq) then b'.reports1 == b.reports1 + [n] && b'.v2.reports == b.v2.reports
          else exists len: nat :: b'.reports1 == Report(b.reports1, len) && b'.v2.reports == Report(b.v2.reports, len))
  {
    var s := b.v2;
    PositionMoves(n, s.accounted, s.received);
    var len := s.received - s.accounted;
    ReportedLength(n, s, Half);
    var b' := StepBoth(n, b, HalfIrq);
    if IsLateHalf(n, b, HalfIrq) {
      assert len == 0 && V1DmaLength(n, b.last, n) == n by { Unsigned(n); }
    } else {
      assert V1DmaLength(n, b.last, Counter(n, s.received)) == len by { Unsigned(len); }
      assert b'.reports1 == Report(b.reports1, len) && b'.v2.reports == Report(b.v2.reports, len);
    }
  }

  /** Both drivers report the same, except that V1 makes a late half-transfer a full
      buffer of its own. */
  lemma StepBothAgrees(n: nat, b: Both, i: Input)
    requires 0 < n < U32 && SameCursor(n, b)
    ensures var b' := StepBoth(n, b, i);
      && SameCursor(n, b')
      && |b'.reports1| - |b'.v2.reports| == |b.reports1| - |b.v2.reports| + (if IsLateHalf(n, b, i) then 1 else 0)
      && (b.reports1 == b.v2.reports && !IsLateHalf(n, b, i) ==> b'.reports1 == b'.v2.reports)
  {
    match i {
      case Arrive => ArriveAgrees(n, b);
      case IdleIrq => IdleAgrees(n, b);
      case HalfIrq => HalfAgrees(n, b);
    }
  }

  lemma {:induction false} RunBothAgrees(n: nat, b: Both, is_: seq<Input>)
    requires 0 < n < U32 && SameCursor(n, b) && |b.reports1| >= |b.v2.reports|
    ensures var b' := RunBoth(n, b, is_);
      && SameCursor(n, b')
      && |b'.reports1| - |b'.v2.reports| >= |b.reports1| - |b.v2.reports|
      && (b.reports1 == b.v2.reports ==> (b'.reports1 == b'.v2.reports <==> NoLateHalf(n, b, is_)))
    decreases |is_|
  {
    if is_ != [] {
      StepBothAgrees(n, b, is_[0]);
      RunBothAgrees(n, StepBoth(n, b, is_[0]), is_[1..]);
    }
  }

  /** On lines where transfer-complete is served at the wrap the two cursors mirror
      each other, and the drivers report the same lengths exactly when no
      half-transfer interrupt is served as late as the wrap. */
  lemma SameReportsIff(n: nat, is_: seq<Input>)
    requires 0 < n < U32
    ensures var b := RunBoth(n, Both(Init(n), 0, []), is_);
      && b.last == n - b.v2.remaining
      && (b.reports1 == b.v2.reports <==> NoLateHalf(n, Both(Init(n), 0, []), is_))
  {
    RunBothAgrees(n, Both(Init(n), 0, []), is_);
  }
}
