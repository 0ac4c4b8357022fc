/**
 External pin interrupts: a table with one handler slot for each of the 16 pin
 numbers (shared by all ports), a mask of enabled pins and the NVIC lines that
 groups of pins share (0 to 4 one line each, 5-9 together, 10-15 together).
 The mask is represented by the set of its one bits.
 */
module PinIrq {
  const RT_EOK := 0
  const RT_ENOSYS := 6
  const RT_EBUSY := 7

  const PIN_IRQ_DISABLE := 0
  const PIN_IRQ_ENABLE := 1

  const PIN_STPORT_MAX := 9 // ports A to I
  const RT_NULL := 0

  /** PIN_PORT and PIN_NO: bits 4-7 and 0-3, for negative values as well. */
  function PinPort(pin: int): nat {
    (pin / 16) % 16
  }

  function PinNo(pin: int): (k: nat)
    ensures k < 16
  {
    pin % 16
  }

  function ToInt16(x: int): (r: int)
    ensures -0x8000 <= r < 0x8000 && (r - x) % 0x1_0000 == 0
  {
    if x % 0x1_0000 < 0x8000 then x % 0x1_0000 else x % 0x1_0000 - 0x1_0000
  }

  /** A table entry; its pin field has 16 bits and its mode field as well. */
  datatype Slot = Slot(pin: int, mode: nat, hdr: int, args: int)

  const FREE := Slot(-1, 0, RT_NULL, RT_NULL)

  datatype State = State(tab: seq<Slot>, pins: set<nat>, lines: set<nat>)

  const BOOT := State(seq(16, _ => FREE), {}, {})

  /** irqno of pin_irq_map[k]. */
  function Line(k: nat): nat {
    if k < 5 then k else if k < 10 then 5 else 6
  }

  // ----------------------------------------------------------- operations

  datatype Op =
    | Attach(pin: int, mode: nat, hdr: int, args: int)
    | Detach(pin: int)
    | IrqEnable(pin: int, enabled: nat)

  function DoAttach(s: State, pin: int, mode: nat, hdr: int, args: int): (State, int)
    requires |s.tab| == 16
  {
    if PinPort(pin) >= PIN_STPORT_MAX then (s, -RT_ENOSYS)
    else
      var k := PinNo(pin);
      if s.tab[k] == Slot(pin, mode, hdr, args) then (s, RT_EOK)
      else if s.tab[k].pin != -1 then (s, RT_EBUSY)
      else (s.(tab := s.tab[k := Slot(ToInt16(pin), mode % 0x1_0000, hdr, args)]), RT_EOK)
  }

  function DoDetach(s: State, pin: int): (State, int)
    requires |s.tab| == 16
  {
    if PinPort(pin) >= PIN_STPORT_MAX then (s, -RT_ENOSYS)
    else if s.tab[PinNo(pin)].pin == -1 then (s, RT_EOK)
    else (s.(tab := s.tab[PinNo(pin) := FREE]), RT_EOK)
  }

  /** Whether disabling pin k, already taken out of pins, disables its line. */
  predicate ReleasesLine(pins: set<nat>, k: nat) {
    if 5 <= k <= 9 then pins * {5, 6, 7, 8, 9} == {}
    else if 10 <= k <= 15 then pins * {10, 11, 12, 13, 14, 15} == {}
    else true
  }

  function DoIrqEnable(s: State, pin: int, enabled: nat): (State, int)
    requires |s.tab| == 16
  {
    var k := PinNo(pin);
    if PinPort(pin) >= PIN_STPORT_MAX then (s, -RT_ENOSYS)
    else if enabled == PIN_IRQ_ENABLE then
      if s.tab[k].pin == -1 then (s, RT_ENOSYS)
      else (s.(pins := s.pins + {k}, lines := s.lines + {Line(k)}), RT_EOK)
    else if enabled == PIN_IRQ_DISABLE then
      var pins := s.pins - {k};
      (s.(pins := pins, lines := if ReleasesLine(pins, k) then s.lines - {Line(k)} else s.lines), RT_EOK)
    else (s, -RT_ENOSYS)
  }

  function Apply(s: State, op: Op): (State, int)
    requires |s.tab| == 16
  {
    match op
    case Attach(pin, mode, hdr, args) => DoAttach(s, pin, mode, hdr, args)
    case Detach(pin) => DoDetach(s, pin)
    case IrqEnable(pin, enabled) => DoIrqEnable(s, pin, enabled)
  }

  // ------------------------------------------------------------- invariant

  /** Slot k is free or holds a 16-bit pin of number k and a 16-bit mode. */
  ghost predicate ValidSlot(t: Slot, k: nat) {
    t == FREE || (t.pin != -1 && PinNo(t.pin) == k && -0x8000 <= t.pin < 0x8000 && t.mode < 0x1_0000)
  }

  /** Some enabled pin has this line. */
  ghost predicate LineWanted(pins: set<nat>, line: nat) {
    exists k :: k in pins && Line(k) == line
  }

  ghost predicate Valid(s: State) {
    && |s.tab| == 16
    && (forall k :: 0 <= k < 16 ==> ValidSlot(s.tab[k], k))
    && (forall k :: k in s.pins ==> k < 16)
    && (forall line :: line in s.lines <==> LineWanted(s.pins, line))
  }

  /** The group tests of the disable branch look at exactly the pins sharing the line. */
  lemma ReleasesLineIff(pins: set<nat>, k: nat)
    requires k < 16 && k !in pins && forall j :: j in pins ==> j < 16
    ensures ReleasesLine(pins, k) <==> !LineWanted(pins, Line(k))
  {
    if k >= 5 {
      var group := if k < 10 then {5, 6, 7, 8, 9} else {10, 11, 12, 13, 14, 15};
      forall j | j in pins
        ensures Line(j) == Line(k) <==> j in group
      {
      }
      if pins * group == {} {
        forall j | j in pins
          ensures j !in group
        {
          assert j !in pins * group;
        }
      }
    }
  }

  /** An accepted pin keeps its number when it is cut to 16 bits and never becomes the
      mark of a free slot. */
  lemma StoredPin(pin: int)
    ensures PinNo(ToInt16(pin)) == PinNo(pin)
    ensures PinPort(pin) < PIN_STPORT_MAX ==> ToInt16(pin) != -1
  {
    var r := pin % 0x1_0000;
    LowBits(pin, pin / 0x1_0000, r);
    if r < 0x8000 { LowBits(r, 0, r); } else { LowBits(r - 0x1_0000, -1, r); }
  }

  lemma LowBits(x: int, q: int, r: nat)
    requires x == 0x1_0000 * q + r && r < 0x1_0000
    ensures PinNo(x) == r % 16 && PinPort(x) == r / 16 % 16
  {
    assert x == 16 * (0x1000 * q + r / 16) + r % 16;
    assert x / 16 == 16 * (0x100 * q) + r / 16;
  }

  lemma EnableKeepsLines(s: State, k: nat)
    requires Valid(s) && k < 16
    ensures forall line :: line in s.lines + {Line(k)} <==> LineWanted(s.pins + {k}, line)
  {
    forall line
      ensures line in s.lines + {Line(k)} <==> LineWanted(s.pins + {k}, line)
    {
      assert k in s.pins + {k};
      if line in s.lines {
        var j :| j in s.pins && Line(j) == line;
        assert j in s.pins + {k};
      }
    }
  }

  lemma DisableKeepsLines(s: State, k: nat)
    requires Valid(s) && k < 16
    ensures var pins := s.pins - {k};
      forall line ::
        line in (if ReleasesLine(pins, k) then s.lines - {Line(k)} else s.lines) <==> LineWanted(pins, line)
  {
    var pins := s.pins - {k};
    ReleasesLineIff(pins, k);
    forall line
      ensures line in (if ReleasesLine(pins, k) then s.lines - {Line(k)} else s.lines) <==> LineWanted(pins, line)
    {
      if line in s.lines && line != Line(k) {
        var j :| j in s.pins && Line(j) == line;
        assert j in pins;
      }
    }
  }

  lemma ApplyKeepsValid(s: State, op: Op)
    requires Valid(s)
    ensures Valid(Apply(s, op).0)
  {
    match op
    case Attach(pin, mode, hdr, args) => StoredPin(pin);
    case Detach(pin) =>
    case IrqEnable(pin, enabled) =>
      EnableKeepsLines(s, PinNo(pin));
      DisableKeepsLines(s, PinNo(pin));
  }

  function Run(s: State, ops: seq<Op>): (s': State)
    requires |s.tab| == 16
    ensures |s'.tab| == 16
    decreases |ops|
  {
    if ops == [] then s else Run(Apply(s, ops[0]).0, ops[1..])
  }

  lemma {:induction false} RunKeepsValid(s: State, ops: seq<Op>)
    requires Valid(s)
    ensures Valid(Run(s, ops))
    decreases |ops|
  {
    if ops != [] {
      ApplyKeepsValid(s, ops[0]);
      RunKeepsValid(Apply(s, ops[0]).0, ops[1..]);
    }
  }

  /** After any calls whatever: lines 0 to 4 are enabled exactly when their own pin is,
      lines 5 and 6 exactly when one of the pins 5-9 or 10-15 is, there are no others,
      and every slot is free or holds a pin of its own number. */
  lemma LinesFollowPins(ops: seq<Op>)
    ensures var s := Run(BOOT, ops);
      && (forall line :: 0 <= line < 5 ==> (line in s.lines <==> line in s.pins))
      && (5 in s.lines <==> exists k :: k in s.pins && 5 <= k <= 9)
      && (6 in s.lines <==> exists k :: k in s.pins && 10 <= k <= 15)
      && (forall line :: line in s.lines ==> line <= 6)
      && (forall k :: 0 <= k < 16 ==> ValidSlot(s.tab[k], k))
  {
    RunKeepsValid(BOOT, ops);
    var s := Run(BOOT, ops);
    assert forall line :: line in s.lines <==> LineWanted(s.pins, line);
    forall k | k in s.pins
      ensures LineWanted(s.pins, Line(k)) && k < 16
    {
    }
  }

  /** A slot in use keeps its pin, handler, arguments and mode through any calls that
      do not detach a pin of that number. */
  lemma {:induction false} HandlerStays(s: State, ops: seq<Op>, k: nat)
    requires Valid(s) && k < 16 && s.tab[k] != FREE
    requires forall n :: 0 <= n < |ops| ==> !(ops[n].Detach? && PinNo(ops[n].pin) == k)
    ensures Run(s, ops).tab[k] == s.tab[k]
    decreases |ops|
  {
    if ops != [] {
      ApplyKeepsValid(s, ops[0]);
      assert ValidSlot(s.tab[k], k);
      HandlerStays(Apply(s, ops[0]).0, ops[1..], k);
    }
  }

  /** Attaching succeeds exactly when the port exists and the slot is free or already
      holds the very same registration; it fills that slot and touches nothing else, and
      a refused one nothing at all. */
  lemma AttachSucceedsIff(s: State, pin: int, mode: nat, hdr: int, args: int)
    requires Valid(s)
    ensures var (s', r) := DoAttach(s, pin, mode, hdr, args);
            var k := pin % 16;
      && (r == RT_EOK <==> pin / 16 % 16 < 9 && (s.tab[k] == FREE || s.tab[k] == Slot(pin, mode, hdr, args)))
      && (r != RT_EOK ==> s' == s && r == if pin / 16 % 16 >= 9 then -RT_ENOSYS else RT_EBUSY)
      && (r == RT_EOK ==> s' == s.(tab := s.tab[k := Slot(ToInt16(pin), mode % 0x1_0000, hdr, args)]))
  {
    assert ValidSlot(s.tab[PinNo(pin)], PinNo(pin));
  }

  /** Detaching succeeds exactly when the port exists; it frees that slot and touches
      nothing else. */
  lemma DetachFreesSlot(s: State, pin: int)
    requires Valid(s)
    ensures var (s', r) := DoDetach(s, pin);
      if pin / 16 % 16 < 9 then r == RT_EOK && s' == s.(tab := s.tab[pin % 16 := FREE])
      else r == -RT_ENOSYS && s' == s
  {
    assert ValidSlot(s.tab[PinNo(pin)], PinNo(pin));
  }

  /** Enabling succeeds exactly when the port exists and the slot is in use, disabling
      whenever the port exists; after that the mask has the pin's number or not, and the
      other numbers, and the table, as before.  A refused call changes nothing. */
  lemma IrqEnableResult(s: State, pin: int, enabled: nat)
    requires Valid(s)
    ensures var (s', r) := DoIrqEnable(s, pin, enabled);
            var k := pin % 16;
      && (r == RT_EOK <==> pin / 16 % 16 < 9 && ((enabled == 1 && s.tab[k] != FREE) || enabled == 0))
      && (r != RT_EOK ==>
            s' == s && r == if pin / 16 % 16 < 9 && enabled == 1 then RT_ENOSYS else -RT_ENOSYS)
      && (r == RT_EOK ==>
            && s'.tab == s.tab
            && (k in s'.pins <==> enabled == 1)
            && forall j :: j != k ==> (j in s'.pins <==> j in s.pins))
  {
    assert ValidSlot(s.tab[PinNo(pin)], PinNo(pin));
  }

  /** Detaching a pin that is still enabled leaves its line enabled without a handler. */
  lemma DetachLeavesLineEnabled(s: State, pin: int)
    requires Valid(s) && PinPort(pin) < PIN_STPORT_MAX && PinNo(pin) in s.pins
    ensures var s' := DoDetach(s, pin).0;
      Line(PinNo(pin)) in s'.lines && PinNo(pin) in s'.pins && s'.tab[PinNo(pin)] == FREE
  {
    assert LineWanted(s.pins, Line(PinNo(pin)));
    assert ValidSlot(s.tab[PinNo(pin)], PinNo(pin));
  }

  /** Call n of a run successfully enables or disables pin number k. */
  ghost predicate Switches(s: State, ops: seq<Op>, n: nat, k: nat)
    requires |s.tab| == 16 && n < |ops|
  {
    && ops[n].IrqEnable? && ops[n].pin % 16 == k
    && Apply(Run(s, ops[..n]), ops[n]).1 == RT_EOK
  }

  /** The last call that switches number k enables it. */
  ghost predicate LastSwitchedOn(s: State, ops: seq<Op>, k: nat)
    requires |s.tab| == 16
  {
    exists n :: 0 <= n < |ops| && Switches(s, ops, n, k) && ops[n] == IrqEnable(ops[n].pin, 1)
      && (forall m :: n < m < |ops| ==> !Switches(s, ops, m, k))
  }

  lemma {:induction false} RunThen(s: State, ops: seq<Op>, op: Op)
    requires |s.tab| == 16
    ensures Run(s, ops + [op]) == Apply(Run(s, ops), op).0
    decreases |ops|
  {
    if ops == [] {
      assert ([] + [op])[1..] == [];
    } else {
      RunThen(Apply(s, ops[0]).0, ops[1..], op);
      assert (ops + [op])[1..] == ops[1..] + [op];
    }
  }

  lemma SwitchesEarlier(s: State, ops: seq<Op>, op: Op, n: nat, k: nat)
    requires |s.tab| == 16 && n < |ops|
    ensures Switches(s, ops + [op], n, k) <==> Switches(s, ops, n, k)
  {
    assert (ops + [op])[..n] == ops[..n];
  }

  /** One call more. */
  lemma LastSwitchedOnStep(s: State, ops: seq<Op>, op: Op, k: nat)
    requires |s.tab| == 16
    ensures LastSwitchedOn(s, ops + [op], k)
       <==> (if Switches(s, ops + [op], |ops|, k) then op == IrqEnable(op.pin, 1) else LastSwitchedOn(s, ops, k))
  {
    hide Switches;
    var all := ops + [op];
    forall n | 0 <= n < |ops|
      ensures Switches(s, all, n, k) <==> Switches(s, ops, n, k)
      ensures all[n] == ops[n]
    {
      SwitchesEarlier(s, ops, op, n, k);
    }
    assert all[|ops|] == op;
    if !Switches(s, all, |ops|, k) && LastSwitchedOn(s, ops, k) {
      var n :| 0 <= n < |ops| && Switches(s, ops, n, k) && ops[n] == IrqEnable(ops[n].pin, 1)
        && forall m :: n < m < |ops| ==> !Switches(s, ops, m, k);
      assert Switches(s, all, n, k);
    }
  }

  lemma {:induction false} MaskFollowsSwitches(s: State, ops: seq<Op>, k: nat)
    requires Valid(s) && k !in s.pins
    ensures k in Run(s, ops).pins <==> LastSwitchedOn(s, ops, k)
    decreases |ops|
  {
    if ops != [] {
      var before, op := ops[..|ops| - 1], ops[|ops| - 1];
      assert ops == before + [op] && ops[..|before|] == before;
      var s1 := Run(s, before);
      MaskFollowsSwitches(s, before, k);
      RunKeepsValid(s, before);
      RunThen(s, before, op);
      LastSwitchedOnStep(s, before, op, k);
      if op.IrqEnable? {
        IrqEnableResult(s1, op.pin, op.enabled);
      }
    }
  }

  /** Over any run, a pin number is enabled exactly when the last call that successfully
      enabled or disabled it enabled it. */
  lemma MaskIsLastSwitch(ops: seq<Op>, k: nat)
    ensures k in Run(BOOT, ops).pins <==> LastSwitchedOn(BOOT, ops, k)
  {
    MaskFollowsSwitches(BOOT, ops, k);
  }

  /** Every enabled pin has a slot in use. */
  ghost predicate Handled(s: State)
    requires |s.tab| == 16
  {
    forall k :: k in s.pins && k < 16 ==> s.tab[k] != FREE
  }

  /** At no moment of the calls is a pin enabled whose slot is free. */
  ghost predicate AlwaysHandled(s: State, ops: seq<Op>)
    requires |s.tab| == 16
    decreases |ops|
  {
    Handled(s) && (ops == [] || AlwaysHandled(Apply(s, ops[0]).0, ops[1..]))
  }

  /** The calls never detach a pin that is enabled at that moment. */
  predicate DisabledFirst(s: State, ops: seq<Op>)
    requires |s.tab| == 16
    decreases |ops|
  {
    ops == [] || (
      && (ops[0].Detach? && PinPort(ops[0].pin) < PIN_STPORT_MAX ==> PinNo(ops[0].pin) !in s.pins)
      && DisabledFirst(Apply(s, ops[0]).0, ops[1..]))
  }

  /** A call keeps every enabled pin's slot in use exactly when it is no such detach. */
  lemma CallKeepsHandledIff(s: State, op: Op)
    requires Valid(s) && Handled(s)
    ensures Handled(Apply(s, op).0)
       <==> !(op.Detach? && PinPort(op.pin) < PIN_STPORT_MAX && PinNo(op.pin) in s.pins)
  {
    assert forall k :: 0 <= k < 16 ==> ValidSlot(s.tab[k], k);
    if op.Detach? && PinPort(op.pin) < PIN_STPORT_MAX && PinNo(op.pin) in s.pins {
      DetachLeavesLineEnabled(s, op.pin);
    }
  }

  /** An interrupt is never left enabled without a slot in use exactly when every pin
      is disabled before it is detached. */
  lemma {:induction false} EnabledPinsAreHandledIff(s: State, ops: seq<Op>)
    requires Valid(s) && Handled(s)
    ensures AlwaysHandled(s, ops) <==> DisabledFirst(s, ops)
    decreases |ops|
  {
    if ops != [] {
      var s1 := Apply(s, ops[0]).0;
      ApplyKeepsValid(s, ops[0]);
      CallKeepsHandledIff(s, ops[0]);
      if Handled(s1) {
        EnabledPinsAreHandledIff(s1, ops[1..]);
      }
    }
  }

  // ------------------------------------------------------------ the driver

  /** 0x01 << i in bit2bitno, and 1u << PIN_NO(pin). */
  function Shl(i: nat): bv32
    requires i < 32
  {
    (1 as bv32) << i
  }

  lemma ShlInjective(i: nat, j: nat)
    requires i < 32 && j < 16 && Shl(i) == Shl(j)
    ensures i == j
  {
  }

  /** The comparisons of pinbit with GPIO_PIN_5, 9, 10 and 15. */
  lemma ShlRange(k: nat)
    requires k < 16
    ensures 0x0020 <= Shl(k) <= 0x0200 <==> 5 <= k < 10
    ensures 0x0400 <= Shl(k) <= 0x8000 <==> 10 <= k
  {
  }

  class PinDriver {
    const pin_irq_hdr_tab: array<Slot>
    var pin_irq_enable_mask: set<nat>
    var nvic: set<nat> // the enabled NVIC lines

    constructor ()
      ensures Valid() && Snapshot() == BOOT && fresh(pin_irq_hdr_tab)
    {
      pin_irq_hdr_tab := new Slot[16](_ => FREE);
      pin_irq_enable_mask := {};
      nvic := {};
    }

    ghost predicate Valid() {
      pin_irq_hdr_tab.Length == 16
    }

    ghost function Snapshot(): State
      reads this, pin_irq_hdr_tab
    {
      State(pin_irq_hdr_tab[..], pin_irq_enable_mask, nvic)
    }

    /** bit2bitno: the number of the only bit set, or -1. */
    static method Bit2BitNo(bit: bv32) returns (no: int)
      ensures no == -1 <==> forall j :: 0 <= j < 32 ==> Shl(j) != bit
      ensures no != -1 ==> 0 <= no < 32 && Shl(no) == bit
    {
      var i := 0;
      while i < 32
        invariant 0 <= i <= 32
        invariant forall j :: 0 <= j < i ==> Shl(j) != bit
      {
        if Shl(i) == bit {
          return i;
        }
        i := i + 1;
      }
      return -1;
    }

    /** PIN_STPIN and bit2bitno: the table index of a pin. */
    static method IrqIndex(pin: int) returns (irqindex: nat)
      ensures irqindex == PinNo(pin)
    {
      var no := Bit2BitNo(Shl(PinNo(pin)));
      ShlInjective(no, PinNo(pin));
      irqindex := no;
    }

    method AttachIrq(pin: int, mode: nat, hdr: int, args: int) returns (r: int)
      requires Valid()
      modifies pin_irq_hdr_tab
      ensures (Snapshot(), r) == DoAttach(old(Snapshot()), pin, mode, hdr, args)
    {
      if PinPort(pin) >= PIN_STPORT_MAX {
        return -RT_ENOSYS;
      }
      var irqindex := IrqIndex(pin);
      var slot := pin_irq_hdr_tab[irqindex];
      if slot.pin == pin && slot.hdr == hdr && slot.mode == mode && slot.args == args {
        return RT_EOK;
      }
      if slot.pin != -1 {
        return RT_EBUSY;
      }
      pin_irq_hdr_tab[irqindex] := Slot(ToInt16(pin), mode % 0x1_0000, hdr, args);
      return RT_EOK;
    }

    method DetachIrq(pin: int) returns (r: int)
      requires Valid()
      modifies pin_irq_hdr_tab
      ensures (Snapshot(), r) == DoDetach(old(Snapshot()), pin)
    {
      if PinPort(pin) >= PIN_STPORT_MAX {
        return -RT_ENOSYS;
      }
      var irqindex := IrqIndex(pin);
      if pin_irq_hdr_tab[irqindex].pin == -1 {
        return RT_EOK;
      }
      pin_irq_hdr_tab[irqindex] := FREE;
      return RT_EOK;
    }

    method EnableIrq(pin: int, enabled: nat) returns (r: int)
      requires Valid()
      modifies this
      ensures (Snapshot(), r) == DoIrqEnable(old(Snapshot()), pin, enabled)
    {
      if PinPort(pin) >= PIN_STPORT_MAX {
        return -RT_ENOSYS;
      }
      if enabled == PIN_IRQ_ENABLE {
        var irqindex := IrqIndex(pin);
        if pin_irq_hdr_tab[irqindex].pin == -1 {
          return RT_ENOSYS;
        }
        nvic := nvic + {Line(irqindex)};
        pin_irq_enable_mask := pin_irq_enable_mask + {irqindex};
      } else if enabled == PIN_IRQ_DISABLE {
        var irqindex := IrqIndex(pin);
        pin_irq_enable_mask := pin_irq_enable_mask - {irqindex};
        ShlRange(irqindex);
        var pinbit := Shl(irqindex);
        if pinbit >= 0x0020 && pinbit <= 0x0200 {
          if pin_irq_enable_mask * {5, 6, 7, 8, 9} == {} {
            nvic := nvic - {Line(irqindex)};
          }
        } else if pinbit >= 0x0400 && pinbit <= 0x8000 {
          if pin_irq_enable_mask * {10, 11, 12, 13, 14, 15} == {} {
            nvic := nvic - {Line(irqindex)};
          }
        } else {
          nvic := nvic - {Line(irqindex)};
        }
      } else {
        return -RT_ENOSYS;
      }
      return RT_EOK;
    }

    /** pin_irq_hdr for an EXTI event of pin k: the handler and argument it calls. */
    method Dispatch(bit: bv32, ghost k: nat) returns (called: bool, hdr: int, args: int)
      requires Valid() && k < 16 && bit == Shl(k)
      ensures called <==> pin_irq_hdr_tab[k].hdr != RT_NULL
      ensures called ==> hdr == pin_irq_hdr_tab[k].hdr && args == pin_irq_hdr_tab[k].args
    {
      var irqno := Bit2BitNo(bit);
      ShlInjective(irqno, k);
      hdr, args := pin_irq_hdr_tab[irqno].hdr, pin_irq_hdr_tab[irqno].args;
      called := hdr != RT_NULL;
    }
  }
}
