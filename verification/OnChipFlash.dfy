/**
 The on-chip flash driver of the STM32F407VE.  Flash is a byte array in which
 programming can only clear bits and erasing sets whole sectors to 0xFF.  Addresses
 and sizes have 32 bits, and their sums wrap around.

 Every HAL program or sector erase is numbered by the order of its call, and the
 oracle `outcome` says how call number n ends.  A failed program leaves any subset of
 the bits it should clear uncleared; a failed erase leaves its sector holding anything.
 The oracle `elsewhere` gives the bytes at addresses outside the flash.  Target and
 host are both little-endian, so a word or a halfword is represented by its bytes in
 memory order.
 */
module OnChipFlash {
  import opened Arithmetic

  const U32 := 0x1_0000_0000

  const ROM_START := 0x0800_0000
  const ROM_SIZE := 512 * 1024
  const ROM_END := ROM_START + ROM_SIZE

  // the FAL device "onchip_flash_128k" begins at sector 5, behind the boot loader
  const START_128K := 0x0802_0000
  const BOOT_SIZE := START_128K - ROM_START

  const RT_ERROR := 1
  const RT_EINVAL := 10

  datatype Outcome = Done | Failed(residue: int -> bv8)

  /** How call n ends, and the byte at address a outside the flash after n calls. */
  datatype Hal = Hal(outcome: nat -> Outcome, elsewhere: (nat, nat) -> bv8)

  /** The flash contents and the number of HAL calls made so far. */
  datatype Chip = Chip(mem: seq<bv8>, calls: nat)

  ghost predicate AllDone(hal: Hal, from: nat, count: nat) {
    forall n :: from <= n < from + count ==> hal.outcome(n).Done?
  }

  /** A 32-bit result in an int. */
  function ToInt32(x: nat): (r: int)
    ensures -0x8000_0000 <= r < 0x8000_0000 && (r - x) % U32 == 0
  {
    if x % U32 < 0x8000_0000 then x % U32 else x % U32 - U32
  }

  // ------------------------------------------------------------- addresses

  predicate Word32(x: int) {
    0 <= x < U32
  }

  /** 32-bit sum of an address and a distance. */
  function Plus(addr: nat, k: nat): (a: nat)
    ensures Word32(a)
    ensures Word32(addr) && Word32(k) ==> a == if addr + k < U32 then addr + k else addr + k - U32
  {
    (addr + k) % U32
  }

  /** How far above addr the flash byte at offset i lies. */
  function Above(addr: nat, i: int): (k: int)
    requires Word32(addr) && 0 <= i < ROM_SIZE
    ensures Word32(k) && Plus(addr, k) == ROM_START + i
  {
    if ROM_START + i >= addr then ROM_START + i - addr else ROM_START + i - addr + U32
  }

  predicate InFlash(a: nat) {
    ROM_START <= a < ROM_END
  }

  lemma AboveOnly(addr: nat, k: nat)
    requires Word32(addr) && Word32(k) && InFlash(Plus(addr, k))
    ensures Above(addr, Plus(addr, k) - ROM_START) == k
  {
  }

  /** The end check of all three operations, and the size check of two. */
  predicate Accepted(addr: nat, size: nat) {
    Plus(addr, size) <= ROM_END && size >= 1
  }

  // ---------------------------------------------------------------- tiling

  /** Width of the next program at address a with n bytes left. */
  function UnitWidth(a: nat, n: nat): nat {
    if a % 4 == 0 && n >= 4 then 4
    else if a % 2 == 0 && n >= 2 then 2
    else 1
  }

  predicate AlignedUnit(a: nat, n: nat, w: nat) {
    w <= n && (w == 1 || (w == 2 && a % 2 == 0) || (w == 4 && a % 4 == 0))
  }

  /** ws cuts [a, a + n) into naturally aligned bytes, halfwords and words. */
  ghost predicate AlignedTiling(a: nat, n: nat, ws: seq<nat>)
    decreases |ws|
  {
    if ws == [] then n == 0
    else
      && AlignedUnit(a, n, ws[0])
      && AlignedTiling(a + ws[0], n - ws[0], ws[1..])
  }

  /** The widths the write loop chooses for [a, a + n), in order. */
  function Tiling(a: nat, n: nat): seq<nat>
    decreases n
  {
    if n == 0 then []
    else
      var w := UnitWidth(a, n);
      [w] + Tiling(a + w, n - w)
  }

  /** The write loop issues only naturally aligned programs, end to end. */
  lemma {:induction false} GreedyTiles(a: nat, n: nat)
    ensures AlignedTiling(a, n, Tiling(a, n))
    decreases n
  {
    if n > 0 {
      var w := UnitWidth(a, n);
      GreedyTiles(a + w, n - w);
    }
  }

  // The number of units depends on the address only through its position in a word.

  predicate AlignedAt(r: nat, w: nat) {
    w == 1 || (w == 2 && (r == 0 || r == 2)) || (w == 4 && r == 0)
  }

  function Advance(r: nat, w: nat): nat {
    if r + w < 4 then r + w else r + w - 4
  }

  function WidthAt(r: nat, n: nat): nat {
    if r == 0 && n >= 4 then 4 else if (r == 0 || r == 2) && n >= 2 then 2 else 1
  }

  function Count(r: nat, n: nat): nat
    requires r < 4
    decreases n
  {
    if n == 0 then 0 else 1 + Count(Advance(r, WidthAt(r, n)), n - WidthAt(r, n))
  }

  lemma InWord(a: nat, n: nat)
    ensures UnitWidth(a, n) == WidthAt(a % 4, n)
    ensures forall w: nat :: AlignedUnit(a, n, w) <==> w <= n && AlignedAt(a % 4, w)
  {
    assert a == 4 * (a / 4) + a % 4;
    assert a % 2 == 0 <==> a % 4 == 0 || a % 4 == 2;
  }

  lemma InWordNext(a: nat, w: nat)
    requires AlignedAt(a % 4, w)
    ensures (a + w) % 4 == Advance(a % 4, w)
  {
    assert a + w == 4 * (a / 4) + a % 4 + w;
  }

  lemma GreedyUnitAligned(a: nat, n: nat)
    requires n > 0
    ensures AlignedUnit(a, n, UnitWidth(a, n))
  {
  }

  lemma {:induction false} TilingCount(a: nat, n: nat)
    ensures |Tiling(a, n)| == Count(a % 4, n)
    decreases n
  {
    if n > 0 {
      var w := UnitWidth(a, n);
      InWord(a, n);
      hide UnitWidth, WidthAt, Advance, AlignedUnit, AlignedAt;
      assert AlignedUnit(a, n, w) by { GreedyUnitAligned(a, n); }
      InWordNext(a, w);
      TilingCount(a + w, n - w);
    }
  }

  /** Starting with a narrower unit than the greedy one never pays. */
  lemma NarrowFirstUnit(r: nat, n: nat, w: nat)
    requires r < 4 && w <= n && AlignedAt(r, w)
    ensures Count(r, n) <= 1 + Count(Advance(r, w), n - w)
  {
    hide Count;
    CountStep(r, n);
    if w < WidthAt(r, n) {
      CountStep(Advance(r, w), n - w);
      if w == 1 && WidthAt(r, n) == 4 {
        CountStep(2, n - 2);
      }
    }
  }

  lemma CountStep(r: nat, n: nat)
    requires r < 4 && n > 0
    ensures Count(r, n) == 1 + Count(Advance(r, WidthAt(r, n)), n - WidthAt(r, n))
  {
  }

  lemma {:induction false} CountIsLeast(a: nat, n: nat, ws: seq<nat>)
    requires AlignedTiling(a, n, ws)
    ensures Count(a % 4, n) <= |ws|
    decreases n
  {
    if n > 0 {
      var w := ws[0];
      InWord(a, n);
      InWordNext(a, w);
      CountIsLeast(a + w, n - w, ws[1..]);
      NarrowFirstUnit(a % 4, n, w);
    }
  }

  /** No aligned tiling uses fewer programs than the greedy choice. */
  lemma GreedyIsFewest(a: nat, n: nat, ws: seq<nat>)
    requires AlignedTiling(a, n, ws)
    ensures |Tiling(a, n)| <= |ws|
  {
    TilingCount(a, n);
    CountIsLeast(a, n, ws);
  }

  /** From a word boundary on: q whole words, then at most two narrow units. */
  lemma {:induction false} CountFromWord(q: nat, s: nat)
    requires s < 4
    ensures Count(0, 4 * q + s) == q + (if s == 0 then 0 else if s == 3 then 2 else 1)
    decreases q
  {
    if q > 0 {
      CountFromWord(q - 1, s);
    } else if s == 3 {
      assert Count(2, 1) == 1 + Count(3, 0);
    } else if s > 0 {
      assert Count(s, 0) == 0;
    }
  }

  /** At most two narrow units come before the first word boundary: never more than
      three programs above the number of whole words. */
  lemma TilingBound(a: nat, n: nat)
    ensures |Tiling(a, n)| <= n / 4 + 3
  {
    TilingCount(a, n);
    CountBound(a % 4, n / 4, n % 4);
  }

  lemma CountBound(r: nat, q: nat, s: nat)
    requires r < 4 && s < 4
    ensures Count(r, 4 * q + s) <= q + 3
  {
    hide Count;
    var n := 4 * q + s;
    if r == 0 {
      CountFromWord(q, s);
    } else if n <= 2 {
      CountAtMostBytes(r, n);
    } else {
      CountStep(r, n);
      if r == 1 { CountStep(2, n - 1); }
      var head := 4 - r;
      if s >= head { CountFromWord(q, s - head); } else { CountFromWord(q - 1, s + 4 - head); }
    }
  }

  lemma {:induction false} CountAtMostBytes(r: nat, n: nat)
    requires r < 4
    ensures Count(r, n) <= n
    decreases n
  {
    if n > 0 {
      CountAtMostBytes(Advance(r, WidthAt(r, n)), n - WidthAt(r, n));
    }
  }

  // ----------------------------------------------------------------- write

  /** What programming leaves of one byte, at offset i. */
  function Programmed(before: bv8, d: bv8, o: Outcome, i: int): bv8 {
    match o
    case Done => before & d
    case Failed(residue) => before & (d | residue(i))
  }

  ghost predicate Fits(chip: Chip, addr: nat, buf: seq<bv8>) {
    |chip.mem| == ROM_SIZE && Word32(addr) && Word32(|buf|)
  }

  /** Flash contents after programming bytes [from, from + n) of a buffer that is
      written from addr on. */
  function AfterProgram(mem: seq<bv8>, addr: nat, buf: seq<bv8>, from: nat, n: nat, o: Outcome): (mem': seq<bv8>)
    requires |mem| == ROM_SIZE && Word32(addr) && from + n <= |buf|
    ensures |mem'| == ROM_SIZE
  {
    seq(ROM_SIZE, i requires 0 <= i < ROM_SIZE && |mem| == ROM_SIZE && Word32(addr) && from + n <= |buf| =>
      if from <= Above(addr, i) < from + n then Programmed(mem[i], buf[Above(addr, i)], o, i) else mem[i])
  }

  function ByteAt(chip: Chip, a: nat, hal: Hal): bv8
    requires |chip.mem| == ROM_SIZE
  {
    if InFlash(a) then chip.mem[a - ROM_START] else hal.elsewhere(chip.calls, a)
  }

  predicate ReadsBack(chip: Chip, addr: nat, buf: seq<bv8>, from: nat, n: nat, hal: Hal)
    requires |chip.mem| == ROM_SIZE && from + n <= |buf|
  {
    forall k :: from <= k < from + n ==> ByteAt(chip, Plus(addr, k), hal) == buf[k]
  }

  datatype WriteEnd = WriteEnd(chip: Chip, written: nat, ok: bool)

  /** Programs the n bytes of the unit at `written` and compares them. */
  function WriteUnit(chip: Chip, addr: nat, buf: seq<bv8>, written: nat, n: nat, hal: Hal): (r: (Chip, bool))
    requires Fits(chip, addr, buf) && written + n <= |buf|
    ensures |r.0.mem| == ROM_SIZE
  {
    var o := hal.outcome(chip.calls);
    var chip' := Chip(AfterProgram(chip.mem, addr, buf, written, n, o), chip.calls + 1);
    (chip', o.Done? && ReadsBack(chip', addr, buf, written, n, hal))
  }

  /** The write loop from `written` on. */
  function WriteRun(chip: Chip, addr: nat, buf: seq<bv8>, written: nat, hal: Hal): WriteEnd
    requires Fits(chip, addr, buf) && written <= |buf|
    decreases |buf| - written
  {
    if written == |buf| then WriteEnd(chip, written, true)
    else
      var n := UnitWidth(Plus(addr, written), |buf| - written);
      var (chip', ok) := WriteUnit(chip, addr, buf, written, n, hal);
      if ok then WriteRun(chip', addr, buf, written + n, hal) else WriteEnd(chip', written, false)
  }

  lemma WriteRunStep(chip: Chip, addr: nat, buf: seq<bv8>, written: nat, hal: Hal)
    requires Fits(chip, addr, buf) && written < |buf|
    ensures var n := UnitWidth(Plus(addr, written), |buf| - written);
            var (chip', ok) := WriteUnit(chip, addr, buf, written, n, hal);
      WriteRun(chip, addr, buf, written, hal)
        == if ok then WriteRun(chip', addr, buf, written + n, hal) else WriteEnd(chip', written, false)
  {
  }

  lemma WriteRunEnds(chip: Chip, addr: nat, buf: seq<bv8>, hal: Hal)
    requires Fits(chip, addr, buf)
    ensures WriteRun(chip, addr, buf, |buf|, hal) == WriteEnd(chip, |buf|, true)
  {
  }

  lemma UnitEffect(chip: Chip, addr: nat, buf: seq<bv8>, written: nat, n: nat, hal: Hal)
    requires Fits(chip, addr, buf) && written + n <= |buf|
    ensures var (chip', ok) := WriteUnit(chip, addr, buf, written, n, hal);
      && (forall i :: 0 <= i < ROM_SIZE && !(written <= Above(addr, i) < written + n) ==> chip'.mem[i] == chip.mem[i])
      && (forall i :: 0 <= i < ROM_SIZE && written <= Above(addr, i) < written + n && buf[Above(addr, i)] == 0xFF ==>
            chip'.mem[i] == chip.mem[i])
      && (ok ==> forall i :: 0 <= i < ROM_SIZE && written <= Above(addr, i) < written + n ==>
            chip'.mem[i] == buf[Above(addr, i)])
  {
    hide Programmed;
    var (chip', ok) := WriteUnit(chip, addr, buf, written, n, hal);
    var o := hal.outcome(chip.calls);
    forall i | 0 <= i < ROM_SIZE && written <= Above(addr, i) < written + n
      ensures buf[Above(addr, i)] == 0xFF ==> chip'.mem[i] == chip.mem[i]
      ensures ok ==> chip'.mem[i] == buf[Above(addr, i)]
    {
      ProgramBlank(chip.mem[i], o, i);
      assert Plus(addr, Above(addr, i)) == ROM_START + i;
    }
  }

  lemma ProgramBlank(before: bv8, o: Outcome, i: int)
    ensures Programmed(before, 0xFF, o, i) == before
  {
  }

  /** Whatever happens: the verified prefix equals the buffer, flash bytes outside the
      range are untouched, and so is everything past the unit that failed and everything
      that 0xFF is written to. */
  lemma {:induction false} WriteKeeps(chip: Chip, addr: nat, buf: seq<bv8>, written: nat, hal: Hal)
    requires Fits(chip, addr, buf) && written <= |buf|
    ensures var e := WriteRun(chip, addr, buf, written, hal);
      && |e.chip.mem| == ROM_SIZE
      && written <= e.written <= |buf|
      && (e.ok <==> e.written == |buf|)
      && (forall i :: 0 <= i < ROM_SIZE && written <= Above(addr, i) < e.written ==>
            e.chip.mem[i] == buf[Above(addr, i)])
      && (forall i :: 0 <= i < ROM_SIZE && !(written <= Above(addr, i) < |buf|) ==> e.chip.mem[i] == chip.mem[i])
      && (forall i :: 0 <= i < ROM_SIZE && e.written + 4 <= Above(addr, i) ==> e.chip.mem[i] == chip.mem[i])
      && (forall i :: 0 <= i < ROM_SIZE && Above(addr, i) < |buf| && buf[Above(addr, i)] == 0xFF ==>
            e.chip.mem[i] == chip.mem[i])
    decreases |buf| - written
  {
    hide Above, Plus, WriteUnit, UnitWidth;
    if written < |buf| {
      UnitWidthFits(Plus(addr, written), |buf| - written);
      var n := UnitWidth(Plus(addr, written), |buf| - written);
      var (chip', ok) := WriteUnit(chip, addr, buf, written, n, hal);
      UnitEffect(chip, addr, buf, written, n, hal);
      if ok {
        WriteKeeps(chip', addr, buf, written + n, hal);
      }
    }
  }

  lemma UnitWidthFits(a: nat, n: nat)
    requires n > 0
    ensures 1 <= UnitWidth(a, n) <= n && UnitWidth(a, n) <= 4
  {
  }

  /** A byte that can follow `before` without an erase: no bit goes from 0 to 1. */
  predicate Clears(before: bv8, after: bv8) {
    after & before == after
  }

  ghost predicate OnlyCleared(mem: seq<bv8>, mem': seq<bv8>) {
    |mem'| == |mem| && forall i :: 0 <= i < |mem| ==> Clears(mem[i], mem'[i])
  }

  lemma ClearsTransitively(a: bv8, b: bv8, c: bv8)
    requires Clears(a, b) && Clears(b, c)
    ensures Clears(a, c)
  {
  }

  lemma ClearsItself(b: bv8)
    ensures Clears(b, b)
  {
  }

  lemma AndClears(before: bv8, d: bv8)
    ensures Clears(before, before & d)
  {
  }

  lemma ProgrammedClears(before: bv8, d: bv8, o: Outcome, i: int)
    ensures Clears(before, Programmed(before, d, o, i))
  {
    match o
    case Done => AndClears(before, d);
    case Failed(residue) => AndClears(before, d | residue(i));
  }

  lemma ProgramOnlyClears(mem: seq<bv8>, addr: nat, buf: seq<bv8>, from: nat, n: nat, o: Outcome)
    requires |mem| == ROM_SIZE && Word32(addr) && from + n <= |buf|
    ensures OnlyCleared(mem, AfterProgram(mem, addr, buf, from, n, o))
  {
    hide Clears, Programmed, Above;
    forall i | 0 <= i < |mem|
      ensures Clears(mem[i], AfterProgram(mem, addr, buf, from, n, o)[i])
    {
      if from <= Above(addr, i) < from + n {
        ProgrammedClears(mem[i], buf[Above(addr, i)], o, i);
      } else {
        ClearsItself(mem[i]);
      }
    }
  }

  /** Failing or not, a write never sets a bit. */
  lemma {:induction false} WriteOnlyClears(chip: Chip, addr: nat, buf: seq<bv8>, written: nat, hal: Hal)
    requires Fits(chip, addr, buf) && written <= |buf|
    ensures OnlyCleared(chip.mem, WriteRun(chip, addr, buf, written, hal).chip.mem)
    decreases |buf| - written
  {
    hide Clears, AfterProgram, UnitWidth, Plus;
    if written == |buf| {
      forall i | 0 <= i < |chip.mem|
        ensures Clears(chip.mem[i], chip.mem[i])
      {
        ClearsItself(chip.mem[i]);
      }
    } else {
      UnitWidthFits(Plus(addr, written), |buf| - written);
      var n := UnitWidth(Plus(addr, written), |buf| - written);
      var (chip', ok) := WriteUnit(chip, addr, buf, written, n, hal);
      ProgramOnlyClears(chip.mem, addr, buf, written, n, hal.outcome(chip.calls));
      if ok {
        WriteOnlyClears(chip', addr, buf, written + n, hal);
        var mem' := WriteRun(chip', addr, buf, written + n, hal).chip.mem;
        forall i | 0 <= i < |mem'|
          ensures Clears(chip.mem[i], mem'[i])
        {
          ClearsTransitively(chip.mem[i], chip'.mem[i], mem'[i]);
        }
      }
    }
  }

  /** The flash bytes of the range can take the data as they are. */
  ghost predicate Programmable(mem: seq<bv8>, addr: nat, buf: seq<bv8>, written: nat)
    requires |mem| == ROM_SIZE && Word32(addr)
  {
    forall i :: 0 <= i < ROM_SIZE && written <= Above(addr, i) < |buf| ==> Clears(mem[i], buf[Above(addr, i)])
  }

  /** What lies outside the flash reads back as it was written, unit by unit. */
  ghost predicate Echoes(calls: nat, addr: nat, buf: seq<bv8>, written: nat, hal: Hal)
    requires written <= |buf|
    decreases |buf| - written
  {
    written == |buf| ||
    var n := UnitWidth(Plus(addr, written), |buf| - written);
    UnitEchoes(calls + 1, addr, buf, written, n, hal) && Echoes(calls + 1, addr, buf, written + n, hal)
  }

  ghost predicate UnitEchoes(calls: nat, addr: nat, buf: seq<bv8>, from: nat, n: nat, hal: Hal)
    requires from + n <= |buf|
  {
    forall k :: from <= k < from + n && !InFlash(Plus(addr, k)) ==> hal.elsewhere(calls, Plus(addr, k)) == buf[k]
  }

  /** The write succeeds exactly when every program of the tiling is OK, no bit has to be
      set, and addresses outside the flash, if there are any, echo the data; it then
      makes one HAL call for each unit of the tiling. */
  lemma {:induction false} WriteSucceedsIff(chip: Chip, addr: nat, buf: seq<bv8>, written: nat, hal: Hal)
    requires Fits(chip, addr, buf) && written <= |buf|
    ensures var e := WriteRun(chip, addr, buf, written, hal);
            var units := |Tiling(addr + written, |buf| - written)|;
      && (e.ok <==>
            && AllDone(hal, chip.calls, units)
            && Programmable(chip.mem, addr, buf, written)
            && Echoes(chip.calls, addr, buf, written, hal))
      && (e.ok ==> e.chip.calls == chip.calls + units)
    decreases |buf| - written
  {
    hide WriteUnit, Programmable, AllDone, UnitWidth, UnitEchoes, Plus;
    if written == |buf| {
      NothingToProgram(chip, addr, buf, hal);
    } else {
      UnitWidthFits(Plus(addr, written), |buf| - written);
      SameAlignment(addr, written, |buf| - written);
      var n := UnitWidth(Plus(addr, written), |buf| - written);
      var units := |Tiling(addr + written + n, |buf| - written - n)|;
      var (chip', ok) := WriteUnit(chip, addr, buf, written, n, hal);
      AllDoneSplits(hal, chip.calls, units);
      UnitCallsOnce(chip, addr, buf, written, n, hal);
      if hal.outcome(chip.calls).Done? {
        UnitVerifiesIff(chip, addr, buf, written, n, hal);
        if ok {
          WriteSucceedsIff(chip', addr, buf, written + n, hal);
        }
      }
    }
  }

  /** 2^32 is a multiple of 4, so wrapping around does not change the alignment. */
  lemma SameAlignment(addr: nat, k: nat, n: nat)
    requires Word32(addr) && Word32(k)
    ensures UnitWidth(Plus(addr, k), n) == UnitWidth(addr + k, n)
  {
    hide Plus;
    if addr + k >= U32 {
      var y := addr + k - U32;
      QuotientIs(addr + k, 4, y / 4 + 0x4000_0000, y % 4);
      QuotientIs(addr + k, 2, y / 2 + 0x8000_0000, y % 2);
    }
  }

  lemma NothingToProgram(chip: Chip, addr: nat, buf: seq<bv8>, hal: Hal)
    requires Fits(chip, addr, buf)
    ensures AllDone(hal, chip.calls, 0) && Programmable(chip.mem, addr, buf, |buf|)
  {
  }

  lemma UnitCallsOnce(chip: Chip, addr: nat, buf: seq<bv8>, written: nat, n: nat, hal: Hal)
    requires Fits(chip, addr, buf) && written + n <= |buf|
    ensures var (chip', ok) := WriteUnit(chip, addr, buf, written, n, hal);
      chip'.calls == chip.calls + 1 && (ok ==> hal.outcome(chip.calls).Done?)
  {
  }

  lemma AllDoneSplits(hal: Hal, from: nat, count: nat)
    ensures AllDone(hal, from, 1 + count) <==> hal.outcome(from).Done? && AllDone(hal, from + 1, count)
  {
    assert from <= from < from + 1 + count;
  }

  lemma ReadsBackIff(before: bv8, d: bv8, i: int)
    ensures Programmed(before, d, Done, i) == d <==> Clears(before, d)
  {
  }

  lemma UnitVerifiesIff(chip: Chip, addr: nat, buf: seq<bv8>, written: nat, n: nat, hal: Hal)
    requires Fits(chip, addr, buf) && written + n <= |buf| && hal.outcome(chip.calls).Done?
    ensures var (chip', ok) := WriteUnit(chip, addr, buf, written, n, hal);
      Programmable(chip.mem, addr, buf, written) && UnitEchoes(chip.calls + 1, addr, buf, written, n, hal)
      <==> ok && Programmable(chip'.mem, addr, buf, written + n)
  {
    hide Clears, Programmed, Plus, Above;
    var (chip', ok) := WriteUnit(chip, addr, buf, written, n, hal);
    forall i | 0 <= i < ROM_SIZE && written <= Above(addr, i) < written + n
      ensures chip'.mem[i] == buf[Above(addr, i)] <==> Clears(chip.mem[i], buf[Above(addr, i)])
    {
      ReadsBackIff(chip.mem[i], buf[Above(addr, i)], i);
    }
    if ok {
      UnitEffect(chip, addr, buf, written, n, hal);
    }
    if Programmable(chip.mem, addr, buf, written) && UnitEchoes(chip.calls + 1, addr, buf, written, n, hal) {
      forall k | written <= k < written + n
        ensures ByteAt(chip', Plus(addr, k), hal) == buf[k]
      {
        if InFlash(Plus(addr, k)) { AboveOnly(addr, k); }
      }
    }
  }

  /** stm32_flash_write as a whole, error exits included. */
  function FlashWrite(chip: Chip, addr: nat, buf: seq<bv8>, hal: Hal): (Chip, int)
    requires Fits(chip, addr, buf)
  {
    if !Accepted(addr, |buf|) then (chip, -RT_EINVAL)
    else
      var e := WriteRun(chip, addr, buf, 0, hal);
      (e.chip, if e.ok then ToInt32(|buf|) else -RT_ERROR)
  }

  /** What the caller of stm32_flash_write learns from the result, for every address and
      size: `size` comes back, as an int, if and only if the range passes the checks, all
      its programs are OK, no bit has to be set and what is outside the flash echoes;
      then the flash holds its part of the buffer.  The rest never changes. */
  lemma WriteResult(chip: Chip, addr: nat, buf: seq<bv8>, hal: Hal)
    requires Fits(chip, addr, buf)
    ensures var (chip', r) := FlashWrite(chip, addr, buf, hal);
            var accepted := (addr + |buf|) % U32 <= ROM_END && |buf| >= 1;
            var written :=
              && accepted
              && AllDone(hal, chip.calls, |Tiling(addr, |buf|)|)
              && Programmable(chip.mem, addr, buf, 0)
              && Echoes(chip.calls, addr, buf, 0, hal);
      && |chip'.mem| == ROM_SIZE
      && r == (if written then ToInt32(|buf|) else if accepted then -RT_ERROR else -RT_EINVAL)
      && (written ==> forall i :: 0 <= i < ROM_SIZE && Above(addr, i) < |buf| ==> chip'.mem[i] == buf[Above(addr, i)])
      && (forall i :: 0 <= i < ROM_SIZE && Above(addr, i) >= |buf| ==> chip'.mem[i] == chip.mem[i])
  {
    AcceptedIff(addr, |buf|);
    hide FlashWrite, Accepted, Programmable, Echoes, AllDone, Above, Plus, ToInt32, Tiling;
    WriteOutcome(chip, addr, buf, hal);
  }

  lemma WriteOutcome(chip: Chip, addr: nat, buf: seq<bv8>, hal: Hal)
    requires Fits(chip, addr, buf)
    ensures var (chip', r) := FlashWrite(chip, addr, buf, hal);
            var written :=
              && Accepted(addr, |buf|)
              && AllDone(hal, chip.calls, |Tiling(addr, |buf|)|)
              && Programmable(chip.mem, addr, buf, 0)
              && Echoes(chip.calls, addr, buf, 0, hal);
      && |chip'.mem| == ROM_SIZE
      && r == (if written then ToInt32(|buf|) else if Accepted(addr, |buf|) then -RT_ERROR else -RT_EINVAL)
      && (written ==> forall i :: 0 <= i < ROM_SIZE && Above(addr, i) < |buf| ==> chip'.mem[i] == buf[Above(addr, i)])
      && (forall i :: 0 <= i < ROM_SIZE && Above(addr, i) >= |buf| ==> chip'.mem[i] == chip.mem[i])
  {
    hide Programmable, Echoes, AllDone, Above, Plus, ToInt32;
    WriteSucceedsIff(chip, addr, buf, 0, hal);
    WriteKeeps(chip, addr, buf, 0, hal);
  }

  /** [addr, addr + size) lies in the flash. */
  predicate Inside(addr: nat, size: nat) {
    ROM_START <= addr && addr + size <= ROM_END
  }

  /** For a range inside the flash: `size` comes back exactly when it is not 0, all
      programs are OK and old & new == new at every byte; then the range is the buffer. */
  lemma WriteInside(chip: Chip, addr: nat, buf: seq<bv8>, hal: Hal)
    requires Fits(chip, addr, buf) && Inside(addr, |buf|)
    ensures var (chip', r) := FlashWrite(chip, addr, buf, hal);
            var at := addr - ROM_START;
      && |chip'.mem| == ROM_SIZE
      && (r == |buf| <==>
            && 1 <= |buf|
            && AllDone(hal, chip.calls, |Tiling(addr, |buf|)|)
            && forall k :: 0 <= k < |buf| ==> Clears(chip.mem[at + k], buf[k]))
      && (r == |buf| ==> chip'.mem[at..at + |buf|] == buf)
      && (forall i :: 0 <= i < ROM_SIZE && !(at <= i < at + |buf|) ==> chip'.mem[i] == chip.mem[i])
  {
    hide Clears, AllDone, Echoes, FlashWrite, Tiling, Programmable, Above, Plus, Accepted, ToInt32, InFlash;
    WriteResult(chip, addr, buf, hal);
    InsideEchoes(chip.calls, addr, buf, 0, hal);
    ProgrammableInside(chip.mem, addr, buf);
    SmallSize(addr, |buf|);
    var (chip', r) := FlashWrite(chip, addr, buf, hal);
    if |buf| >= 1 {
      UntouchedOutside(chip.mem, chip'.mem, addr, |buf|);
      if r == |buf| {
        HoldsBuffer(chip'.mem, addr, buf);
      }
    }
  }

  lemma UntouchedOutside(mem: seq<bv8>, mem': seq<bv8>, addr: nat, size: nat)
    requires |mem| == |mem'| == ROM_SIZE && Inside(addr, size) && size >= 1
    requires forall i :: 0 <= i < ROM_SIZE && Above(addr, i) >= size ==> mem'[i] == mem[i]
    ensures var at := addr - ROM_START;
      forall i :: 0 <= i < ROM_SIZE && !(at <= i < at + size) ==> mem'[i] == mem[i]
  {
    hide Above;
    var at := addr - ROM_START;
    forall i | 0 <= i < ROM_SIZE && !(at <= i < at + size)
      ensures mem'[i] == mem[i]
    {
      AboveInside(addr, i);
    }
  }

  lemma HoldsBuffer(mem: seq<bv8>, addr: nat, buf: seq<bv8>)
    requires |mem| == ROM_SIZE && Inside(addr, |buf|) && |buf| >= 1
    requires forall i :: 0 <= i < ROM_SIZE && Above(addr, i) < |buf| ==> mem[i] == buf[Above(addr, i)]
    ensures mem[addr - ROM_START..addr - ROM_START + |buf|] == buf
  {
    hide Above, Plus;
    var at := addr - ROM_START;
    var range := mem[at..at + |buf|];
    forall k | 0 <= k < |buf|
      ensures range[k] == buf[k]
    {
      var i := at + k;
      AboveInside(addr, i);
      assert range[k] == mem[i];
    }
  }

  lemma AboveInside(addr: nat, i: int)
    requires Word32(addr) && InFlash(addr) && 0 <= i < ROM_SIZE
    ensures var at := addr - ROM_START;
      if i < at then Above(addr, i) > ROM_SIZE else Above(addr, i) == i - at
  {
  }

  lemma SmallSize(addr: nat, size: nat)
    requires Inside(addr, size)
    ensures ToInt32(size) == size <= ROM_SIZE && (Accepted(addr, size) <==> size >= 1) && (size >= 1 ==> InFlash(addr))
  {
  }

  lemma ProgrammableInside(mem: seq<bv8>, addr: nat, buf: seq<bv8>)
    requires |mem| == ROM_SIZE && Inside(addr, |buf|)
    ensures Programmable(mem, addr, buf, 0)
       <==> forall k :: 0 <= k < |buf| ==> Clears(mem[addr - ROM_START + k], buf[k])
  {
    hide Clears, Above, Plus;
    var at := addr - ROM_START;
    forall i | 0 <= i < ROM_SIZE && |buf| > 0
      ensures if i < at then Above(addr, i) > ROM_SIZE else Above(addr, i) == i - at
    {
      AboveInside(addr, i);
    }
    forall k | 0 <= k < |buf|
      ensures Programmable(mem, addr, buf, 0) ==> Clears(mem[at + k], buf[k])
    {
      assert Above(addr, at + k) == k;
    }
  }

  lemma {:induction false} InsideEchoes(calls: nat, addr: nat, buf: seq<bv8>, written: nat, hal: Hal)
    requires Inside(addr, |buf|) && written <= |buf|
    ensures Echoes(calls, addr, buf, written, hal)
    decreases |buf| - written
  {
    if written < |buf| {
      UnitWidthFits(Plus(addr, written), |buf| - written);
      InsideEchoes(calls + 1, addr, buf, written + UnitWidth(Plus(addr, written), |buf| - written), hal);
    }
  }

  // ------------------------------------------------------------------ read

  datatype Option<T> = None | Some(value: T)

  /** stm32_flash_read: the bytes, or a refusal. */
  function FlashRead(chip: Chip, addr: nat, size: nat, hal: Hal): Option<seq<bv8>>
    requires |chip.mem| == ROM_SIZE
  {
    if Plus(addr, size) > ROM_END then None
    else Some(seq(size, k requires 0 <= k < size && |chip.mem| == ROM_SIZE => ByteAt(chip, Plus(addr, k), hal)))
  }

  /** A range inside the flash reads as what the flash holds. */
  lemma ReadInside(chip: Chip, addr: nat, size: nat, hal: Hal)
    requires |chip.mem| == ROM_SIZE && Inside(addr, size)
    ensures FlashRead(chip, addr, size, hal) == Some(chip.mem[addr - ROM_START..addr - ROM_START + size])
  {
    assert FlashRead(chip, addr, size, hal).value == chip.mem[addr - ROM_START..addr - ROM_START + size];
  }

  // ----------------------------------------------------------------- erase

  /** First offset of sector s: 4 x 16 KB, 1 x 64 KB, 7 x 128 KB; 12 is the end. */
  function SectorBase(s: nat): nat
    requires s <= 12
  {
    if s < 4 then s * 0x4000
    else if s == 4 then 0x1_0000
    else (s - 4) * 0x2_0000
  }

  /** Sector of an address; an address outside bank 1 keeps the initial value 0. */
  function GetSector(a: nat): nat {
    if a < 0x0800_4000 && a >= 0x0800_0000 then 0
    else if a < 0x0800_8000 && a >= 0x0800_4000 then 1
    else if a < 0x0800_C000 && a >= 0x0800_8000 then 2
    else if a < 0x0801_0000 && a >= 0x0800_C000 then 3
    else if a < 0x0802_0000 && a >= 0x0801_0000 then 4
    else if a < 0x0804_0000 && a >= 0x0802_0000 then 5
    else if a < 0x0806_0000 && a >= 0x0804_0000 then 6
    else if a < 0x0808_0000 && a >= 0x0806_0000 then 7
    else if a < 0x080A_0000 && a >= 0x0808_0000 then 8
    else if a < 0x080C_0000 && a >= 0x080A_0000 then 9
    else if a < 0x080E_0000 && a >= 0x080C_0000 then 10
    else if a < 0x0810_0000 && a >= 0x080E_0000 then 11
    else 0
  }

  /** The branches of GetSector are the sector map: contiguous and exhaustive. */
  lemma SectorMap(a: nat, s: nat)
    requires ROM_START <= a < ROM_START + SectorBase(12) && s < 12
    ensures GetSector(a) == s <==> SectorBase(s) <= a - ROM_START < SectorBase(s + 1)
  {
    if s < 6 {
      assert s == 0 || s == 1 || s == 2 || s == 3 || s == 4 || s == 5;
    } else {
      assert s == 6 || s == 7 || s == 8 || s == 9 || s == 10 || s == 11;
    }
  }

  function AfterErase(mem: seq<bv8>, s: nat, o: Outcome): (mem': seq<bv8>)
    requires s < 12
    ensures |mem'| == |mem|
  {
    seq(|mem|, i requires 0 <= i < |mem| =>
      if SectorBase(s) <= i < SectorBase(s + 1) then
        match o
        case Done => 0xFF
        case Failed(residue) => residue(i)
      else mem[i])
  }

  datatype EraseEnd = EraseEnd(chip: Chip, ok: bool)

  /** The HAL erase loop over sectors [s, end): it stops at the first failure. */
  function EraseRun(chip: Chip, s: nat, end: nat, hal: Hal): EraseEnd
    requires s <= end <= 12
    decreases end - s
  {
    if s == end then EraseEnd(chip, true)
    else
      var o := hal.outcome(chip.calls);
      var chip' := Chip(AfterErase(chip.mem, s, o), chip.calls + 1);
      if o.Done? then EraseRun(chip', s + 1, end, hal) else EraseEnd(chip', false)
  }

  lemma {:induction false} EraseRunEffect(chip: Chip, s: nat, end: nat, hal: Hal)
    requires s <= end <= 12
    ensures var e := EraseRun(chip, s, end, hal);
      && |e.chip.mem| == |chip.mem|
      && (e.ok <==> AllDone(hal, chip.calls, end - s))
      && (forall i :: 0 <= i < |chip.mem| && !(SectorBase(s) <= i < SectorBase(end)) ==> e.chip.mem[i] == chip.mem[i])
      && (e.ok ==> forall i :: 0 <= i < |chip.mem| && SectorBase(s) <= i < SectorBase(end) ==> e.chip.mem[i] == 0xFF)
      && (e.ok ==> e.chip.calls == chip.calls + (end - s))
    decreases end - s
  {
    if s < end {
      BasesAscend(s, end);
      var o := hal.outcome(chip.calls);
      var chip' := Chip(AfterErase(chip.mem, s, o), chip.calls + 1);
      assert AllDone(hal, chip.calls, end - s) <==> o.Done? && AllDone(hal, chip.calls + 1, end - s - 1);
      if o.Done? {
        EraseRunEffect(chip', s + 1, end, hal);
      }
    }
  }

  lemma BasesAscend(s: nat, end: nat)
    requires s < end <= 12
    ensures SectorBase(s) < SectorBase(s + 1) <= SectorBase(end)
  {
  }

  /** First and last sector of the range, as the driver works them out. */
  function LastSector(addr: nat, size: nat): (s: nat)
    requires Word32(addr) && Word32(size) && Accepted(addr, size)
    ensures s < 8
  {
    GetSector(Plus(addr, size - 1))
  }

  /** stm32_flash_erase as a whole, error exits included.  If the last sector comes
      before the first, the number of sectors wraps around and the HAL erases none. */
  function FlashErase(chip: Chip, addr: nat, size: nat, hal: Hal): (Chip, int)
    requires |chip.mem| == ROM_SIZE && Word32(addr) && Word32(size)
  {
    if !Accepted(addr, size) then (chip, -RT_EINVAL)
    else
      var e := ErasePart(chip, GetSector(addr), LastSector(addr, size) + 1, hal);
      (e.chip, if e.ok then ToInt32(size) else -RT_ERROR)
  }

  function ErasePart(chip: Chip, first: nat, end: nat, hal: Hal): EraseEnd
    requires end <= 12
  {
    if first < end then EraseRun(chip, first, end, hal) else EraseEnd(chip, true)
  }

  lemma SectorsOrdered(a: nat, b: nat)
    requires ROM_START <= a <= b < ROM_END
    ensures GetSector(a) <= GetSector(b) < 8
  {
  }

  /** The byte at offset i lies in a sector that [addr, addr + size) touches. */
  ghost predicate InErasedSector(addr: nat, size: nat, i: nat) {
    exists a :: addr <= a < addr + size && GetSector(a) == GetSector(ROM_START + i)
  }

  lemma ErasedSectorsAreContiguous(addr: nat, size: nat, i: nat)
    requires ROM_START <= addr && 1 <= size && addr + size <= ROM_END && i < ROM_SIZE
    ensures InErasedSector(addr, size, i)
       <==> SectorBase(GetSector(addr)) <= i < SectorBase(GetSector(addr + size - 1) + 1)
  {
    var last := addr + size - 1;
    var s := GetSector(ROM_START + i);
    SectorsOrdered(addr, last);
    SectorMap(addr, GetSector(addr));
    SectorMap(last, GetSector(last));
    SectorMap(ROM_START + i, s);
    if InErasedSector(addr, size, i) {
      var a :| addr <= a < addr + size && GetSector(a) == s;
      SectorsOrdered(addr, a);
      SectorsOrdered(a, last);
      if GetSector(addr) < s { BasesAscend(GetSector(addr), s); }
      if s < GetSector(last) { BasesAscend(s + 1, GetSector(last) + 1); }
    }
    if SectorBase(GetSector(addr)) <= i < SectorBase(GetSector(last) + 1) {
      if ROM_START + i < addr {
        SectorsOrdered(ROM_START + i, addr);
        if s < GetSector(addr) { BasesAscend(s, GetSector(addr)); assert false; }
        assert GetSector(addr) == s;
      } else if ROM_START + i > last {
        SectorsOrdered(last, ROM_START + i);
        if GetSector(last) < s { BasesAscend(GetSector(last), s); assert false; }
        assert GetSector(last) == s;
      }
    }
  }

  /** Erase returns `size` exactly when every sector erase is OK, and then sets to
      0xFF exactly the sectors meeting the range; even a failed erase leaves every
      other sector alone. */
  lemma EraseExact(chip: Chip, addr: nat, size: nat, hal: Hal)
    requires |chip.mem| == ROM_SIZE && 1 <= size && Inside(addr, size)
    ensures var (chip', r) := FlashErase(chip, addr, size, hal);
      && |chip'.mem| == ROM_SIZE
      && (r == size <==> AllDone(hal, chip.calls, GetSector(addr + size - 1) - GetSector(addr) + 1))
      && (r != size ==> r == -RT_ERROR)
      && (forall i :: 0 <= i < ROM_SIZE && !InErasedSector(addr, size, i) ==> chip'.mem[i] == chip.mem[i])
      && (r == size ==> forall i :: 0 <= i < ROM_SIZE && InErasedSector(addr, size, i) ==> chip'.mem[i] == 0xFF)
  {
    SectorsOrdered(addr, addr + size - 1);
    EraseRunEffect(chip, GetSector(addr), GetSector(addr + size - 1) + 1, hal);
    forall i | 0 <= i < ROM_SIZE
      ensures InErasedSector(addr, size, i)
         <==> SectorBase(GetSector(addr)) <= i < SectorBase(GetSector(addr + size - 1) + 1)
    {
      ErasedSectorsAreContiguous(addr, size, i);
    }
  }

  /** For every address and size: a range that fails the 32-bit checks is refused; any
      other erases the sectors from that of its first to that of its last byte, if the
      latter is not before the former, and returns the size, as an int, exactly if all
      these erases are OK.  All other sectors stay. */
  lemma EraseResult(chip: Chip, addr: nat, size: nat, hal: Hal)
    requires |chip.mem| == ROM_SIZE && Word32(addr) && Word32(size)
    ensures var (chip', r) := FlashErase(chip, addr, size, hal);
            var first, last := GetSector(addr), GetSector((addr + size + U32 - 1) % U32);
            var count := if first <= last then last - first + 1 else 0;
      && |chip'.mem| == ROM_SIZE
      && (if (addr + size) % U32 > ROM_END || size == 0 then chip' == chip && r == -RT_EINVAL
          else
            && last < 8
            && r == (if AllDone(hal, chip.calls, count) then ToInt32(size) else -RT_ERROR)
            && (forall i :: 0 <= i < ROM_SIZE && !(first <= GetSector(ROM_START + i) <= last) ==>
                  chip'.mem[i] == chip.mem[i])
            && (AllDone(hal, chip.calls, count) ==>
                  forall i :: 0 <= i < ROM_SIZE && first <= GetSector(ROM_START + i) <= last ==>
                    chip'.mem[i] == 0xFF))
  {
    AcceptedIff(addr, size);
    hide Accepted, ToInt32, GetSector, AllDone;
    if Accepted(addr, size) {
      var first, last := GetSector(addr), LastSector(addr, size);
      assert Plus(addr, size - 1) == (addr + size + U32 - 1) % U32;
      hide Plus;
      NoneToDo(hal, chip.calls);
      if first <= last {
        EraseRunSectors(chip, first, last, hal);
      }
    }
  }

  lemma AcceptedIff(addr: nat, size: nat)
    ensures Accepted(addr, size) <==> (addr + size) % U32 <= ROM_END && size >= 1
  {
  }

  lemma NoneToDo(hal: Hal, from: nat)
    ensures AllDone(hal, from, 0)
  {
  }

  lemma EraseRunSectors(chip: Chip, first: nat, last: nat, hal: Hal)
    requires |chip.mem| == ROM_SIZE && first <= last < 8
    ensures var e := EraseRun(chip, first, last + 1, hal);
      && |e.chip.mem| == ROM_SIZE
      && (e.ok <==> AllDone(hal, chip.calls, last - first + 1))
      && (forall i :: 0 <= i < ROM_SIZE && !(first <= GetSector(ROM_START + i) <= last) ==>
            e.chip.mem[i] == chip.mem[i])
      && (e.ok ==>
            forall i :: 0 <= i < ROM_SIZE && first <= GetSector(ROM_START + i) <= last ==> e.chip.mem[i] == 0xFF)
  {
    hide GetSector, AllDone, EraseRun;
    EraseRunEffect(chip, first, last + 1, hal);
    var e := EraseRun(chip, first, last + 1, hal);
    forall i | 0 <= i < ROM_SIZE
      ensures !(first <= GetSector(ROM_START + i) <= last) ==> e.chip.mem[i] == chip.mem[i]
      ensures e.ok && first <= GetSector(ROM_START + i) <= last ==> e.chip.mem[i] == 0xFF
    {
      SectorsBetween(first, last, i);
    }
  }

  lemma SectorsBetween(first: nat, last: nat, i: int)
    requires first <= last < 8 && 0 <= i < ROM_SIZE
    ensures first <= GetSector(ROM_START + i) <= last <==> SectorBase(first) <= i < SectorBase(last + 1)
  {
    var s := GetSector(ROM_START + i);
    SectorMap(ROM_START + i, s);
    hide GetSector;
    if s < first { BasesAscend(s, first); }
    if first < s { BasesAscend(first, s); }
    if s < last + 1 { BasesAscend(s, last + 1); } else if last + 1 < s { BasesAscend(last + 1, s); }
  }

  // ------------------------------------------------------ the FAL 128K device

  datatype Op =
    | Read(offset: int, size: nat)
    | Write(offset: int, buf: seq<bv8>)
    | Erase(offset: int, size: nat)
  {
    function Size(): nat {
      if Write? then |buf| else size
    }

    /** What the parameter types can hold: a long and a size_t. */
    predicate Valid() {
      -0x8000_0000 <= offset < 0x8000_0000 && Word32(Size())
    }
  }

  /** Flash address of an offset into the device. */
  function DeviceAddr(offset: int): (a: nat)
    ensures Word32(a) && (a - START_128K - offset) % U32 == 0
    ensures 0 <= offset < 0x8000_0000 ==> a == START_128K + offset
  {
    (START_128K + offset) % U32
  }

  function Apply(chip: Chip, op: Op, hal: Hal): Chip
    requires |chip.mem| == ROM_SIZE && op.Valid()
  {
    match op
    case Read(_, _) => chip
    case Write(offset, buf) => FlashWrite(chip, DeviceAddr(offset), buf, hal).0
    case Erase(offset, size) => FlashErase(chip, DeviceAddr(offset), size, hal).0
  }

  ghost predicate BootLoaderSame(chip: Chip, chip': Chip) {
    |chip.mem| == |chip'.mem| == ROM_SIZE && chip'.mem[..BOOT_SIZE] == chip.mem[..BOOT_SIZE]
  }

  /** The operation is accepted, and erases a sector of the boot loader or means a byte
      other than 0xFF for it. */
  ghost predicate Reaches(op: Op)
    requires op.Valid()
  {
    var addr := DeviceAddr(op.offset);
    match op
    case Read(_, _) => false
    case Write(_, buf) => Accepted(addr, |buf|) && exists i :: 0 <= i < BOOT_SIZE && MeansFor(addr, buf, i)
    case Erase(_, size) =>
      Accepted(addr, size) && GetSector(addr) < 5 && GetSector(addr) <= LastSector(addr, size)
  }

  predicate MeansFor(addr: nat, buf: seq<bv8>, i: int)
    requires Word32(addr) && 0 <= i < ROM_SIZE
  {
    Above(addr, i) < |buf| && buf[Above(addr, i)] != 0xFF
  }

  /** What an operation that does not reach the boot loader leaves alone. */
  lemma UnreachedIsSame(chip: Chip, op: Op, hal: Hal)
    requires |chip.mem| == ROM_SIZE && op.Valid() && !Reaches(op)
    ensures BootLoaderSame(chip, Apply(chip, op, hal))
  {
    hide Plus, Above, WriteRun;
    var addr := DeviceAddr(op.offset);
    match op
    case Read(_, _) =>
    case Write(_, buf) =>
      if Accepted(addr, |buf|) {
        WriteKeeps(chip, addr, buf, 0, hal);
        var mem' := FlashWrite(chip, addr, buf, hal).0.mem;
        forall i | 0 <= i < BOOT_SIZE
          ensures mem'[i] == chip.mem[i]
        {
          assert !MeansFor(addr, buf, i);
        }
      }
    case Erase(_, size) =>
      if Accepted(addr, size) && GetSector(addr) <= LastSector(addr, size) {
        EraseRunEffect(chip, GetSector(addr), LastSector(addr, size) + 1, hal);
        assert SectorBase(GetSector(addr)) >= BOOT_SIZE;
      }
  }

  /** A chip of one byte only, and a HAL that never fails, for which the addresses
      outside the flash echo a buffer written from addr on. */
  function Uniform(b: bv8): Chip {
    Chip(seq(ROM_SIZE, _ => b), 0)
  }

  function EchoHal(addr: nat, buf: seq<bv8>): Hal {
    Hal(_ => Done, (n, a) =>
      var k := if a >= addr then a - addr else a - addr + U32;
      if 0 <= k < |buf| then buf[k] else 0)
  }

  lemma EchoHalUnit(calls: nat, addr: nat, buf: seq<bv8>, from: nat, n: nat)
    requires Word32(addr) && Word32(|buf|) && from + n <= |buf|
    ensures UnitEchoes(calls, addr, buf, from, n, EchoHal(addr, buf))
  {
  }

  lemma {:induction false} EchoHalEchoes(calls: nat, addr: nat, buf: seq<bv8>, written: nat)
    requires Word32(addr) && Word32(|buf|) && written <= |buf|
    ensures Echoes(calls, addr, buf, written, EchoHal(addr, buf))
    decreases |buf| - written
  {
    hide EchoHal, UnitEchoes, Plus, UnitWidth;
    if written < |buf| {
      UnitWidthFits(Plus(addr, written), |buf| - written);
      var n := UnitWidth(Plus(addr, written), |buf| - written);
      EchoHalUnit(calls + 1, addr, buf, written, n);
      EchoHalEchoes(calls + 1, addr, buf, written + n);
    }
  }

  lemma ReachingWriteHarms(addr: nat, buf: seq<bv8>, i: int)
    requires Word32(addr) && Word32(|buf|) && Accepted(addr, |buf|) && 0 <= i < ROM_SIZE && MeansFor(addr, buf, i)
    ensures var (chip', r) := FlashWrite(Uniform(0xFF), addr, buf, EchoHal(addr, buf));
      |chip'.mem| == ROM_SIZE && chip'.mem[i] != 0xFF
  {
    var chip, hal := Uniform(0xFF), EchoHal(addr, buf);
    EchoHalEchoes(0, addr, buf, 0);
    hide Plus, Above, Clears, Echoes, Tiling, FlashWrite;
    assert Programmable(chip.mem, addr, buf, 0) by {
      forall j | 0 <= j < ROM_SIZE && Above(addr, j) < |buf|
        ensures Clears(chip.mem[j], buf[Above(addr, j)])
      {
        ErasedTakesAll(buf[Above(addr, j)]);
      }
    }
    WriteResult(chip, addr, buf, hal);
  }

  lemma ReachingEraseHarms(addr: nat, size: nat)
    requires Word32(addr) && Word32(size) && Accepted(addr, size)
    requires GetSector(addr) < 5 && GetSector(addr) <= LastSector(addr, size)
    ensures var (chip', r) := FlashErase(Uniform(0), addr, size, EchoHal(0, []));
      |chip'.mem| == ROM_SIZE && chip'.mem[SectorBase(GetSector(addr))] == 0xFF
  {
    hide Plus, Accepted;
    var first, last := GetSector(addr), LastSector(addr, size);
    EraseRunEffect(Uniform(0), first, last + 1, EchoHal(0, []));
    BasesAscend(first, last + 1);
  }

  /** The boot loader is safe from an operation on the 128K device, on every chip and
      whatever fails, exactly when the operation does not reach it. */
  lemma SafeIff(op: Op)
    requires op.Valid()
    ensures (forall chip: Chip, hal: Hal :: |chip.mem| == ROM_SIZE ==> BootLoaderSame(chip, Apply(chip, op, hal)))
       <==> !Reaches(op)
  {
    hide FlashWrite, FlashErase, BootLoaderSame;
    if Reaches(op) {
      ReachingHarms(op);
    } else {
      forall chip: Chip, hal: Hal | |chip.mem| == ROM_SIZE
        ensures BootLoaderSame(chip, Apply(chip, op, hal))
      {
        UnreachedIsSame(chip, op, hal);
      }
    }
  }

  lemma ReachingHarms(op: Op)
    requires op.Valid() && Reaches(op)
    ensures exists chip: Chip, hal: Hal :: |chip.mem| == ROM_SIZE && !BootLoaderSame(chip, Apply(chip, op, hal))
  {
    hide FlashWrite, FlashErase, Plus, Above, Accepted;
    var addr := DeviceAddr(op.offset);
    match op {
      case Write(_, buf) =>
        var i :| 0 <= i < BOOT_SIZE && MeansFor(addr, buf, i);
        ReachingWriteHarms(addr, buf, i);
        ChangedByte(Uniform(0xFF), Apply(Uniform(0xFF), op, EchoHal(addr, buf)), i);
      case Erase(_, size) =>
        ReachingEraseHarms(addr, size);
        ChangedByte(Uniform(0), Apply(Uniform(0), op, EchoHal(0, [])), SectorBase(GetSector(addr)));
    }
  }

  lemma ChangedByte(chip: Chip, chip': Chip, i: int)
    requires |chip.mem| == |chip'.mem| == ROM_SIZE && 0 <= i < BOOT_SIZE && chip'.mem[i] != chip.mem[i]
    ensures !BootLoaderSame(chip, chip')
  {
    assert chip.mem[..BOOT_SIZE][i] != chip'.mem[..BOOT_SIZE][i];
  }

  /** From an offset that is not negative only sums that wrap around reach it: an erase
      of a start behind the flash whose end is in it or before it, and a write of nearly
      the whole address space. */
  lemma ReachedByWrappingOnly(op: Op)
    requires op.Valid() && op.offset >= 0
    ensures op.Erase? ==> (Reaches(op) <==>
      op.offset >= 0x000E_0000 && U32 <= START_128K + op.offset + op.size <= U32 + ROM_END)
    ensures op.Write? && Reaches(op) ==> START_128K + op.offset + |op.buf| > U32 + ROM_START
  {
    var addr := START_128K + op.offset;
    if op.Erase? && Accepted(addr, op.size) && addr < 0x0810_0000 {
      assert GetSector(addr) >= 5;
    }
  }

  /** Such an erase: it passes the check, erases the whole boot loader and returns a
      negative number. */
  lemma WrappedEraseTakesBootLoader(chip: Chip, hal: Hal)
    requires |chip.mem| == ROM_SIZE && AllDone(hal, chip.calls, 5)
    ensures var (chip', r) := FlashErase(chip, DeviceAddr(0x7FFF_FFFF), 0x8000_0000, hal);
      && r == -0x8000_0000
      && |chip'.mem| == ROM_SIZE && forall i :: 0 <= i < BOOT_SIZE ==> chip'.mem[i] == 0xFF
  {
    assert Accepted(0x8801_FFFF, 0x8000_0000) && GetSector(0x8801_FFFF) == 0;
    assert LastSector(0x8801_FFFF, 0x8000_0000) == 4;
    EraseRunEffect(chip, 0, 5, hal);
  }

  ghost predicate AllValid(ops: seq<Op>) {
    forall k :: 0 <= k < |ops| ==> ops[k].Valid()
  }

  lemma ApplyKeepsSize(chip: Chip, op: Op, hal: Hal)
    requires |chip.mem| == ROM_SIZE && op.Valid()
    ensures |Apply(chip, op, hal).mem| == ROM_SIZE
  {
    hide Plus, WriteRun;
    var addr := DeviceAddr(op.offset);
    match op
    case Read(_, _) =>
    case Write(_, buf) => WriteKeeps(chip, addr, buf, 0, hal);
    case Erase(_, size) =>
      if Accepted(addr, size) && GetSector(addr) <= LastSector(addr, size) {
        EraseRunEffect(chip, GetSector(addr), LastSector(addr, size) + 1, hal);
      }
  }

  function Run(chip: Chip, ops: seq<Op>, hal: Hal): (chip': Chip)
    requires |chip.mem| == ROM_SIZE && AllValid(ops)
    ensures |chip'.mem| == ROM_SIZE
    decreases |ops|
  {
    if ops == [] then chip
    else
      ApplyKeepsSize(chip, ops[0], hal);
      Run(Apply(chip, ops[0], hal), ops[1..], hal)
  }

  /** No sequence of operations on the 128K device that do not reach the boot loader,
      failing or not, changes a byte of it. */
  lemma {:induction false} BootLoaderUntouched(chip: Chip, ops: seq<Op>, hal: Hal)
    requires |chip.mem| == ROM_SIZE && AllValid(ops)
    requires forall k :: 0 <= k < |ops| ==> !Reaches(ops[k])
    ensures BootLoaderSame(chip, Run(chip, ops, hal))
    decreases |ops|
  {
    hide Apply, Reaches;
    if ops != [] {
      UnreachedIsSame(chip, ops[0], hal);
      BootLoaderUntouched(Apply(chip, ops[0], hal), ops[1..], hal);
    }
  }

  // ------------------------------------------------------ installing an image

  function Concat(chunks: seq<seq<bv8>>): seq<bv8> {
    if chunks == [] then [] else chunks[0] + Concat(chunks[1..])
  }

  /** Offsets of the image fit a long. */
  predicate Addressable(offset: nat, chunks: seq<seq<bv8>>) {
    offset + |Concat(chunks)| < 0x8000_0000
  }

  /** The flash after writes of consecutive chunks from `offset` on. */
  function AfterWrites(chip: Chip, offset: nat, chunks: seq<seq<bv8>>, hal: Hal): (chip': Chip)
    requires |chip.mem| == ROM_SIZE && Addressable(offset, chunks)
    ensures |chip'.mem| == ROM_SIZE
    decreases |chunks|
  {
    if chunks == [] then chip
    else
      ApplyKeepsSize(chip, Write(offset, chunks[0]), hal);
      AfterWrites(Apply(chip, Write(offset, chunks[0]), hal), offset + |chunks[0]|, chunks[1..], hal)
  }

  /** Each of these writes, unless empty, returns its length. */
  predicate WritesReturn(chip: Chip, offset: nat, chunks: seq<seq<bv8>>, hal: Hal)
    requires |chip.mem| == ROM_SIZE && Addressable(offset, chunks)
    decreases |chunks|
  {
    chunks == [] || (
      && (chunks[0] == [] || FlashWrite(chip, DeviceAddr(offset), chunks[0], hal).1 == |chunks[0]|)
      && (ApplyKeepsSize(chip, Write(offset, chunks[0]), hal);
          WritesReturn(Apply(chip, Write(offset, chunks[0]), hal), offset + |chunks[0]|, chunks[1..], hal)))
  }

  /** The device range from `offset` on, as offsets into the flash. */
  function At(offset: nat): nat {
    BOOT_SIZE + offset
  }

  /** The range holds the data and the rest is as before. */
  ghost predicate Stored(mem: seq<bv8>, mem': seq<bv8>, at: nat, data: seq<bv8>) {
    && |mem'| == |mem| && (data != [] ==> at + |data| <= |mem|)
    && (forall i :: at <= i < at + |data| ==> mem'[i] == data[i - at])
    && (forall i :: 0 <= i < |mem| && !(at <= i < at + |data|) ==> mem'[i] == mem[i])
  }

  lemma StoredInTurn(m0: seq<bv8>, m1: seq<bv8>, m2: seq<bv8>, at: nat, a: seq<bv8>, b: seq<bv8>)
    requires Stored(m0, m1, at, a) && Stored(m1, m2, at + |a|, b)
    ensures Stored(m0, m2, at, a + b)
  {
  }

  /** A write that returns its length has stored its buffer; an empty one is refused and
      changes nothing. */
  lemma ReturnedIsStored(chip: Chip, offset: nat, buf: seq<bv8>, hal: Hal)
    requires |chip.mem| == ROM_SIZE && offset + |buf| < 0x8000_0000
    requires buf == [] || FlashWrite(chip, DeviceAddr(offset), buf, hal).1 == |buf|
    ensures Stored(chip.mem, Apply(chip, Write(offset, buf), hal).mem, At(offset), buf)
  {
    hide WriteRun;
    if buf != [] {
      var addr := START_128K + offset;
      assert Inside(addr, |buf|);
      hide FlashWrite, Above, Clears, Tiling;
      WriteInside(chip, addr, buf, hal);
      var mem' := FlashWrite(chip, addr, buf, hal).0.mem;
      assert forall i :: At(offset) <= i < At(offset) + |buf| ==>
        mem'[i] == mem'[At(offset)..At(offset) + |buf|][i - At(offset)];
    }
  }

  lemma {:induction false} ReturnedChunksAreStored(chip: Chip, offset: nat, chunks: seq<seq<bv8>>, hal: Hal)
    requires |chip.mem| == ROM_SIZE && Addressable(offset, chunks) && WritesReturn(chip, offset, chunks, hal)
    ensures Stored(chip.mem, AfterWrites(chip, offset, chunks, hal).mem, At(offset), Concat(chunks))
    decreases |chunks|
  {
    hide Apply, FlashWrite, Stored;
    if chunks == [] {
      NothingStored(chip.mem, At(offset));
    } else {
      var buf, rest := chunks[0], chunks[1..];
      var chip1 := Apply(chip, Write(offset, buf), hal);
      ApplyKeepsSize(chip, Write(offset, buf), hal);
      ReturnedIsStored(chip, offset, buf, hal);
      ReturnedChunksAreStored(chip1, offset + |buf|, rest, hal);
      var chip2 := AfterWrites(chip1, offset + |buf|, rest, hal);
      StoredInTurn(chip.mem, chip1.mem, chip2.mem, At(offset), buf, Concat(rest));
    }
  }

  lemma NothingStored(mem: seq<bv8>, at: nat)
    ensures Stored(mem, mem, at, [])
  {
  }

  /** What the results of the writes tell, whatever the HAL does and whatever was in the
      flash: if each returns its length, then reading the range returns the image. */
  lemma InstallRoundTrip(chip: Chip, offset: nat, chunks: seq<seq<bv8>>, hal: Hal)
    requires |chip.mem| == ROM_SIZE && Addressable(offset, chunks) && Concat(chunks) != []
    requires WritesReturn(chip, offset, chunks, hal)
    ensures var image := Concat(chunks);
            var chip' := AfterWrites(chip, offset, chunks, hal);
      FlashRead(chip', DeviceAddr(offset), |image|, hal) == Some(image)
  {
    hide Apply, FlashWrite, FlashRead, AfterWrites, WritesReturn, Concat;
    ReturnedChunksAreStored(chip, offset, chunks, hal);
    var image := Concat(chunks);
    var chip' := AfterWrites(chip, offset, chunks, hal);
    ReadInside(chip', START_128K + offset, |image|, hal);
    assert chip'.mem[At(offset)..At(offset) + |image|] == image;
  }

  ghost predicate Erased(mem: seq<bv8>, at: nat, size: nat) {
    at + size <= |mem| && forall i :: at <= i < at + size ==> mem[i] == 0xFF
  }

  lemma ErasedTakesAll(d: bv8)
    ensures Clears(0xFF, d)
  {
  }

  /** One write to erased flash. */
  lemma WriteBlank(chip: Chip, offset: nat, buf: seq<bv8>, hal: Hal)
    requires |chip.mem| == ROM_SIZE && Erased(chip.mem, At(offset), |buf|) && buf != []
    requires forall n :: hal.outcome(n).Done?
    ensures FlashWrite(chip, DeviceAddr(offset), buf, hal).1 == |buf|
  {
    hide FlashWrite, Clears, Tiling;
    forall k | 0 <= k < |buf|
      ensures Clears(chip.mem[At(offset) + k], buf[k])
    {
      ErasedTakesAll(buf[k]);
    }
    WriteInside(chip, START_128K + offset, buf, hal);
  }

  lemma {:induction false} BlankTakesChunks(chip: Chip, offset: nat, chunks: seq<seq<bv8>>, hal: Hal)
    requires |chip.mem| == ROM_SIZE && Erased(chip.mem, At(offset), |Concat(chunks)|) && Addressable(offset, chunks)
    requires forall n :: hal.outcome(n).Done?
    ensures WritesReturn(chip, offset, chunks, hal)
    decreases |chunks|
  {
    hide Apply, FlashWrite;
    if chunks != [] {
      var buf, rest := chunks[0], chunks[1..];
      if buf != [] { WriteBlank(chip, offset, buf, hal); }
      ApplyKeepsSize(chip, Write(offset, buf), hal);
      ReturnedIsStored(chip, offset, buf, hal);
      BlankTakesChunks(Apply(chip, Write(offset, buf), hal), offset + |buf|, rest, hal);
    }
  }

  /** With a HAL that works, the writes do return their lengths, however the image is
      cut, once its range of the device has been erased. */
  lemma InstallSucceeds(chip: Chip, offset: nat, chunks: seq<seq<bv8>>, hal: Hal)
    requires |chip.mem| == ROM_SIZE && At(offset) + |Concat(chunks)| <= ROM_SIZE
    requires forall n :: hal.outcome(n).Done?
    ensures var chip1 := Apply(chip, Erase(offset, |Concat(chunks)|), hal);
      |chip1.mem| == ROM_SIZE && WritesReturn(chip1, offset, chunks, hal)
  {
    hide Apply, FlashWrite;
    var size := |Concat(chunks)|;
    ApplyKeepsSize(chip, Erase(offset, size), hal);
    EraseBlanks(chip, offset, size, hal);
    BlankTakesChunks(Apply(chip, Erase(offset, size), hal), offset, chunks, hal);
  }

  lemma EraseBlanks(chip: Chip, offset: nat, size: nat, hal: Hal)
    requires |chip.mem| == ROM_SIZE && At(offset) + size <= ROM_SIZE
    requires forall n :: hal.outcome(n).Done?
    ensures var mem' := Apply(chip, Erase(offset, size), hal).mem;
      |mem'| == ROM_SIZE && Erased(mem', At(offset), size)
  {
    hide FlashErase;
    ApplyKeepsSize(chip, Erase(offset, size), hal);
    var addr := START_128K + offset;
    if size >= 1 {
      EraseExact(chip, addr, size, hal);
      var mem' := Apply(chip, Erase(offset, size), hal).mem;
      forall i | At(offset) <= i < At(offset) + size
        ensures mem'[i] == 0xFF
      {
        assert addr <= ROM_START + i < addr + size;
        assert InErasedSector(addr, size, i);
      }
    }
  }

  // ------------------------------------------------------------- the driver

  class Flash {
    const hal: Hal
    const mem: array<bv8>
    var calls: nat

    constructor (hal: Hal, image: seq<bv8>)
      requires |image| == ROM_SIZE
      ensures Valid() && this.hal == hal && mem[..] == image && calls == 0 && fresh(mem)
    {
      this.hal := hal;
      mem := new bv8[|image|](i requires 0 <= i < |image| => image[i]);
      calls := 0;
    }

    ghost predicate Valid()
      reads this
    {
      mem.Length == ROM_SIZE
    }

    ghost function State(): Chip
      reads this, mem
    {
      Chip(mem[..], calls)
    }

    /** The byte at an address. */
    function Load(a: nat): (b: bv8)
      requires Valid()
      reads this, mem
      ensures b == ByteAt(State(), a, hal)
    {
      if InFlash(a) then mem[a - ROM_START] else hal.elsewhere(calls, a)
    }

    /** HAL_FLASH_Program of the n bytes of the buffer at `written`. */
    method Program(addr: nat, buf: seq<bv8>, written: nat, n: nat) returns (ok: bool)
      requires Valid() && Word32(addr) && written + n <= |buf|
      modifies mem, `calls
      ensures State() ==
        Chip(AfterProgram(old(mem[..]), addr, buf, written, n, hal.outcome(old(calls))), old(calls) + 1)
      ensures ok == hal.outcome(old(calls)).Done?
    {
      hide Programmed, Above, Plus;
      var o := hal.outcome(calls);
      forall i | 0 <= i < ROM_SIZE && written <= Above(addr, i) < written + n {
        mem[i] := Programmed(mem[i], buf[Above(addr, i)], o, i);
      }
      calls := calls + 1;
      assert mem[..] == AfterProgram(old(mem[..]), addr, buf, written, n, o);
      ok := o.Done?;
    }

    /** One unit of the write loop: program n bytes and read them back. */
    method ProgramAndVerify(addr: nat, buf: seq<bv8>, written: nat, n: nat) returns (ok: bool)
      requires Valid() && Word32(addr) && Word32(|buf|) && written + n <= |buf|
      modifies mem, `calls
      ensures (State(), ok) == WriteUnit(old(State()), addr, buf, written, n, hal)
    {
      hide AfterProgram, ByteAt, Plus;
      ok := Program(addr, buf, written, n);
      if ok {
        ok := forall k :: written <= k < written + n ==> Load(Plus(addr, k)) == buf[k];
      }
    }

    /** The sector loop of HAL_FLASHEx_Erase; first + count wraps around. */
    method EraseSectors(first: nat, count: nat) returns (ok: bool)
      requires Valid() && Plus(first, count) <= 8
      modifies mem, `calls
      ensures EraseEnd(State(), ok) == ErasePart(old(State()), first, Plus(first, count), hal)
    {
      ok := true;
      var s := first;
      var end := Plus(first, count);
      hide ErasePart;
      while s < end
        invariant first <= s && (s == first || s <= end) && ok
        invariant ErasePart(old(State()), first, end, hal) == ErasePart(State(), s, end, hal)
        decreases end + first - s
      {
        ErasePartStep(State(), s, end, hal);
        ok := EraseSector(s);
        if !ok {
          break;
        }
        s := s + 1;
      }
      if ok { NothingToErase(State(), s, end, hal); }
    }

    method EraseSector(s: nat) returns (ok: bool)
      requires Valid() && s < 8
      modifies mem, `calls
      ensures State() == Chip(AfterErase(old(mem[..]), s, hal.outcome(old(calls))), old(calls) + 1)
      ensures ok == hal.outcome(old(calls)).Done?
    {
      var o := hal.outcome(calls);
      BasesAscend(s, 8);
      forall i | SectorBase(s) <= i < SectorBase(s + 1) {
        mem[i] := match o case Done => 0xFF case Failed(residue) => residue(i);
      }
      calls := calls + 1;
      ok := o.Done?;
      assert mem[..] == AfterErase(old(mem[..]), s, o);
    }

    /** stm32_flash_read: copies the bytes, or refuses a range that ends behind the flash. */
    method ReadInto(addr: nat, buf: array<bv8>) returns (r: int)
      requires Valid() && Word32(addr) && Word32(buf.Length) && buf != mem
      modifies buf
      ensures if (addr + buf.Length) % U32 > ROM_END then r == -1 && buf[..] == old(buf[..])
        else r == ToInt32(buf.Length) && FlashRead(State(), addr, buf.Length, hal) == Some(buf[..])
    {
      hide Plus, ByteAt;
      if Plus(addr, buf.Length) > ROM_END {
        return -1;
      }
      var i := 0;
      while i < buf.Length
        invariant 0 <= i <= buf.Length
        invariant forall k :: 0 <= k < i ==> buf[k] == ByteAt(State(), Plus(addr, k), hal)
        invariant State() == old(State())
      {
        buf[i] := Load(Plus(addr, i));
        i := i + 1;
      }
      assert FlashRead(State(), addr, buf.Length, hal).value == buf[..];
      return ToInt32(buf.Length);
    }

    /** stm32_flash_write. */
    method WriteFrom(addr: nat, buf: seq<bv8>) returns (r: int)
      requires Valid() && Word32(addr) && Word32(|buf|)
      modifies mem, `calls
      ensures (State(), r) == FlashWrite(old(State()), addr, buf, hal)
    {
      hide WriteUnit, WriteRun, Plus;
      var result := 0;
      var end_addr := Plus(addr, |buf|);
      var written := 0;
      if end_addr > ROM_END {
        return -RT_EINVAL;
      }
      if |buf| < 1 {
        return -RT_EINVAL;
      }
      while written < |buf|
        invariant 0 <= written <= |buf| && result == 0
        invariant WriteRun(old(State()), addr, buf, 0, hal) == WriteRun(State(), addr, buf, written, hal)
      {
        var width;
        if Plus(addr, written) % 4 == 0 && |buf| - written >= 4 {
          width := 4;
        } else if Plus(addr, written) % 2 == 0 && |buf| - written >= 2 {
          width := 2;
        } else {
          width := 1;
        }
        ghost var before := State();
        WriteRunStep(before, addr, buf, written, hal);
        var ok := ProgramAndVerify(addr, buf, written, width);
        if !ok {
          result := -RT_ERROR;
          break;
        }
        written := written + width;
      }
      WriteRunEnds(State(), addr, buf, hal);
      if result != 0 {
        return result;
      }
      return ToInt32(|buf|);
    }

    /** stm32_flash_erase. */
    method EraseRange(addr: nat, size: nat) returns (r: int)
      requires Valid() && Word32(addr) && Word32(size)
      modifies mem, `calls
      ensures (State(), r) == FlashErase(old(State()), addr, size, hal)
    {
      if Plus(addr, size) > ROM_END {
        return -RT_EINVAL;
      }
      if size < 1 {
        return -RT_EINVAL;
      }
      var first := GetSector(addr);
      var count := (GetSector(Plus(addr, size - 1)) - first + 1) % U32;
      SectorCount(first, LastSector(addr, size));
      var ok := EraseSectors(first, count);
      if !ok {
        return -RT_ERROR;
      }
      return ToInt32(size);
    }

    method Write128K(offset: int, buf: seq<bv8>) returns (r: int)
      requires Valid() && Write(offset, buf).Valid()
      modifies mem, `calls
      ensures State() == Apply(old(State()), Write(offset, buf), hal)
      ensures r == FlashWrite(old(State()), DeviceAddr(offset), buf, hal).1
    {
      r := WriteFrom(DeviceAddr(offset), buf);
    }

    method Erase128K(offset: int, size: nat) returns (r: int)
      requires Valid() && Erase(offset, size).Valid()
      modifies mem, `calls
      ensures State() == Apply(old(State()), Erase(offset, size), hal)
      ensures r == FlashErase(old(State()), DeviceAddr(offset), size, hal).1
    {
      r := EraseRange(DeviceAddr(offset), size);
    }
  }

  lemma ErasePartStep(chip: Chip, s: nat, end: nat, hal: Hal)
    requires s < end <= 12
    ensures var o := hal.outcome(chip.calls);
            var chip' := Chip(AfterErase(chip.mem, s, o), chip.calls + 1);
      ErasePart(chip, s, end, hal) == if o.Done? then ErasePart(chip', s + 1, end, hal) else EraseEnd(chip', false)
  {
    hide AfterErase;
    var o := hal.outcome(chip.calls);
    var chip' := Chip(AfterErase(chip.mem, s, o), chip.calls + 1);
    assert EraseRun(chip, s, end, hal) == if o.Done? then EraseRun(chip', s + 1, end, hal) else EraseEnd(chip', false);
    assert s + 1 == end ==> EraseRun(chip', end, end, hal) == EraseEnd(chip', true);
  }

  lemma NothingToErase(chip: Chip, s: nat, end: nat, hal: Hal)
    requires end <= s && end <= 12
    ensures ErasePart(chip, s, end, hal) == EraseEnd(chip, true)
  {
  }

  /** Adding the number of sectors to the first undoes the wrap-around of taking it. */
  lemma SectorCount(first: nat, last: nat)
    requires first < 12 && last < 8
    ensures var count := (last - first + 1) % U32;
      0 <= count && Plus(first, count) == last + 1
  {
  }
}
