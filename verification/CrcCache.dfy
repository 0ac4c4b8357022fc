/**
 The CRC engine shared by several contexts.  `crc_backup_cfg` remembers the
 configuration of the last update so that the next one can skip programming the
 engine.  The engine is abstract: initialising it loads a set-up and an initial
 value, accumulating bytes moves the raw register by an arbitrary function of the
 set-up, resetting puts the initial value back, and reading it reverses the bits if
 output inversion is on.
 */
module CrcCache {
  const CRC_FLAG_REFIN := 1
  const CRC_FLAG_REFOUT := 2

  // ---------------------------------------------------------- reverse_bit

  function ReverseBit(n0: bv32): bv32 {
    var n1 := ((n0 >> 1) & 0x5555_5555) | ((n0 << 1) & 0xaaaa_aaaa);
    var n2 := ((n1 >> 2) & 0x3333_3333) | ((n1 << 2) & 0xcccc_cccc);
    var n3 := ((n2 >> 4) & 0x0f0f_0f0f) | ((n2 << 4) & 0xf0f0_f0f0);
    var n4 := ((n3 >> 8) & 0x00ff_00ff) | ((n3 << 8) & 0xff00_ff00);
    ((n4 >> 16) & 0x0000_ffff) | ((n4 << 16) & 0xffff_0000)
  }

  function Bit(n: bv32, i: bv6): bv32
    requires i < 32
  {
    (n >> i) & 1
  }

  /** The five swaps mirror the word: bit i becomes bit 31 - i. */
  lemma ReverseBitMirrors(n: bv32, i: bv6)
    requires i < 32
    ensures Bit(ReverseBit(n), i) == Bit(n, 31 - i)
  {
  }

  lemma ReverseBitTwice(n: bv32)
    ensures ReverseBit(ReverseBit(n)) == n
  {
  }

  // -------------------------------------------------- contexts and engine

  datatype Cfg = Cfg(last_val: bv32, poly: bv32, width: nat, xorout: bv32, flags: nat)

  /** The parts of a CRC handle that survive from one update to the next: the
      inversion modes, which not every value of `flags` rewrites, and whether the
      handle has been initialised.  The other Init fields are rewritten from the
      configuration before each use. */
  datatype Handle = Handle(inByte: bool, outRev: bool, ready: bool)

  datatype Context = Context(cfg: Cfg, handle: Handle)

  datatype Setup = Setup(poly: bv32, length: nat, inByte: bool, outRev: bool)

  /** The registers: set-up, initial value and data. */
  datatype Engine = Engine(setup: Setup, init: bv32, raw: bv32)

  /** The raw register after feeding bytes to the engine. */
  type Feed = (Setup, bv32, seq<bv8>) -> bv32

  datatype System = System(backup: Cfg, engine: Engine, ctxs: seq<Context>)

  /** The two switch statements: the handle they leave and whether both found a case. */
  function Prepare(c: Context): (Handle, bool) {
    var h := c.handle;
    if c.cfg.flags == 0 then (h.(inByte := false, outRev := false), ValidWidth(c.cfg.width))
    else if c.cfg.flags == CRC_FLAG_REFIN then (h.(inByte := true), ValidWidth(c.cfg.width))
    else if c.cfg.flags == CRC_FLAG_REFOUT then (h.(outRev := true), ValidWidth(c.cfg.width))
    else if c.cfg.flags == CRC_FLAG_REFIN + CRC_FLAG_REFOUT then
      (h.(inByte := true, outRev := true), ValidWidth(c.cfg.width))
    else (h, false)
  }

  predicate ValidWidth(width: nat) {
    width == 7 || width == 8 || width == 16 || width == 32
  }

  /** HAL_CRC_Init: writing the initial value puts it into the raw register as it is. */
  function Load(cfg: Cfg, h: Handle): Engine {
    Engine(Setup(cfg.poly, cfg.width, h.inByte, h.outRev), cfg.last_val, cfg.last_val)
  }

  function Mirrored(reverse: bool, x: bv32): bv32 {
    if reverse then ReverseBit(x) else x
  }

  /** A zero result is returned without the final exclusive-or. */
  function XorOut(result: bv32, xorout: bv32): bv32 {
    if result != 0 then result ^ xorout else result
  }

  /** The engine has moved to `raw`; context and backup take over last_val. */
  function Remember(s: System, i: nat, raw: bv32, last_val: bv32): System
    requires i < |s.ctxs|
  {
    var c := s.ctxs[i];
    System(
      s.backup.(last_val := last_val),
      s.engine.(raw := raw),
      s.ctxs[i := c.(cfg := c.cfg.(last_val := last_val))])
  }

  /** HAL_CRC_Accumulate and everything after it, for a handle that may not be ready. */
  function Accumulate(feed: Feed, s: System, i: nat, data: seq<bv8>): (System, bv32)
    requires i < |s.ctxs|
  {
    var c := s.ctxs[i];
    if !c.handle.ready then (s, 0)
    else
      var raw := feed(s.engine.setup, s.engine.raw, data);
      var result := Mirrored(s.engine.setup.outRev, raw);
      (Remember(s, i, raw, Mirrored(c.handle.outRev, result)), XorOut(result, c.cfg.xorout))
  }

  /** Programs the engine for context i, or fails leaving only its handle changed. */
  function Initialise(s: System, i: nat): (System, bool)
    requires i < |s.ctxs|
  {
    var c := s.ctxs[i];
    var (h, ok) := Prepare(c);
    if !ok then (s.(ctxs := s.ctxs[i := c.(handle := h)]), false)
    else (System(c.cfg, Load(c.cfg, h), s.ctxs[i := c.(handle := h.(ready := true))]), true)
  }

  /** An update that always programs the engine first. */
  function AlwaysInit(feed: Feed, s: System, i: nat, data: seq<bv8>): (System, bv32)
    requires i < |s.ctxs|
  {
    var (s1, ok) := Initialise(s, i);
    if !ok then (s1, 0) else Accumulate(feed, s1, i, data)
  }

  /** _crc_update: programming is skipped if the backup equals the configuration. */
  function Cached(feed: Feed, s: System, i: nat, data: seq<bv8>): (System, bv32)
    requires i < |s.ctxs|
  {
    if s.backup != s.ctxs[i].cfg then AlwaysInit(feed, s, i, data)
    else Accumulate(feed, s, i, data)
  }

  lemma MirroredBit(reverse: bool, x: bv32, b: bv6)
    requires b < 32
    ensures Bit(Mirrored(reverse, x), b) == Bit(x, if reverse then 31 - b else b)
  {
    hide Bit, ReverseBit;
    ReverseBitMirrors(x, b);
  }

  lemma MirroredZero(reverse: bool, x: bv32)
    ensures Mirrored(reverse, x) == 0 <==> x == 0
  {
    ReverseBitZero();
    hide ReverseBit;
    ReverseBitTwice(x);
  }

  lemma ReverseBitZero()
    ensures ReverseBit(0) == 0
  {
  }

  lemma XorBit(x: bv32, y: bv32, b: bv6)
    requires b < 32
    ensures Bit(x ^ y, b) == Flipped(Bit(x, b), Bit(y, b))
  {
  }

  /** A bit, flipped if the other one is 1. */
  function Flipped(bit: bv32, flip: bv32): bv32 {
    if flip == 1 then 1 - bit else bit
  }

  /** An update is refused by a hit whose handle is not ready, and by a miss whose flags
      or width have no case. */
  predicate Refused(s: System, i: nat)
    requires i < |s.ctxs|
  {
    var c := s.ctxs[i];
    if s.backup == c.cfg then !c.handle.ready
    else c.cfg.flags > 3 || (c.cfg.width != 7 && c.cfg.width != 8 && c.cfg.width != 16 && c.cfg.width != 32)
  }

  /** A refused update returns 0; only the modes of the handle may have changed. */
  lemma RefusedUpdate(feed: Feed, s: System, i: nat, data: seq<bv8>)
    requires i < |s.ctxs| && Refused(s, i)
    ensures var (s', r) := Cached(feed, s, i, data);
      && r == 0 && s'.engine == s.engine && s'.backup == s.backup
      && |s'.ctxs| == |s.ctxs|
      && s'.ctxs[i].cfg == s.ctxs[i].cfg && s'.ctxs[i].handle.ready == s.ctxs[i].handle.ready
      && forall j :: 0 <= j < |s.ctxs| && j != i ==> s'.ctxs[j] == s.ctxs[j]
  {
    hide ReverseBit;
  }

  /** Any other update feeds the data to the engine, on from its own register if it hits
      and from the remembered value, with the set-up of the configuration, if it misses. */
  lemma UpdateFeedsEngine(feed: Feed, s: System, i: nat, data: seq<bv8>)
    requires i < |s.ctxs| && !Refused(s, i)
    ensures var c, s' := s.ctxs[i], Cached(feed, s, i, data).0;
            var h, hit := s'.ctxs[i].handle, s.backup == c.cfg;
      && |s'.ctxs| == |s.ctxs|
      && s'.engine.setup == (if hit then s.engine.setup else Setup(c.cfg.poly, c.cfg.width, h.inByte, h.outRev))
      && s'.engine.init == (if hit then s.engine.init else c.cfg.last_val)
      && s'.engine.raw == feed(s'.engine.setup, if hit then s.engine.raw else c.cfg.last_val, data)
      && h.ready
      && h.inByte == (if hit || c.cfg.flags == 2 then c.handle.inByte else c.cfg.flags != 0)
      && h.outRev == (if hit || c.cfg.flags == 1 then c.handle.outRev else c.cfg.flags != 0)
      && s'.backup == s'.ctxs[i].cfg == c.cfg.(last_val := s'.backup.last_val)
      && forall j :: 0 <= j < |s.ctxs| && j != i ==> s'.ctxs[j] == s.ctxs[j]
  {
    hide ReverseBit, XorOut, Mirrored;
  }

  lemma UpdateReads(feed: Feed, s: System, i: nat, data: seq<bv8>)
    requires i < |s.ctxs| && !Refused(s, i)
    ensures var (s', r) := Cached(feed, s, i, data);
            var x := Mirrored(s'.engine.setup.outRev, s'.engine.raw);
      && |s'.ctxs| == |s.ctxs|
      && r == XorOut(x, s.ctxs[i].cfg.xorout)
      && s'.backup.last_val == Mirrored(s'.ctxs[i].handle.outRev, x)
  {
    hide ReverseBit, Mirrored, XorOut;
  }

  /** What an update returns and remembers, bit by bit.  The result is 0 if the register
      is; any other register is read, mirrored if the output is inverted, and each bit is
      flipped where xorout has a 1.  The value remembered is the register, mirrored if
      engine and handle disagree about inversion. */
  lemma UpdateResult(feed: Feed, s: System, i: nat, data: seq<bv8>)
    requires i < |s.ctxs| && !Refused(s, i)
    ensures var (s', r) := Cached(feed, s, i, data);
            var raw, out := s'.engine.raw, s'.engine.setup.outRev;
      && |s'.ctxs| == |s.ctxs|
      && (raw == 0 ==> r == 0)
      && (raw != 0 ==> forall b: bv6 :: b < 32 ==>
            Bit(r, b) == Flipped(Bit(raw, if out then 31 - b else b), Bit(s.ctxs[i].cfg.xorout, b)))
      && (forall b: bv6 :: b < 32 ==>
            Bit(s'.backup.last_val, b) == Bit(raw, if out != s'.ctxs[i].handle.outRev then 31 - b else b))
  {
    hide Cached, Mirrored, XorOut, Bit, Flipped, ReverseBit;
    UpdateReads(feed, s, i, data);
    var (s', r) := Cached(feed, s, i, data);
    ResultBits(r, s'.engine.raw, s'.engine.setup.outRev, s.ctxs[i].cfg.xorout);
    RememberedBits(s'.backup.last_val, s'.engine.raw, s'.engine.setup.outRev, s'.ctxs[i].handle.outRev);
  }

  lemma ResultBits(r: bv32, raw: bv32, out: bool, xorout: bv32)
    requires r == XorOut(Mirrored(out, raw), xorout)
    ensures raw == 0 ==> r == 0
    ensures raw != 0 ==> forall b: bv6 :: b < 32 ==>
      Bit(r, b) == Flipped(Bit(raw, if out then 31 - b else b), Bit(xorout, b))
  {
    MirroredZero(out, raw);
    hide Mirrored, Bit, Flipped;
    forall b: bv6 | b < 32 && raw != 0
      ensures Bit(r, b) == Flipped(Bit(raw, if out then 31 - b else b), Bit(xorout, b))
    {
      MirroredBit(out, raw, b);
      XorBit(Mirrored(out, raw), xorout, b);
    }
  }

  lemma RememberedBits(value: bv32, raw: bv32, out: bool, own: bool)
    requires value == Mirrored(own, Mirrored(out, raw))
    ensures forall b: bv6 :: b < 32 ==> Bit(value, b) == Bit(raw, if out != own then 31 - b else b)
  {
    hide Mirrored, Bit;
    forall b: bv6 | b < 32
      ensures Bit(value, b) == Bit(raw, if out != own then 31 - b else b)
    {
      MirroredBit(own, Mirrored(out, raw), b);
      MirroredBit(out, raw, if own then 31 - b else b);
    }
  }

  /** The two cases together, for the method. */
  lemma UpdateOutcome(feed: Feed, s: System, i: nat, data: seq<bv8>)
    requires i < |s.ctxs|
    ensures var (s', r) := Cached(feed, s, i, data);
            var e, hit, cfg := s'.engine, s.backup == s.ctxs[i].cfg, s.ctxs[i].cfg;
      if Refused(s, i) then r == 0 && e == s.engine && s'.backup == s.backup
      else
        && e.raw == feed(e.setup, if hit then s.engine.raw else cfg.last_val, data)
        && (e.raw == 0 ==> r == 0)
        && (e.raw != 0 ==> forall b: bv6 :: b < 32 ==>
              Bit(r, b) == Flipped(Bit(e.raw, if e.setup.outRev then 31 - b else b), Bit(cfg.xorout, b)))
  {
    hide Cached, Refused, Bit, Flipped;
    if Refused(s, i) {
      RefusedUpdate(feed, s, i, data);
    } else {
      UpdateFeedsEngine(feed, s, i, data);
      UpdateResult(feed, s, i, data);
    }
  }

  // ------------------------------------------------------------ invariant

  /** The backup names the set-up loaded in the engine. */
  ghost predicate Loaded(backup: Cfg, e: Engine) {
    && ValidWidth(backup.width)
    && backup.flags <= 3
    && e.setup.poly == backup.poly
    && e.setup.length == backup.width
    && (backup.flags == 0 ==> !e.setup.inByte && !e.setup.outRev)
    && (backup.flags == CRC_FLAG_REFIN || backup.flags == 3 ==> e.setup.inByte)
    && (backup.flags == CRC_FLAG_REFOUT || backup.flags == 3 ==> e.setup.outRev)
  }

  /** The value the backup remembers is the raw register. */
  predicate InStep(s: System) {
    s.engine.raw == s.backup.last_val
  }

  /** Before the first successful update nothing is loaded and no handle is ready. */
  ghost predicate Synced(s: System) {
    Loaded(s.backup, s.engine) || forall i :: 0 <= i < |s.ctxs| ==> !s.ctxs[i].handle.ready
  }

  predicate Hit(s: System, i: nat)
    requires i < |s.ctxs|
  {
    s.backup == s.ctxs[i].cfg
  }

  /** The handle is ready and has the inversion modes that the engine is using. */
  predicate HandleFits(s: System, i: nat)
    requires i < |s.ctxs|
  {
    var h := s.ctxs[i].handle;
    h.ready && h.inByte == s.engine.setup.inByte && h.outRev == s.engine.setup.outRev
  }

  /** What a hit needs. */
  predicate Settled(s: System, i: nat)
    requires i < |s.ctxs|
  {
    HandleFits(s, i) && InStep(s)
  }

  /** The same but for the engine's data and initial value, which an update that
      programs the engine does not look at. */
  predicate Agree(s: System, t: System) {
    s.backup == t.backup && s.ctxs == t.ctxs && s.engine.setup == t.engine.setup
  }

  /** Skipping the initialisation changes neither the result nor what is remembered. */
  predicate SameUpdate(feed: Feed, s: System, i: nat, data: seq<bv8>)
    requires i < |s.ctxs|
  {
    var (c, rc) := Cached(feed, s, i, data);
    var (a, ra) := AlwaysInit(feed, s, i, data);
    Agree(c, a) && rc == ra
  }

  /** With the engine's output inverted or not, the value remembered is the raw
      register itself. */
  lemma AccumulateKeepsInStep(feed: Feed, s: System, i: nat, data: seq<bv8>)
    requires i < |s.ctxs| && Loaded(s.backup, s.engine) && HandleFits(s, i)
    ensures var s' := Accumulate(feed, s, i, data).0;
      Loaded(s'.backup, s'.engine) && InStep(s') && |s'.ctxs| == |s.ctxs|
  {
    ReverseBitTwice(feed(s.engine.setup, s.engine.raw, data));
  }

  lemma CachedKeepsSynced(feed: Feed, s: System, i: nat, data: seq<bv8>)
    requires i < |s.ctxs| && Synced(s) && (Hit(s, i) ==> HandleFits(s, i))
    ensures var s' := Cached(feed, s, i, data).0;
      Synced(s') && |s'.ctxs| == |s.ctxs| && (InStep(s) ==> InStep(s'))
  {
    hide ReverseBit;
    if Hit(s, i) {
      AccumulateKeepsInStep(feed, s, i, data);
    } else {
      var (s1, ok) := Initialise(s, i);
      if ok {
        AccumulateKeepsInStep(feed, s1, i, data);
      } else {
        assert forall j :: 0 <= j < |s.ctxs| ==> s1.ctxs[j].handle.ready == s.ctxs[j].handle.ready;
      }
    }
  }

  lemma AccumulateFits(feed: Feed, s: System, i: nat, data: seq<bv8>)
    requires i < |s.ctxs| && HandleFits(s, i)
    ensures var raw := feed(s.engine.setup, s.engine.raw, data);
      Accumulate(feed, s, i, data) ==
        (Remember(s, i, raw, raw), XorOut(Mirrored(s.engine.setup.outRev, raw), s.ctxs[i].cfg.xorout))
  {
    var raw := feed(s.engine.setup, s.engine.raw, data);
    ReverseBitTwice(raw);
    hide ReverseBit, XorOut;
  }

  /** Programming an engine that a fitting handle hits only puts the remembered value in. */
  lemma InitialiseFits(s: System, i: nat)
    requires i < |s.ctxs| && Loaded(s.backup, s.engine) && Hit(s, i) && HandleFits(s, i)
    ensures Initialise(s, i)
         == (s.(engine := Engine(s.engine.setup, s.backup.last_val, s.backup.last_val)), true)
  {
    assert Initialise(s, i).0.ctxs == s.ctxs;
  }

  lemma FittingHits(feed: Feed, s: System, s1: System, i: nat, data: seq<bv8>)
    requires i < |s.ctxs| && HandleFits(s, i)
    requires s1 == s.(engine := Engine(s.engine.setup, s.backup.last_val, s.backup.last_val))
    ensures var (c, rc) := Accumulate(feed, s, i, data);
            var (a, ra) := Accumulate(feed, s1, i, data);
      Agree(c, a) && rc == ra
      <==> feed(s.engine.setup, s.engine.raw, data) == feed(s.engine.setup, s.backup.last_val, data)
  {
    AccumulateFits(feed, s, i, data);
    AccumulateFits(feed, s1, i, data);
    hide ReverseBit, XorOut, Mirrored, Accumulate;
  }

  /** Where the handle does not fit, the two differ in the handle or in the set-up. */
  lemma UnfitHitDiffers(feed: Feed, s: System, i: nat, data: seq<bv8>)
    requires i < |s.ctxs| && Loaded(s.backup, s.engine) && Hit(s, i) && !HandleFits(s, i)
    ensures !SameUpdate(feed, s, i, data)
  {
    hide ReverseBit, XorOut, Mirrored;
    var c := s.ctxs[i];
    var (s1, ok) := Initialise(s, i);
    var cached, always := Cached(feed, s, i, data).0, AlwaysInit(feed, s, i, data).0;
    assert ok && s1.ctxs[i].handle.ready && HandleFits(s1, i);
    assert always.ctxs[i].handle == s1.ctxs[i].handle && always.engine.setup == s1.engine.setup;
    assert cached.ctxs[i].handle == c.handle && cached.engine.setup == s.engine.setup;
  }

  /** An update is the same as an always initialising one exactly when it misses, or its
      handle fits the engine and the engine makes the same of its own raw register as
      of the remembered value. */
  lemma SameAsAlwaysInitIff(feed: Feed, s: System, i: nat, data: seq<bv8>)
    requires i < |s.ctxs| && Loaded(s.backup, s.engine)
    ensures SameUpdate(feed, s, i, data)
       <==> (Hit(s, i) ==>
              && HandleFits(s, i)
              && feed(s.engine.setup, s.engine.raw, data) == feed(s.engine.setup, s.backup.last_val, data))
  {
    hide ReverseBit, XorOut, Mirrored, Accumulate, Initialise, Loaded, HandleFits;
    if Hit(s, i) {
      if HandleFits(s, i) {
        InitialiseFits(s, i);
        FittingHits(feed, s, Initialise(s, i).0, i, data);
      } else {
        UnfitHitDiffers(feed, s, i, data);
      }
    }
  }

  /** It is the same for every engine and all data exactly when it misses or its hit is
      settled. */
  lemma AlwaysSameIff(s: System, i: nat)
    requires i < |s.ctxs| && Loaded(s.backup, s.engine)
    ensures (forall feed: Feed, data: seq<bv8> :: SameUpdate(feed, s, i, data)) <==> !Hit(s, i) || Settled(s, i)
  {
    hide SameUpdate;
    forall feed: Feed, data: seq<bv8>
      ensures SameUpdate(feed, s, i, data)
         <==> (Hit(s, i) ==>
                && HandleFits(s, i)
                && feed(s.engine.setup, s.engine.raw, data) == feed(s.engine.setup, s.backup.last_val, data))
    {
      SameAsAlwaysInitIff(feed, s, i, data);
    }
    var keep: Feed := (_, raw, _) => raw;
    assert SameUpdate(keep, s, i, []) ==> Hit(s, i) ==> Settled(s, i);
  }

  // ------------------------------------------------------------ whole runs

  /** An update of context i, the user giving it another configuration, and the user
      resetting or destroying it. */
  datatype Op =
    | Update(i: nat, data: seq<bv8>)
    | Configure(i: nat, cfg: Cfg)
    | Reset(i: nat)
    | Destroy(i: nat)

  /** __HAL_CRC_DR_RESET: the data register of the one engine, whosever it was. */
  function ResetData(s: System): System {
    s.(engine := s.engine.(raw := s.engine.init))
  }

  function Step(feed: Feed, s: System, op: Op, cached: bool): (System, seq<bv32>)
    requires op.i < |s.ctxs|
  {
    match op
    case Update(i, data) =>
      var (s', r) := if cached then Cached(feed, s, i, data) else AlwaysInit(feed, s, i, data);
      (s', [r])
    case Configure(i, cfg) => (s.(ctxs := s.ctxs[i := s.ctxs[i].(cfg := cfg)]), [])
    case Reset(_) => (ResetData(s), [])
    case Destroy(i) =>
      var c := s.ctxs[i];
      (ResetData(s).(ctxs := s.ctxs[i := c.(handle := c.handle.(ready := false))]), [])
  }

  ghost predicate InRange(ops: seq<Op>, n: nat) {
    forall k :: 0 <= k < |ops| ==> ops[k].i < n
  }

  lemma StepKeepsContexts(feed: Feed, s: System, op: Op, cached: bool)
    requires op.i < |s.ctxs|
    ensures |Step(feed, s, op, cached).0.ctxs| == |s.ctxs|
  {
  }

  /** The final state and the results of all updates. */
  function Run(feed: Feed, s: System, ops: seq<Op>, cached: bool): (System, seq<bv32>)
    requires InRange(ops, |s.ctxs|)
    decreases |ops|
  {
    if ops == [] then (s, [])
    else
      StepKeepsContexts(feed, s, ops[0], cached);
      var (s1, r1) := Step(feed, s, ops[0], cached);
      var (s2, r2) := Run(feed, s1, ops[1..], cached);
      (s2, r1 + r2)
  }

  /** Every hit of the run is settled when it comes. */
  ghost predicate HitsSettled(feed: Feed, s: System, ops: seq<Op>)
    requires InRange(ops, |s.ctxs|)
    decreases |ops|
  {
    ops == [] || (
      && (ops[0].Update? && Hit(s, ops[0].i) ==> Settled(s, ops[0].i))
      && (StepKeepsContexts(feed, s, ops[0], true);
          HitsSettled(feed, Step(feed, s, ops[0], true).0, ops[1..])))
  }

  lemma AlwaysInitAgrees(feed: Feed, s: System, t: System, i: nat, data: seq<bv8>)
    requires i < |s.ctxs| && Agree(s, t)
    ensures Agree(AlwaysInit(feed, s, i, data).0, AlwaysInit(feed, t, i, data).0)
    ensures AlwaysInit(feed, s, i, data).1 == AlwaysInit(feed, t, i, data).1
  {
    hide ReverseBit;
  }

  /** One operation, from states that agree. */
  lemma StepAgrees(feed: Feed, s: System, t: System, op: Op)
    requires op.i < |s.ctxs| && Agree(s, t) && Synced(s)
    requires op.Update? && Hit(s, op.i) ==> Settled(s, op.i)
    ensures var (s', r), (t', q) := Step(feed, s, op, true), Step(feed, t, op, false);
      Agree(s', t') && r == q && Synced(s')
  {
    hide ReverseBit, Accumulate;
    match op
    case Update(i, data) =>
      CachedKeepsSynced(feed, s, i, data);
      AlwaysInitAgrees(feed, s, t, i, data);
      if Hit(s, i) {
        SameAsAlwaysInitIff(feed, s, i, data);
      }
    case Configure(i, cfg) =>
      var s' := Step(feed, s, op, true).0;
      assert forall j :: 0 <= j < |s.ctxs| ==> s'.ctxs[j].handle == s.ctxs[j].handle;
    case Reset(_) =>
    case Destroy(i) =>
      var s' := Step(feed, s, op, true).0;
      assert forall j :: 0 <= j < |s.ctxs| && s'.ctxs[j].handle.ready ==> s.ctxs[j].handle.ready;
  }

  /** For any interleaving of updates, reconfigurations, resets and destructions in
      which hits are settled, the cache gives the results of always initialising and
      remembers the same. */
  lemma {:induction false} CacheIsTransparent(feed: Feed, s: System, t: System, ops: seq<Op>)
    requires Agree(s, t) && Synced(s) && InRange(ops, |s.ctxs|) && HitsSettled(feed, s, ops)
    ensures var (s', rs), (t', qs) := Run(feed, s, ops, true), Run(feed, t, ops, false);
      Agree(s', t') && rs == qs && Synced(s')
    decreases |ops|
  {
    hide Step, Synced;
    if ops != [] {
      StepKeepsContexts(feed, s, ops[0], true);
      StepKeepsContexts(feed, t, ops[0], false);
      StepAgrees(feed, s, t, ops[0]);
      CacheIsTransparent(feed, Step(feed, s, ops[0], true).0, Step(feed, t, ops[0], false).0, ops[1..]);
    }
  }

  /** Resetting any context puts the engine's initial value under the next hit of
      whichever context it was: that goes unnoticed, for every engine and all data,
      exactly when the initial value is the remembered one. */
  lemma ResetHarmlessIff(feed: Feed, s: System, j: nat, i: nat)
    requires i < |s.ctxs| && j < |s.ctxs| && Loaded(s.backup, s.engine) && Hit(s, i) && HandleFits(s, i)
    ensures var s' := Step(feed, s, Reset(j), true).0;
      && Hit(s', i)
      && ((forall f: Feed, data: seq<bv8> :: SameUpdate(f, s', i, data)) <==> s.engine.init == s.backup.last_val)
  {
    AlwaysSameIff(ResetData(s), i);
  }

  /** Contexts as they are after a successful update of their own: ready, with both
      or no reflection, and modes to match. */
  ghost predicate AllReady(s: System) {
    forall i :: 0 <= i < |s.ctxs| ==> ReadyContext(s.ctxs[i])
  }

  predicate ReadyContext(c: Context) {
    && (c.cfg.flags == 0 || c.cfg.flags == 3)
    && c.handle == Handle(c.cfg.flags == 3, c.cfg.flags == 3, true)
  }

  lemma CachedKeepsReady(feed: Feed, s: System, i: nat, data: seq<bv8>)
    requires i < |s.ctxs| && Loaded(s.backup, s.engine) && InStep(s) && AllReady(s)
    ensures Hit(s, i) ==> Settled(s, i)
    ensures var s' := Cached(feed, s, i, data).0;
      |s'.ctxs| == |s.ctxs| && Loaded(s'.backup, s'.engine) && InStep(s') && AllReady(s')
  {
    hide ReverseBit;
    assert ReadyContext(s.ctxs[i]);
    CachedKeepsSynced(feed, s, i, data);
    var s' := Cached(feed, s, i, data).0;
    forall j | 0 <= j < |s'.ctxs|
      ensures ReadyContext(s'.ctxs[j])
    {
      assert ReadyContext(s.ctxs[j]);
    }
    assert s'.ctxs[i].handle.ready;
  }

  lemma {:induction false} ReadyContextsHitSettled(feed: Feed, s: System, ops: seq<Op>)
    requires Loaded(s.backup, s.engine) && InStep(s) && AllReady(s) && InRange(ops, |s.ctxs|)
    requires forall k :: 0 <= k < |ops| ==> ops[k].Update?
    ensures HitsSettled(feed, s, ops)
    decreases |ops|
  {
    hide Cached, Loaded, AllReady, Settled;
    if ops != [] {
      StepKeepsContexts(feed, s, ops[0], true);
      CachedKeepsReady(feed, s, ops[0].i, ops[0].data);
      ReadyContextsHitSettled(feed, Cached(feed, s, ops[0].i, ops[0].data).0, ops[1..]);
    }
  }

  /** Any interleaving of updates over ready contexts, each reflecting both ways or
      not at all, is unaffected by the cache. */
  lemma ReadyContextsShareTheEngine(feed: Feed, s: System, ops: seq<Op>)
    requires Loaded(s.backup, s.engine) && InStep(s) && AllReady(s) && InRange(ops, |s.ctxs|)
    requires forall k :: 0 <= k < |ops| ==> ops[k].Update?
    ensures Run(feed, s, ops, true).1 == Run(feed, s, ops, false).1
    ensures Agree(Run(feed, s, ops, true).0, Run(feed, s, ops, false).0)
  {
    ReadyContextsHitSettled(feed, s, ops);
    CacheIsTransparent(feed, s, s, ops);
  }

  /** A context that has never been updated and finds the backup equal to its own
      configuration is refused, whatever the data. */
  lemma FirstUpdateMayBeRefused(feed: Feed, s: System, i: nat, data: seq<bv8>)
    requires i < |s.ctxs| && Loaded(s.backup, s.engine) && Hit(s, i) && !s.ctxs[i].handle.ready
    ensures Cached(feed, s, i, data) == (s, 0)
    ensures AlwaysInit(feed, s, i, data).0.ctxs[i].handle.ready
  {
  }

  /** How a ready context stops being settled: an update refused for its width has
      already switched the modes of the handle.  Going back to the old configuration
      hits the cache with them, and the value remembered is the mirror image of the
      right one. */
  lemma RefusedWidthSpoilsValue(feed: Feed, s: System, i: nat, width: nat, d: seq<bv8>, data: seq<bv8>)
    requires i < |s.ctxs| && Loaded(s.backup, s.engine) && InStep(s) && AllReady(s)
    requires Hit(s, i) && s.ctxs[i].cfg.flags == 0 && !ValidWidth(width)
    ensures var cfg := s.ctxs[i].cfg;
            var s1 := Step(feed, s, Configure(i, cfg.(flags := 3, width := width)), true).0;
            var s2 := Cached(feed, s1, i, d).0;
            var s3 := Step(feed, s2, Configure(i, cfg), true).0;
            var raw := feed(s3.engine.setup, s3.engine.raw, data);
      && Hit(s3, i) && s3.ctxs[i].handle.ready && !Settled(s3, i)
      && Cached(feed, s3, i, data).0.ctxs[i].cfg.last_val == ReverseBit(raw)
      && AlwaysInit(feed, s3, i, data).0.ctxs[i].cfg.last_val == raw
  {
    hide ReverseBit;
    assert ReadyContext(s.ctxs[i]);
    var cfg := s.ctxs[i].cfg;
    var s1 := Step(feed, s, Configure(i, cfg.(flags := 3, width := width)), true).0;
    assert s1.ctxs[i].handle == Handle(false, false, true);
    assert s1.backup.flags == 0 && !Hit(s1, i);
    var s2 := Cached(feed, s1, i, d).0;
    assert s2.ctxs[i].handle == Handle(true, true, true) && s2.engine == s.engine;
  }

  // ------------------------------------------------------------ the driver

  class CrcDriver {
    const feed: Feed
    var crc_backup_cfg: Cfg
    var engine: Engine
    var ctxs: seq<Context>

    constructor (feed: Feed, engine: Engine, ctxs: seq<Context>)
      requires forall i :: 0 <= i < |ctxs| ==> !ctxs[i].handle.ready
      ensures Synced(State()) && this.feed == feed && State() == System(Cfg(0, 0, 0, 0, 0), engine, ctxs)
    {
      this.feed := feed;
      this.engine := engine;
      this.ctxs := ctxs;
      crc_backup_cfg := Cfg(0, 0, 0, 0, 0);
    }

    ghost function State(): System
      reads this
    {
      System(crc_backup_cfg, engine, ctxs)
    }

    /** _crc_update, under the device mutex: 0 if it is refused; otherwise the engine has
        taken the data in, and its register comes back as `UpdateResult` says. */
    method Update(i: nat, data: seq<bv8>) returns (result: bv32)
      requires i < |ctxs|
      modifies this
      ensures (State(), result) == Cached(feed, old(State()), i, data)
      ensures old(Refused(State(), i)) ==> result == 0 && engine == old(engine) && crc_backup_cfg == old(crc_backup_cfg)
      ensures !old(Refused(State(), i)) ==>
        var hit, cfg := old(crc_backup_cfg == ctxs[i].cfg), old(ctxs[i].cfg);
        && engine.raw == feed(engine.setup, if hit then old(engine.raw) else cfg.last_val, data)
        && (engine.raw == 0 ==> result == 0)
        && (engine.raw != 0 ==> forall b: bv6 :: b < 32 ==>
              Bit(result, b)
                == Flipped(Bit(engine.raw, if engine.setup.outRev then 31 - b else b), Bit(cfg.xorout, b)))
    {
      UpdateOutcome(feed, State(), i, data);
      hide Cached, Refused, Bit, Flipped;
      result := CachedUpdate(i, data);
    }

    method CachedUpdate(i: nat, data: seq<bv8>) returns (result: bv32)
      requires i < |ctxs|
      modifies this
      ensures (State(), result) == Cached(feed, old(State()), i, data)
    {
      if crc_backup_cfg != ctxs[i].cfg {
        var ok := Reinitialise(i);
        if !ok {
          return 0;
        }
      }
      result := AccumulateBytes(i, data);
    }

    /** From the state check on. */
    method AccumulateBytes(i: nat, data: seq<bv8>) returns (result: bv32)
      requires i < |ctxs|
      modifies this
      ensures (State(), result) == Accumulate(feed, old(State()), i, data)
    {
      var c := ctxs[i];
      if !c.handle.ready {
        return 0;
      }
      var raw := feed(engine.setup, engine.raw, data);
      result := Mirrored(engine.setup.outRev, raw);
      Store(i, raw, Mirrored(c.handle.outRev, result));
      result := XorOut(result, c.cfg.xorout);
    }

    /** _crypto_reset of a context. */
    method ResetContext(ghost i: nat)
      requires i < |ctxs|
      modifies this
      ensures engine == old(engine).(raw := old(engine).init)
      ensures crc_backup_cfg == old(crc_backup_cfg) && ctxs == old(ctxs)
      ensures State() == Step(feed, old(State()), Reset(i), true).0
    {
      engine := engine.(raw := engine.init);
    }

    /** _crypto_destroy of a context. */
    method DestroyContext(i: nat)
      requires i < |ctxs|
      modifies this
      ensures engine == old(engine).(raw := old(engine).init) && crc_backup_cfg == old(crc_backup_cfg)
      ensures |ctxs| == |old(ctxs)| && !ctxs[i].handle.ready && ctxs[i].cfg == old(ctxs)[i].cfg
      ensures forall j :: 0 <= j < |ctxs| && j != i ==> ctxs[j] == old(ctxs)[j]
      ensures State() == Step(feed, old(State()), Destroy(i), true).0
    {
      engine := engine.(raw := engine.init);
      ctxs := ctxs[i := ctxs[i].(handle := ctxs[i].handle.(ready := false))];
    }

    method Store(i: nat, raw: bv32, last_val: bv32)
      requires i < |ctxs|
      modifies this
      ensures State() == Remember(old(State()), i, raw, last_val)
    {
      engine := engine.(raw := raw);
      ctxs := ctxs[i := ctxs[i].(cfg := ctxs[i].cfg.(last_val := last_val))];
      crc_backup_cfg := crc_backup_cfg.(last_val := last_val);
    }

    /** The body of the memcmp branch. */
    method Reinitialise(i: nat) returns (ok: bool)
      requires i < |ctxs|
      modifies this
      ensures (State(), ok) == Initialise(old(State()), i)
    {
      var c := ctxs[i];
      var h := c.handle;
      if c.cfg.flags == 0 {
        h := h.(inByte := false, outRev := false);
      } else if c.cfg.flags == CRC_FLAG_REFIN {
        h := h.(inByte := true);
      } else if c.cfg.flags == CRC_FLAG_REFOUT {
        h := h.(outRev := true);
      } else if c.cfg.flags == CRC_FLAG_REFIN + CRC_FLAG_REFOUT {
        h := h.(inByte := true, outRev := true);
      } else {
        assert ctxs[i := c.(handle := h)] == ctxs;
        return false;
      }
      ctxs := ctxs[i := c.(handle := h)];
      if !ValidWidth(c.cfg.width) {
        return false;
      }
      engine := Load(c.cfg, h);
      ctxs := ctxs[i := c.(handle := h.(ready := true))];
      assert ctxs == old(ctxs)[i := c.(handle := h.(ready := true))];
      crc_backup_cfg := c.cfg;
      ok := true;
    }
  }
}
