/** The three effective-address rules of the LDS model, and the recorder that
    counts out-of-range accesses before they happen. */
module LdsModel {
  import opened Words
  import opened Isa
  import opened CoreSpec
  import opened Simt

  // ---------------- the three rules coincide ----------------

  /** Under the untruncated rule, no access of this instruction is out of range. */
  predicate DsInRange(alloc: Alloc, op: DsOp, exec: Word, v: VFile, lds: Lds) {
    var w := DsUpTo(Config(U32, alloc), op, exec, v, lds, LANES);
    w.refused == 0
  }

  lemma AddressCoincides(cfg: Config, raw: nat, width: nat)
    requires cfg.alloc <= 0x4000 && 1 <= width
    requires InRange(Config(U32, cfg.alloc), raw, width)
    ensures EffectiveAddress(cfg, raw) == raw
    ensures InRange(cfg, raw, width)
  {
  }

  lemma LaneCoincides(cfg: Config, op: DsOp, regs: VRegs, lds: Lds)
    requires cfg.alloc <= 0x4000
    requires DsOne(Config(U32, cfg.alloc), op, regs, lds).refused == 0
    ensures DsOne(cfg, op, regs, lds) == DsOne(Config(U32, cfg.alloc), op, regs, lds)
  {
    hide RawAddress, InRange, EffectiveAddress, LoadInto, ZeroInto, HalfInto, PairBytes, StoreWords, DataBytes, Dword;
    var u := Config(U32, cfg.alloc);
    Untruncated(u);
    forall raw: nat, width: nat | 1 <= width && InRange(u, raw, width)
      ensures EffectiveAddress(cfg, raw) == raw && InRange(cfg, raw, width)
    {
      AddressCoincides(cfg, raw, width);
    }
    SameBytes(cfg, u);
  }

  lemma Untruncated(u: Config)
    requires u.sem.U32?
    ensures forall raw: nat :: EffectiveAddress(u, raw) == raw
  {
  }

  // The bytes moved depend on the allocation alone.
  lemma SameBytes(a: Config, b: Config)
    requires a.alloc == b.alloc
    ensures forall lds: Lds, ea: nat, n: nat :: LdsBytes(a, lds, ea, n) == LdsBytes(b, lds, ea, n)
    ensures forall lds: Lds, ea: nat, bytes: seq<Byte> :: LdsPut(a, lds, ea, bytes) == LdsPut(b, lds, ea, bytes)
  {
  }

  lemma {:induction false} WaveCoincides(cfg: Config, op: DsOp, exec: Word, v: VFile, lds: Lds, n: nat)
    requires cfg.alloc <= 0x4000 && n <= LANES
    requires DsUpTo(Config(U32, cfg.alloc), op, exec, v, lds, n).refused == 0
    ensures DsUpTo(cfg, op, exec, v, lds, n) == DsUpTo(Config(U32, cfg.alloc), op, exec, v, lds, n)
  {
    hide DsOne, Bit;
    if n > 0 {
      WaveCoincides(cfg, op, exec, v, lds, n - 1);
      var w := DsUpTo(Config(U32, cfg.alloc), op, exec, v, lds, n - 1);
      if Bit(exec, n - 1) && DsOne(Config(U32, cfg.alloc), op, w.v[n - 1], w.lds).refused == 0 {
        LaneCoincides(cfg, op, w.v[n - 1], w.lds);
      }
    }
  }

  /** Every DS access of the first n steps of the untruncated run is in range. */
  predicate RunInRange(prog: Program, alloc: Alloc, c: Core, sh: Shared, n: nat)
    decreases n
  {
    n > 0 && c.pc < |prog| ==>
      && (prog[c.pc].op.Ds? ==> DsInRange(alloc, prog[c.pc].op.ds, c.exec, c.v, sh.lds))
      && var r := Step(prog, Config(U32, alloc), c, sh);
         r.signal.Fine? ==> RunInRange(prog, alloc, r.core, r.shared, n - 1)
  }

  lemma DispatchCoincides(cfg: Config, c: Core, sh: Shared, op: Opcode)
    requires cfg.alloc <= 0x4000
    requires op.Ds? ==> DsInRange(cfg.alloc, op.ds, c.exec, c.v, sh.lds)
    ensures Dispatch(cfg, c, sh, op) == Dispatch(Config(U32, cfg.alloc), c, sh, op)
  {
    hide StepMov, StepAdd, StepSBin, StepCmp, StepSaveExec, StepSLoad, StepVBin, StepVCmp, StepVCmpx,
         StepBpermute, StepGlobal, DsUpTo;
    if op.Ds? {
      WaveCoincides(cfg, op.ds, c.exec, c.v, sh.lds, LANES);
    }
  }

  lemma StepCoincides(prog: Program, cfg: Config, c: Core, sh: Shared)
    requires cfg.alloc <= 0x4000 && c.pc < |prog|
    requires prog[c.pc].op.Ds? ==> DsInRange(cfg.alloc, prog[c.pc].op.ds, c.exec, c.v, sh.lds)
    ensures Step(prog, cfg, c, sh) == Step(prog, Config(U32, cfg.alloc), c, sh)
  {
    hide Dispatch, DsInRange, Recurs, Remember;
    DispatchCoincides(cfg, Sampled(c, sh).(pc := c.pc + 1), sh, prog[c.pc].op);
  }

  /** If every access of the untruncated run is in range, the legacy and the
      16-bit runs of the same program from the same state are the same run. */
  lemma {:induction false} RunsCoincide(prog: Program, cfg: Config, c: Core, sh: Shared, n: nat)
    requires cfg.alloc <= 0x4000 && RunInRange(prog, cfg.alloc, c, sh, n)
    ensures Run(prog, cfg, c, sh, n) == Run(prog, Config(U32, cfg.alloc), c, sh, n)
    decreases n
  {
    hide Step, DsInRange;
    if n > 0 {
      if c.pc < |prog| {
        StepCoincides(prog, cfg, c, sh);
        var r := Step(prog, cfg, c, sh);
        if r.signal.Fine? {
          RunsCoincide(prog, cfg, r.core, r.shared, n - 1);
        }
      } else {
        Overrun(prog, cfg, c, sh);
        Overrun(prog, Config(U32, cfg.alloc), c, sh);
      }
    }
  }

  lemma Overrun(prog: Program, cfg: Config, c: Core, sh: Shared)
    requires c.pc >= |prog|
    ensures Step(prog, cfg, c, sh) == Stepped(c, sh, PcOverrun)
  {
  }

  /** The bound on the allocation is needed: with a larger one, an access at
      0x4000 is in range and is still folded to address 0 by the legacy rule. */
  lemma {:induction false} LargeAllocationDiffers()
    ensures InRange(Config(U32, 0x10000), EffectiveAddress(Config(U32, 0x10000), 0x4000), 4)
    ensures EffectiveAddress(Config(Legacy, 0x10000), 0x4000) == 0
  {
  }

  // ---------------- the recorder ----------------

  /** What the recorder adds to its counters before the step. */
  datatype Counts = Counts(events: nat, oobReads: nat, oobWrites: nat)

  predicate Misses(cfg: Config, regs: VRegs, addr: VIdx, imm: int, width: nat) {
    !InRange(cfg, EffectiveAddress(cfg, RawAddress(regs[addr], imm)), width)
  }

  // One lane, from its registers as they are before the instruction.
  function RecordLane(cfg: Config, op: DsOp, regs: VRegs): Counts {
    match op
    case DsLoad(_, addr, imm, width, _) => Counts(1, Hit(Misses(cfg, regs, addr, imm, width)), 0)
    case DsStore(addr, _, imm, width, _) => Counts(1, 0, Hit(Misses(cfg, regs, addr, imm, width)))
    case DsLoad2(_, addr, off0, off1) =>
      Counts(2, Hit(Misses(cfg, regs, addr, 8 * off0, 8)) + Hit(Misses(cfg, regs, addr, 8 * off1, 8)), 0)
    case DsStore2(addr, _, _, off0, off1) =>
      Counts(2, 0, Hit(Misses(cfg, regs, addr, 8 * off0, 8)) + Hit(Misses(cfg, regs, addr, 8 * off1, 8)))
  }

  function RecordUpTo(cfg: Config, op: DsOp, exec: Word, v: VFile, n: nat): Counts
    requires n <= LANES
  {
    if n == 0 then Counts(0, 0, 0)
    else
      var r := RecordUpTo(cfg, op, exec, v, n - 1);
      if Bit(exec, n - 1) then
        var l := RecordLane(cfg, op, v[n - 1]);
        Counts(r.events + l.events, r.oobReads + l.oobReads, r.oobWrites + l.oobWrites)
      else r
  }

  /** The first half of the load replaces the register its second address comes from. */
  predicate OverwritesItsAddress(op: DsOp) {
    op.DsLoad2? && op.span.count > 1 && op.span.first <= op.addr < op.span.first + 2
  }

  function Limit(cfg: Config): nat {
    if cfg.sem.Legacy? then 0x4000 else cfg.alloc
  }

  // A register or a span, as a number of dwords.
  function Dwords(d: VData): nat {
    match d case One(_) => 1 case Many(s) => s.count
  }

  // Bytes of one access as its address is tested ...
  function AccessWidth(op: DsOp): (w: nat)
    ensures 1 <= w <= 16
  {
    if op.DsLoad? || op.DsStore? then op.width else 8
  }

  // ... and those that really move: fewer only when its registers hold fewer.
  function Moved(op: DsOp): (n: nat)
    ensures n <= AccessWidth(op)
  {
    match op
    case DsLoad(dst, _, _, width, d16hi) => Landing(dst, width, d16hi)
    case DsStore(_, data, _, width, d16hi) =>
      var room := if d16hi then 4 else 4 * Dwords(data);
      if width < room then width else room
    case _ => 8
  }

  // No access passes the address test with bytes at or past the allocation.
  predicate TestCoversAllocation(cfg: Config, op: DsOp) {
    cfg.sem.Legacy? ==> cfg.alloc + AccessWidth(op) - Moved(op) >= 0x4000
  }

  // A refused access leaves a zero somewhere: v[a:b] is as wide as the load.
  predicate Receives(op: DsOp) {
    match op
    case DsLoad(dst, _, _, width, _) => dst.Many? ==> width >= 4
    case DsLoad2(span, _, _, _) => span.count >= 4
    case _ => true
  }

  // Some address is out of range.
  predicate EverRefused(cfg: Config, op: DsOp) {
    !InRange(cfg, EffectiveAddress(cfg, 0xFFFF_FFFF), AccessWidth(op))
  }

  /** When the recorder is exact, from the rule, the allocation and the instruction. */
  predicate Countable(cfg: Config, op: DsOp) {
    && TestCoversAllocation(cfg, op)
    && (OverwritesItsAddress(op) ==> Limit(cfg) < 8)
    && (EverRefused(cfg, op) ==> Receives(op))
  }

  lemma PassedIsWhole(cfg: Config, op: DsOp, ea: nat)
    requires TestCoversAllocation(cfg, op) && InRange(cfg, ea, AccessWidth(op))
    ensures ea + Moved(op) <= cfg.alloc
  {
  }

  lemma NeverRefused(cfg: Config, op: DsOp, raw: nat)
    requires !EverRefused(cfg, op) && raw < 0x1_0000_0000
    ensures InRange(cfg, EffectiveAddress(cfg, raw), AccessWidth(op))
  {
  }

  lemma StoreMoves(op: DsOp, regs: VRegs)
    requires op.DsStore?
    ensures |DataBytes(StoreWords(regs, op.data, op.d16hi), op.width)| == Moved(op)
  {
  }

  lemma PairMoves(regs: VRegs, d: VData)
    ensures |PairBytes(regs, d)| == 8
  {
  }

  // What one access adds to the effect counters, from its effective address.
  function Cut(cfg: Config, op: DsOp, ea: nat): nat {
    Hit(!InRange(cfg, ea, AccessWidth(op)) || ea + Moved(op) > cfg.alloc)
  }

  function AddressOf(cfg: Config, regs: VRegs, addr: VIdx, imm: int): nat {
    EffectiveAddress(cfg, RawAddress(regs[addr], imm))
  }

  lemma LoadEffect(cfg: Config, op: DsOp, regs: VRegs, lds: Lds)
    requires op.DsLoad?
    ensures var r, ea := DsOne(cfg, op, regs, lds), AddressOf(cfg, regs, op.addr, op.imm);
      r.dropped == 0 && r.zeroed == if !InRange(cfg, ea, op.width) && !Receives(op) then 0 else Cut(cfg, op, ea)
  {
    hide LoadInto, ZeroInto, LdsBytes, EffectiveAddress, RawAddress;
  }

  lemma StoreEffect(cfg: Config, op: DsOp, regs: VRegs, lds: Lds)
    requires op.DsStore?
    ensures var r := DsOne(cfg, op, regs, lds);
      r.zeroed == 0 && r.dropped == Cut(cfg, op, AddressOf(cfg, regs, op.addr, op.imm))
  {
    hide LdsPut, EffectiveAddress, RawAddress, DataBytes, StoreWords;
    StoreMoves(op, regs);
  }

  lemma Store2Effect(cfg: Config, op: DsOp, regs: VRegs, lds: Lds)
    requires op.DsStore2?
    ensures var r := DsOne(cfg, op, regs, lds);
      r.zeroed == 0 && r.dropped == Cut(cfg, op, AddressOf(cfg, regs, op.addr, 8 * op.off0))
                                  + Cut(cfg, op, AddressOf(cfg, regs, op.addr, 8 * op.off1))
  {
    hide LdsPut, EffectiveAddress, RawAddress, PairBytes;
    PairMoves(regs, op.data0);
    PairMoves(regs, op.data1);
  }

  lemma HalfEffect(cfg: Config, op: DsOp, off: int, j: nat, regs: VRegs, lds: Lds)
    requires op.DsLoad2?
    ensures var r := DsLoadHalf(cfg, op.span, op.addr, off, j, regs, lds);
      r.dropped == 0
      && r.zeroed == if 2 * j + 1 < op.span.count then Cut(cfg, op, AddressOf(cfg, regs, op.addr, 8 * off)) else 0
  {
    hide HalfInto, LdsBytes, EffectiveAddress, RawAddress, Dword;
  }

  // The register the second half of a load takes its address from.
  function SecondAddress(cfg: Config, op: DsOp, regs: VRegs, lds: Lds): Word
    requires op.DsLoad2?
  {
    DsLoadHalf(cfg, op.span, op.addr, op.off0, 0, regs, lds).regs[op.addr]
  }

  lemma Load2Effect(cfg: Config, op: DsOp, regs: VRegs, lds: Lds)
    requires op.DsLoad2?
    ensures var r := DsOne(cfg, op, regs, lds);
      var ea0, ea1 := AddressOf(cfg, regs, op.addr, 8 * op.off0),
                      EffectiveAddress(cfg, RawAddress(SecondAddress(cfg, op, regs, lds), 8 * op.off1));
      r.dropped == 0 && r.zeroed == (if op.span.count > 1 then Cut(cfg, op, ea0) else 0)
                                  + (if op.span.count > 3 then Cut(cfg, op, ea1) else 0)
    ensures !OverwritesItsAddress(op) ==> SecondAddress(cfg, op, regs, lds) == regs[op.addr]
  {
    hide LdsBytes, EffectiveAddress, RawAddress, InRange, Dword, Cut;
    HalfEffect(cfg, op, op.off0, 0, regs, lds);
    HalfEffect(cfg, op, op.off1, 1, DsLoadHalf(cfg, op.span, op.addr, op.off0, 0, regs, lds).regs, lds);
  }

  lemma RecordedAs(cfg: Config, op: DsOp, regs: VRegs)
    ensures var k := RecordLane(cfg, op, regs);
      var m := (imm: int) => Hit(!InRange(cfg, AddressOf(cfg, regs, op.addr, imm), AccessWidth(op)));
      match op
      case DsLoad(_, _, imm, _, _) => k.oobWrites == 0 && k.oobReads == m(imm)
      case DsStore(_, _, imm, _, _) => k.oobReads == 0 && k.oobWrites == m(imm)
      case DsLoad2(_, _, o, p) => k.oobWrites == 0 && k.oobReads == m(8 * o) + m(8 * p)
      case DsStore2(_, _, _, o, p) => k.oobReads == 0 && k.oobWrites == m(8 * o) + m(8 * p)
  {
    hide InRange, EffectiveAddress, RawAddress;
  }

  // Where the test covers the allocation, cut is refused.
  lemma CutIsRefused(cfg: Config, op: DsOp, ea: nat)
    requires TestCoversAllocation(cfg, op)
    ensures Cut(cfg, op, ea) == Hit(!InRange(cfg, ea, AccessWidth(op)))
  {
    if InRange(cfg, ea, AccessWidth(op)) {
      PassedIsWhole(cfg, op, ea);
    }
  }

  predicate LaneAgrees(cfg: Config, op: DsOp, regs: VRegs, lds: Lds) {
    var r, k := DsOne(cfg, op, regs, lds), RecordLane(cfg, op, regs);
    r.zeroed == k.oobReads && r.dropped == k.oobWrites
  }

  lemma LaneCountsAgree(cfg: Config, op: DsOp, regs: VRegs, lds: Lds)
    requires Countable(cfg, op)
    ensures LaneAgrees(cfg, op, regs, lds)
  {
    hide DsOne, RecordLane, Cut, EffectiveAddress, TestCoversAllocation, DsLoadHalf, RawAddress, InRange;
    RecordedAs(cfg, op, regs);
    forall ea: nat ensures Cut(cfg, op, ea) == Hit(!InRange(cfg, ea, AccessWidth(op))) { CutIsRefused(cfg, op, ea); }
    match op
    case DsLoad(_, _, imm, _, _) =>
      LoadEffect(cfg, op, regs, lds);
      if !EverRefused(cfg, op) { NeverRefused(cfg, op, RawAddress(regs[op.addr], imm)); }
    case DsStore(_, _, _, _, _) => StoreEffect(cfg, op, regs, lds);
    case DsStore2(_, _, _, _, _) => Store2Effect(cfg, op, regs, lds);
    case DsLoad2(_, _, _, _) =>
      Load2Effect(cfg, op, regs, lds);
      PairsAreRefused(cfg, op);
      if OverwritesItsAddress(op) {
        forall ea: nat ensures !InRange(cfg, ea, 8) { SmallRefuses(cfg, ea); }
      }
  }

  lemma SmallRefuses(cfg: Config, ea: nat)
    requires Limit(cfg) < 8
    ensures !InRange(cfg, ea, 8)
  {
  }

  lemma PairsAreRefused(cfg: Config, op: DsOp)
    requires AccessWidth(op) == 8
    ensures EverRefused(cfg, op)
  {
  }

  // No lane's share changes another lane's registers.
  lemma {:induction false} LaterLanesUntouched(cfg: Config, op: DsOp, exec: Word, v: VFile, lds: Lds, n: nat)
    requires n <= LANES
    ensures forall l: nat :: n <= l < LANES ==> DsUpTo(cfg, op, exec, v, lds, n).v[l] == v[l]
  {
    hide DsOne, Bit;
    if n > 0 {
      LaterLanesUntouched(cfg, op, exec, v, lds, n - 1);
    }
  }

  predicate WaveAgrees(cfg: Config, op: DsOp, exec: Word, v: VFile, lds: Lds, n: nat)
    requires n <= LANES
  {
    var w, k := DsUpTo(cfg, op, exec, v, lds, n), RecordUpTo(cfg, op, exec, v, n);
    w.zeroed == k.oobReads && w.dropped == k.oobWrites
  }

  /** The pre-step counts are exactly what the executor then zeroes and drops. */
  lemma {:induction false} CountsAgree(cfg: Config, op: DsOp, exec: Word, v: VFile, lds: Lds, n: nat)
    requires n <= LANES && Countable(cfg, op)
    ensures WaveAgrees(cfg, op, exec, v, lds, n)
  {
    hide DsOne, RecordLane, Bit;
    if n > 0 {
      CountsAgree(cfg, op, exec, v, lds, n - 1);
      LaterLanesUntouched(cfg, op, exec, v, lds, n - 1);
      LaneCountsAgree(cfg, op, v[n - 1], DsUpTo(cfg, op, exec, v, lds, n - 1).lds);
    }
  }

  // The counts of the instruction agree whatever the wave and the image hold.
  ghost predicate AlwaysCounts(cfg: Config, op: DsOp) {
    forall exec: Word, v: VFile, lds: Lds :: WaveAgrees(cfg, op, exec, v, lds, LANES)
  }

  /** Under every rule and allocation the recorder is exact for an instruction
      if and only if its address test covers the allocation, it does not
      overwrite its own address register unless nothing is ever in range, and
      what it refuses it zeroes. */
  lemma {:induction false} CountsExactlyWhen(cfg: Config, op: DsOp)
    ensures AlwaysCounts(cfg, op) <==> Countable(cfg, op)
  {
    hide WaveAgrees, Countable;
    if Countable(cfg, op) {
      forall exec: Word, v: VFile, lds: Lds ensures WaveAgrees(cfg, op, exec, v, lds, LANES) {
        CountsAgree(cfg, op, exec, v, lds, LANES);
      }
    } else {
      var v := Miscounted(cfg, op);
      assert !WaveAgrees(cfg, op, 1, v, ZeroImage(), LANES);
    }
  }

  /** For the forms the assembler prints, whose registers hold exactly the bytes
      of the access, that is: at least 16 KiB allocated under the legacy rule,
      and no overwritten address unless fewer than 8 bytes can be in range. */
  lemma {:induction false} PrintedFormsCount(cfg: Config, op: DsOp)
    requires Moved(op) == AccessWidth(op) && Receives(op)
    ensures AlwaysCounts(cfg, op)
      <==> (cfg.sem.Legacy? ==> cfg.alloc >= 0x4000) && (!OverwritesItsAddress(op) || Limit(cfg) < 8)
  {
    hide AlwaysCounts;
    CountsExactlyWhen(cfg, op);
  }

  function ZeroImage(): Lds {
    seq(LDS_IMAGE, i => 0)
  }

  // An address register that takes the access with this offset to `raw`.
  lemma AddressFor(raw: nat, imm: int) returns (a: Word)
    requires raw < 0x1_0000_0000
    ensures RawAddress(a, imm) == raw
  {
    a := Trunc(raw - imm);
    TruncIs(raw - imm);
    var k := (raw - imm) / 0x1_0000_0000;
    WrapsTo((a as int) + imm, -k, raw);
  }

  lemma WrapsTo(x: int, k: int, raw: nat)
    requires x == k * 0x1_0000_0000 + raw && raw < 0x1_0000_0000
    ensures x % 0x1_0000_0000 == raw
  {
  }

  // One of 0 and this address is in range with the offset, the other is not.
  lemma OtherAddress(cfg: Config, imm: int) returns (a: Word)
    requires Limit(cfg) >= 8
    ensures InRange(cfg, EffectiveAddress(cfg, RawAddress(a, imm)), 8)
      != InRange(cfg, EffectiveAddress(cfg, RawAddress(0, imm)), 8)
  {
    hide RawAddress;
    if InRange(cfg, EffectiveAddress(cfg, RawAddress(0, imm)), 8) {
      a := AddressFor(0xFFFF, imm);
    } else {
      a := AddressFor(0, imm);
    }
  }

  // The address of the first access.
  function FirstOffset(op: DsOp): int {
    match op
    case DsLoad(_, _, imm, _, _) => imm
    case DsStore(_, _, imm, _, _) => imm
    case DsLoad2(_, _, o, _) => 8 * o
    case DsStore2(_, _, _, o, _) => 8 * o
  }

  // A register value that puts the first access at the end of the 16 KiB image.
  lemma AtTheEnd(cfg: Config, op: DsOp) returns (a: Word)
    requires cfg.sem.Legacy?
    ensures EffectiveAddress(cfg, RawAddress(a, FirstOffset(op))) == 0x4000 - AccessWidth(op)
    ensures op.DsLoad2? || op.DsStore2? ==> forall off: int :: InRange(cfg, EffectiveAddress(cfg, RawAddress(a, 8 * off)), 8)
  {
    a := AddressFor(0x4000 - AccessWidth(op), FirstOffset(op));
    if op.DsLoad2? || op.DsStore2? {
      forall off: int ensures InRange(cfg, EffectiveAddress(cfg, RawAddress(a, 8 * off)), 8) {
        EightByteGrid(a, op.off0, off);
      }
    }
  }

  lemma EightByteGrid(a: Word, o: int, off: int)
    requires RawAddress(a, 8 * o) == 0x3FF8
    ensures RawAddress(a, 8 * off) % 0x4000 <= 0x3FF8
  {
    var k := ((a as int) + 8 * o) / 0x1_0000_0000;
    OnTheGrid((a as int) + 8 * off, 0x7FF - o + off + k * 0x2000_0000);
  }

  lemma OnTheGrid(x: int, y: int)
    requires x == 8 * y
    ensures x % 0x1_0000_0000 % 0x4000 <= 0x3FF8
  {
    var q, s := y / 0x2000_0000, y % 0x2000_0000;
    WrapsTo(x, q, 8 * s);
    FoldsTo(8 * s, s / 0x800, 8 * (s % 0x800));
  }

  lemma FoldsTo(x: int, k: int, r: nat)
    requires x == k * 0x4000 + r && r < 0x4000
    ensures x % 0x4000 == r
  {
  }

  // A load or store that the legacy test passes and the allocation cuts.
  lemma ClippedLane(cfg: Config, op: DsOp) returns (a: Word)
    requires !TestCoversAllocation(cfg, op) && (op.DsLoad2? ==> op.span.count > 1)
    ensures !LaneAgrees(cfg, op, CLEAR_REGS[op.addr := a], ZeroImage())
  {
    hide DsOne, RecordLane, ZeroImage, EffectiveAddress, RawAddress, DsLoadHalf;
    a := AtTheEnd(cfg, op);
    var regs: VRegs := CLEAR_REGS[op.addr := a];
    RecordedAs(cfg, op, regs);
    match op
    case DsLoad(_, _, _, _, _) => LoadEffect(cfg, op, regs, ZeroImage());
    case DsStore(_, _, _, _, _) => StoreEffect(cfg, op, regs, ZeroImage());
    case DsStore2(_, _, _, _, _) => Store2Effect(cfg, op, regs, ZeroImage());
    case DsLoad2(_, _, _, _) => Load2Effect(cfg, op, regs, ZeroImage());
  }

  // A load that is refused and zeroes nothing.
  lemma UnreceivedLane(cfg: Config, op: DsOp) returns (a: Word)
    requires EverRefused(cfg, op) && !Receives(op)
    requires op.DsLoad2? ==> op.span.count == 1 || TestCoversAllocation(cfg, op)
    ensures !LaneAgrees(cfg, op, CLEAR_REGS[op.addr := a], ZeroImage())
  {
    hide DsOne, RecordLane, ZeroImage, EffectiveAddress, RawAddress, DsLoadHalf, InRange;
    a := AddressFor(0xFFFF_FFFF, if op.DsLoad? then op.imm else 8 * op.off1);
    var regs: VRegs := CLEAR_REGS[op.addr := a];
    RecordedAs(cfg, op, regs);
    if op.DsLoad? {
      LoadEffect(cfg, op, regs, ZeroImage());
    } else {
      Load2Effect(cfg, op, regs, ZeroImage());
      if op.span.count > 1 {
        CutIsRefused(cfg, op, AddressOf(cfg, regs, op.addr, 8 * op.off0));
      }
    }
  }

  // Over a zero image the first half leaves zero in the address register.
  lemma FirstHalfLoadsZero(cfg: Config, op: DsOp, regs: VRegs)
    requires OverwritesItsAddress(op)
    ensures DsLoadHalf(cfg, op.span, op.addr, op.off0, 0, regs, ZeroImage()).regs[op.addr] == 0
  {
    hide EffectiveAddress, RawAddress, InRange, Dword;
    var ea := EffectiveAddress(cfg, RawAddress(regs[op.addr], 8 * op.off0));
    assert LdsBytes(cfg, ZeroImage(), ea, 8) == [0, 0, 0, 0, 0, 0, 0, 0];
    ZeroWords();
  }

  lemma ZeroWords()
    ensures Dword([0, 0, 0, 0, 0, 0, 0, 0], 0) == 0 && Dword([0, 0, 0, 0, 0, 0, 0, 0], 1) == 0
  {
  }

  // A load whose second access is made from the zero the first half loaded.
  lemma OverwrittenLane(cfg: Config, op: DsOp) returns (a: Word)
    requires OverwritesItsAddress(op) && Limit(cfg) >= 8 && TestCoversAllocation(cfg, op) && Receives(op)
    ensures !LaneAgrees(cfg, op, CLEAR_REGS[op.addr := a], ZeroImage())
  {
    hide DsOne, RecordLane, EffectiveAddress, RawAddress, InRange, ZeroImage, DsLoadHalf, Cut, TestCoversAllocation;
    a := OtherAddress(cfg, 8 * op.off1);
    var regs: VRegs := CLEAR_REGS[op.addr := a];
    FirstHalfLoadsZero(cfg, op, regs);
    RecordedAs(cfg, op, regs);
    Load2Effect(cfg, op, regs, ZeroImage());
    CutIsRefused(cfg, op, AddressOf(cfg, regs, op.addr, 8 * op.off0));
    CutIsRefused(cfg, op, EffectiveAddress(cfg, RawAddress(0, 8 * op.off1)));
  }

  /** For every other rule, allocation and instruction a wave with one active
      lane is miscounted. */
  lemma Miscounted(cfg: Config, op: DsOp) returns (v: VFile)
    requires !Countable(cfg, op)
    ensures !WaveAgrees(cfg, op, 1, v, ZeroImage(), LANES)
  {
    hide ZeroImage, LaneAgrees, TestCoversAllocation, EverRefused;
    if op.DsLoad2? { PairsAreRefused(cfg, op); }
    var a;
    if EverRefused(cfg, op) && !Receives(op) && (op.DsLoad2? ==> op.span.count == 1 || TestCoversAllocation(cfg, op)) {
      a := UnreceivedLane(cfg, op);
    } else if !TestCoversAllocation(cfg, op) {
      a := ClippedLane(cfg, op);
    } else {
      a := OverwrittenLane(cfg, op);
    }
    v := OneLane(cfg, op, a);
  }

  lemma OneLane(cfg: Config, op: DsOp, a: Word) returns (v: VFile)
    requires !LaneAgrees(cfg, op, CLEAR_REGS[op.addr := a], ZeroImage())
    ensures !WaveAgrees(cfg, op, 1, v, ZeroImage(), LANES)
  {
    hide ZeroImage, DsOne, RecordLane;
    v := CLEAR[0 := CLEAR_REGS[op.addr := a]];
    DsOfLaneZero(cfg, op, v, ZeroImage(), LANES);
    RecordOfLaneZero(cfg, op, v, LANES);
  }

  // ---------------- what the effect counters mean ----------------

  // Whatever the image held, every byte the store moves is in it afterwards.
  ghost predicate StoreHolds(cfg: Config, op: DsOp, regs: VRegs)
    requires op.DsStore?
  {
    forall lds: Lds, i: nat :: i < Moved(op) ==> ByteHeld(cfg, op, regs, lds, i)
  }

  predicate ByteHeld(cfg: Config, op: DsOp, regs: VRegs, lds: Lds, i: nat)
    requires op.DsStore? && i < Moved(op)
  {
    StoreMoves(op, regs);
    var ea := AddressOf(cfg, regs, op.addr, op.imm);
    ea + i < LDS_IMAGE
    && DsOne(cfg, op, regs, lds).lds[ea + i] == DataBytes(StoreWords(regs, op.data, op.d16hi), op.width)[i]
  }

  /** A store is counted as dropped if and only if a byte of it can be missing
      from the image. */
  lemma {:induction false} DroppedExactlyWhen(cfg: Config, op: DsOp, regs: VRegs, lds: Lds)
    requires op.DsStore?
    ensures DsOne(cfg, op, regs, lds).dropped == 0 <==> StoreHolds(cfg, op, regs)
  {
    hide EffectiveAddress, RawAddress, DataBytes, StoreWords;
    StoreMoves(op, regs);
    var ea, bytes := AddressOf(cfg, regs, op.addr, op.imm), DataBytes(StoreWords(regs, op.data, op.d16hi), op.width);
    if DsOne(cfg, op, regs, lds).dropped > 0 {
      var i := if InRange(cfg, ea, op.width) then Moved(op) - 1 else 0;
      var other: Lds := seq(LDS_IMAGE, _ => bytes[i] + 1);
      assert !ByteHeld(cfg, op, regs, other, i);
    }
  }

  // Byte i of what a load left in its destination.
  function Received(op: DsOp, regs: VRegs, i: nat): Byte
    requires op.DsLoad? && i < Moved(op)
  {
    if op.dst.One? then ByteOf(regs[op.dst.n], if op.d16hi then 2 + i else i)
    else ByteOf(regs[op.dst.span.first + i / 4], i % 4)
  }

  // Whatever the image held, every byte that lands is the image's own.
  ghost predicate LoadDelivers(cfg: Config, op: DsOp, regs: VRegs)
    requires op.DsLoad?
  {
    forall lds: Lds, i: nat :: i < Moved(op) ==> ByteDelivered(cfg, op, regs, lds, i)
  }

  predicate ByteDelivered(cfg: Config, op: DsOp, regs: VRegs, lds: Lds, i: nat)
    requires op.DsLoad? && i < Moved(op)
  {
    var ea := AddressOf(cfg, regs, op.addr, op.imm);
    ea + i < LDS_IMAGE && Received(op, DsOne(cfg, op, regs, lds).regs, i) == lds[ea + i]
  }

  lemma ZeroBytes(k: nat)
    requires k < 4
    ensures ByteOf(0, k) == 0
  {
  }

  lemma LowHalfBytes(w: Word)
    ensures ByteOf(LowHalf(w), 2) == 0 && ByteOf(LowHalf(w), 3) == 0
  {
  }

  lemma JoinedBytes(a: Byte, b: Byte, c: Byte, d: Byte)
    ensures var w := Wide(a) | (Wide(b) << 8) | (Wide(c) << 16) | (Wide(d) << 24);
      ByteOf(w, 0) == a && ByteOf(w, 1) == b && ByteOf(w, 2) == c && ByteOf(w, 3) == d
  {
  }

  function ByteOrZero(bytes: seq<Byte>, k: nat): Byte {
    if k < |bytes| then bytes[k] else 0
  }

  lemma ByteAtIs(bytes: seq<Byte>, k: nat)
    ensures ByteAt(bytes, k) == Wide(ByteOrZero(bytes, k))
  {
  }

  lemma DwordBytes(bytes: seq<Byte>, j: nat, k: nat)
    requires k < 4
    ensures ByteOf(Dword(bytes, j), k) == ByteOrZero(bytes, 4 * j + k)
  {
    hide ByteOf, Wide, ByteAt, ByteOrZero;
    var p := 4 * j;
    ByteAtIs(bytes, p);
    ByteAtIs(bytes, p + 1);
    ByteAtIs(bytes, p + 2);
    ByteAtIs(bytes, p + 3);
    JoinedBytes(ByteOrZero(bytes, p), ByteOrZero(bytes, p + 1), ByteOrZero(bytes, p + 2), ByteOrZero(bytes, p + 3));
    assert k == 0 || k == 1 || k == 2 || k == 3;
  }

  lemma MergedBytes(was: Word, w: Word)
    ensures ByteOf(MergeHigh(was, w), 2) == ByteOf(w, 0) && ByteOf(MergeHigh(was, w), 3) == ByteOf(w, 1)
  {
  }

  // What lands of a load that passes the test.
  lemma LandedByte(op: DsOp, regs: VRegs, bytes: seq<Byte>, i: nat)
    requires op.DsLoad? && i < Moved(op) && |bytes| == op.width
    ensures Received(op, LoadInto(regs, op.dst, bytes, op.d16hi), i) == bytes[i]
  {
    hide ByteOf, Dword, MergeHigh;
    DwordBytes(bytes, i / 4, i % 4);
    if op.dst.One? && op.d16hi {
      MergedBytes(regs[op.dst.n], Dword(bytes, 0));
    }
  }

  // What a refused load leaves.
  lemma RefusedByte(op: DsOp, regs: VRegs)
    requires op.DsLoad? && Receives(op) && 0 < Moved(op)
    ensures Received(op, ZeroInto(regs, op.dst, op.width, op.d16hi), 0) == 0
  {
    hide ByteOf, LowHalf;
    ZeroBytes(0);
    if op.dst.One? && op.d16hi {
      LowHalfBytes(regs[op.dst.n]);
    }
  }

  /** A load is counted as zeroed if and only if a byte that lands can differ
      from the image's. */
  lemma {:induction false} ZeroedExactlyWhen(cfg: Config, op: DsOp, regs: VRegs, lds: Lds)
    requires op.DsLoad? && Receives(op)
    ensures DsOne(cfg, op, regs, lds).zeroed == 0 <==> LoadDelivers(cfg, op, regs)
  {
    hide EffectiveAddress, RawAddress, LoadInto, ZeroInto, Received, Receives;
    var ea := AddressOf(cfg, regs, op.addr, op.imm);
    if DsOne(cfg, op, regs, lds).zeroed == 0 {
      forall image: Lds, i: nat | i < Moved(op) ensures ByteDelivered(cfg, op, regs, image, i) {
        LandedByte(op, regs, LdsBytes(cfg, image, ea, op.width), i);
        ReceivesNow(op);
      }
    } else {
      var ones: Lds := seq(LDS_IMAGE, _ => 1);
      if InRange(cfg, ea, op.width) {
        LandedByte(op, regs, LdsBytes(cfg, ones, ea, op.width), Moved(op) - 1);
        assert !ByteDelivered(cfg, op, regs, ones, Moved(op) - 1);
      } else {
        RefusedByte(op, regs);
        assert !ByteDelivered(cfg, op, regs, ones, 0);
      }
    }
  }

  lemma ReceivesNow(op: DsOp)
    requires op.DsLoad? && Receives(op)
    ensures op.dst.Many? ==> op.width >= 4
  {
  }

  /** With 15872 bytes allocated the legacy test still passes an access at 16000:
      the store changes nothing and the load reads zero, and neither is counted. */
  lemma {:induction false} LegacyStoreVanishes(regs: VRegs, lds: Lds)
    requires regs[0] == 16000
    ensures var cfg := Config(Legacy, 15872);
      var store, load := DsStore(0, One(1), 0, 4, false), DsLoad(One(1), 0, 0, 4, false);
      && DsOne(cfg, store, regs, lds).lds == lds && RecordLane(cfg, store, regs) == Counts(1, 0, 0)
      && DsOne(cfg, load, regs, lds).regs[1] == 0 && RecordLane(cfg, load, regs) == Counts(1, 0, 0)
  {
    hide DataBytes, Dword;
    var cfg := Config(Legacy, 15872);
    assert RawAddress(16000, 0) == 16000;
    StoreMoves(DsStore(0, One(1), 0, 4, false), regs);
    assert LdsBytes(cfg, lds, 16000, 4) == [0, 0, 0, 0];
    ZeroDword();
  }

  lemma ZeroDword()
    ensures Dword([0, 0, 0, 0], 0) == 0
  {
  }

  lemma {:induction false} DsOfLaneZero(cfg: Config, op: DsOp, v: VFile, lds: Lds, n: nat)
    requires 1 <= n <= LANES
    ensures var r := DsOne(cfg, op, v[0], lds);
            DsUpTo(cfg, op, 1, v, lds, n) == DsWave(v[0 := r.regs], r.lds, r.refused, r.zeroed, r.dropped)
  {
    hide Bit, DsOne;
    OnlyLaneZero(n - 1);
    if n > 1 {
      DsOfLaneZero(cfg, op, v, lds, n - 1);
    }
  }

  lemma {:induction false} RecordOfLaneZero(cfg: Config, op: DsOp, v: VFile, n: nat)
    requires 1 <= n <= LANES
    ensures RecordUpTo(cfg, op, 1, v, n) == RecordLane(cfg, op, v[0])
  {
    hide Bit, RecordLane;
    OnlyLaneZero(n - 1);
    if n > 1 {
      RecordOfLaneZero(cfg, op, v, n - 1);
    }
  }

  // ---------------- what was stored is loaded ----------------

  lemma {:induction false} ImageReadBack(cfg: Config, lds: Lds, ea: nat, bytes: seq<Byte>)
    requires ea + |bytes| <= cfg.alloc
    ensures LdsBytes(cfg, LdsPut(cfg, lds, ea, bytes), ea, |bytes|) == bytes
    ensures forall i: nat :: i < LDS_IMAGE && !(ea <= i < ea + |bytes|) ==> LdsPut(cfg, lds, ea, bytes)[i] == lds[i]
  {
  }

  lemma WordsBack(words: seq<Word>, j: nat)
    requires j < |words|
    ensures Dword(DataBytes(words, 4 * |words|), j) == words[j]
  {
    hide ByteOf, Wide, ByteAt, DataBytes;
    var b, p := DataBytes(words, 4 * |words|), 4 * j;
    DataByte(words, p);
    DataByte(words, p + 1);
    DataByte(words, p + 2);
    DataByte(words, p + 3);
    WordBack(words[j]);
  }

  lemma DataByte(words: seq<Word>, k: nat)
    requires k < 4 * |words|
    ensures ByteAt(DataBytes(words, 4 * |words|), k) == Wide(ByteOf(words[k / 4], k % 4))
  {
    hide ByteOf, Wide;
  }

  /** A lane that stores whole registers inside the allocation and loads them
      back from the same address gets them back, whichever rule is in force. */
  lemma {:induction false} StoreThenLoad(cfg: Config, regs: VRegs, lds: Lds, addr: VIdx, imm: int, data: VData, dst: VData)
    requires Dwords(data) == Dwords(dst) <= 4
    requires !Misses(cfg, regs, addr, imm, 4 * Dwords(data))
    requires EffectiveAddress(cfg, RawAddress(regs[addr], imm)) + 4 * Dwords(data) <= cfg.alloc
    ensures var width: Width := 4 * Dwords(data);
      var stored := DsOne(cfg, DsStore(addr, data, imm, width, false), regs, lds);
      var loaded := DsOne(cfg, DsLoad(dst, addr, imm, width, false), regs, stored.lds);
      stored.dropped == 0 && loaded.zeroed == 0 && Data(loaded.regs, dst) == Data(regs, data)
  {
    hide LdsBytes, LdsPut, DataBytes, Dword, EffectiveAddress, RawAddress, InRange, Data, PutBytes, MergeHigh;
    var words := Data(regs, data);
    var bytes := DataBytes(words, 4 * |words|);
    DataLength(words);
    DataPut(regs, data, bytes);
    DataPut(regs, dst, bytes);
    ImageReadBack(cfg, lds, EffectiveAddress(cfg, RawAddress(regs[addr], imm)), bytes);
    forall j: nat | j < |words| ensures Dword(bytes, j) == words[j] { WordsBack(words, j); }
    assert Data(PutBytes(regs, dst, bytes), dst) == words;
  }

  lemma DataPut(regs: VRegs, d: VData, bytes: seq<Byte>)
    ensures |Data(regs, d)| == Dwords(d) == |Data(PutBytes(regs, d, bytes), d)|
    ensures forall j: nat :: j < Dwords(d) ==> Data(PutBytes(regs, d, bytes), d)[j] == Dword(bytes, j)
  {
    hide Dword;
  }

  lemma DataLength(words: seq<Word>)
    ensures |DataBytes(words, 4 * |words|)| == 4 * |words|
  {
  }
}
