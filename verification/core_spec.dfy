/** One step of one wave, as a function of its registers and the memory it
    shares with the other waves. */
module CoreSpec {
  import opened Words
  import opened Isa

  const LDS_IMAGE: nat := 0x10000
  const M0_REG: SIdx := 76

  type SFile = s: seq<Word> | |s| == 128 witness seq(128, i => 0)
  type VRegs = r: seq<Word> | |r| == 192 witness seq(192, i => 0)
  type VFile = v: seq<VRegs> | |v| == LANES witness CLEAR
  const CLEAR_REGS: VRegs := seq(192, i => 0)
  const CLEAR: seq<VRegs> := seq(LANES, l => CLEAR_REGS)
  type Lds = b: seq<Byte> | |b| == LDS_IMAGE witness seq(0x10000, i => 0)
  type Memory = map<nat, Word>

  datatype OobSem = Legacy | Trunc16 | U32
  // The allocation hypothesis never exceeds the LDS image.
  type Alloc = a: nat | a <= LDS_IMAGE
  datatype Config = Config(sem: OobSem, alloc: Alloc)

  datatype Key = Key(pc: nat, exec: Word, vcc: Word, scc: bool, s: SFile)
  // The full-state fingerprint is taken to be injective: it is what it hashes.
  datatype Fingerprint = Fingerprint(v: VFile, mem: Memory)
  datatype CycleTable =
    | NoKeys                                   // membership is always false
    | Keys(first: map<Key, nat>, full: map<Key, Fingerprint>)

  datatype Core = Core(
    pc: nat, s: SFile, undef: set<nat>, v: VFile, vcc: Word, scc: bool, exec: Word,
    steps: nat, terminated: bool, cycles: CycleTable)

  datatype Shared = Shared(lds: Lds, mem: Memory)

  // How a call of step() comes back.
  datatype Signal =
    | Fine
    | End
    | UndefRead(reg: nat)
    | Cycle
    | PcOverrun
    | NotImplemented

  datatype Stepped = Stepped(core: Core, shared: Shared, signal: Signal)

  // ---------------- scalar operands ----------------

  datatype Read<T> = Got(value: T) | Refused(reg: nat)

  function SGet(c: Core, a: SOperand): Read<Word> {
    match a
    case SReg(i) => if i in c.undef then Refused(i) else Got(c.s[i])
    case VccLo => Got(c.vcc)
    case ExecLo => Got(c.exec)
    case SccBit => Got(if c.scc then 1 else 0)
    case M0 => Got(c.s[M0_REG])
    case NullReg => Got(0)
    case Lit(v) => Got(Trunc(v))
  }

  // The same operand before any masking: only a literal can be negative.
  function SGetInt(c: Core, a: SOperand): Read<int> {
    match a
    case Lit(v) => Got(v)
    case _ =>
      match SGet(c, a)
      case Got(w) => Got(w as int)
      case Refused(i) => Refused(i)
  }

  // None when the operand is not a destination.
  function SSet(c: Core, dst: SOperand, w: Word): Option<Core> {
    match dst
    case SReg(i) => Some(c.(s := c.s[i := w], undef := c.undef - {i}))
    case VccLo => Some(c.(vcc := w))
    case ExecLo => Some(c.(exec := w))
    case SccBit => Some(c.(scc := w & 1 == 1))
    case NullReg => Some(c)
    case M0 => None
    case Lit(_) => None
  }

  function Write(c: Core, sh: Shared, dst: SOperand, w: Word): Stepped {
    match SSet(c, dst, w)
    case Some(c') => Stepped(c', sh, Fine)
    case None => Stepped(c, sh, NotImplemented)
  }

  function StepAdd(c: Core, sh: Shared, dst: SOperand, a: SOperand, b: SOperand, carry: int): Stepped {
    match SGetInt(c, a)
    case Refused(i) => Stepped(c, sh, UndefRead(i))
    case Got(x) =>
      match SGetInt(c, b)
      case Refused(i) => Stepped(c, sh, UndefRead(i))
      case Got(y) =>
        var r := x + y + carry;
        var w := Write(c, sh, dst, Trunc(r));
        if w.signal.Fine? then w.(core := w.core.(scc := r > 0xFFFF_FFFF)) else w
  }

  function StepSBin(c: Core, sh: Shared, op: SBinary, dst: SOperand, a: SOperand, b: SOperand): Stepped {
    match SGet(c, a)
    case Refused(i) => Stepped(c, sh, UndefRead(i))
    case Got(x) =>
      match SGet(c, b)
      case Refused(i) => Stepped(c, sh, UndefRead(i))
      case Got(y) => Write(c, sh, dst, EvalS(op, x, y))
  }

  function StepMov(c: Core, sh: Shared, dst: SOperand, a: SOperand): Stepped {
    match SGet(c, a)
    case Refused(i) => Stepped(c, sh, UndefRead(i))
    case Got(x) => Write(c, sh, dst, x)
  }

  function StepCmp(c: Core, sh: Shared, op: SCompare, a: SOperand, b: SOperand): Stepped {
    match SGet(c, a)
    case Refused(i) => Stepped(c, sh, UndefRead(i))
    case Got(x) =>
      match SGet(c, b)
      case Refused(i) => Stepped(c, sh, UndefRead(i))
      case Got(y) => Stepped(c.(scc := HoldsS(op, x, y)), sh, Fine)
  }

  function StepSaveExec(c: Core, sh: Shared, op: SaveExec, dst: SOperand, a: SOperand): Stepped {
    match SGet(c, a)
    case Refused(i) => Stepped(c, sh, UndefRead(i))
    case Got(x) =>
      var w := Write(c, sh, dst, c.exec);
      if w.signal.Fine? then w.(core := w.core.(exec := NewExec(op, c.exec, x))) else w
  }

  predicate Taken(c: Core, b: Branch) {
    match b
    case Always => true
    case Scc0 => !c.scc
    case Scc1 => c.scc
    case VccZ => c.vcc == 0
    case VccNz => c.vcc != 0
    case ExecZ => c.exec == 0
    case ExecNz => c.exec != 0
  }

  // ---------------- memory ----------------

  const ADDRESS_SPACE: nat := 0x1_0000_0000_0000_0000

  // One byte of global memory: a byte key wins, then the aligned dword key.
  function MemByte(mem: Memory, a: nat): Byte {
    if a in mem then ByteOf(mem[a], 0)
    else if a - a % 4 in mem then ByteOf(mem[a - a % 4], a % 4)
    else 0
  }

  function ReadBytes(mem: Memory, a: nat, n: nat): seq<Byte> {
    seq(n, j requires 0 <= j < n => MemByte(mem, (a + j) % ADDRESS_SPACE))
  }

  // Stores are byte by byte, each under its own key.
  function WriteBytes(mem: Memory, a: nat, bytes: seq<Byte>): Memory {
    if bytes == [] then mem
    else
      var n := |bytes| - 1;
      WriteBytes(mem, a, bytes[..n])[a + n := Wide(bytes[n])]
  }

  function StepSLoad(c: Core, sh: Shared, dst: SSpan, base: SSpan, offset: SOperand): Stepped {
    match PairGet(c, base, base.count)
    case Refused(i) => Stepped(c, sh, UndefRead(i))
    case Got(b) =>
      match SGetInt(c, offset)
      case Refused(i) => Stepped(c, sh, UndefRead(i))
      case Got(o) =>
        var a := (b + o) % ADDRESS_SPACE;
        var bytes := ReadBytes(sh.mem, a, 4 * dst.count);
        var s' := seq(128, i requires 0 <= i < 128 =>
          if dst.first <= i < dst.first + dst.count then Dword(bytes, i - dst.first) else c.s[i]);
        Stepped(c.(s := s', undef := set i | i in c.undef && !(dst.first <= i < dst.first + dst.count)), sh, Fine)
  }

  // s[a:b] as one integer; registers are checked from the last to the first.
  function PairGet(c: Core, p: SSpan, n: nat): Read<int>
    requires n <= p.count
  {
    if n == 0 then Got(0)
    else
      var i := p.first + (p.count - n);
      match PairGet(c, p, n - 1)
      case Refused(j) => Refused(j)
      case Got(rest) =>
        if i in c.undef then Refused(i) else Got(rest * 0x1_0000_0000 + (c.s[i] as int))
  }

  // ---------------- vector operands ----------------

  // A vector operand once its scalar part has been read.
  datatype LaneSource = FromReg(n: VIdx) | FromNeg(n: VIdx) | FromMask(m: Word) | Constant(w: Word)

  function Resolve(c: Core, x: VOperand): Read<LaneSource> {
    match x
    case VReg(n) => Got(FromReg(n))
    case VNegReg(n) => Got(FromNeg(n))
    case VccLane => Got(FromMask(c.vcc))
    case ExecLane => Got(FromMask(c.exec))
    case VScalar(i) => if i in c.undef then Refused(i) else Got(Constant(c.s[i]))
    case VLit(w) => Got(Constant(w))
  }

  function LaneValue(src: LaneSource, regs: VRegs, lane: nat): Word
    requires lane < LANES
  {
    match src
    case FromReg(n) => regs[n]
    case FromNeg(n) => 0 - regs[n]
    case FromMask(m) => if Bit(m, lane) then 1 else 0
    case Constant(w) => w
  }

  datatype Sources = Both(x: LaneSource, y: LaneSource) | NoLane | Stuck(reg: nat)

  // The first active lane reads the operands first, x before y.
  function Operands(c: Core, x: VOperand, y: VOperand): Sources {
    if c.exec == 0 then NoLane
    else
      match Resolve(c, x)
      case Refused(i) => Stuck(i)
      case Got(sx) =>
        match Resolve(c, y)
        case Refused(i) => Stuck(i)
        case Got(sy) => Both(sx, sy)
  }

  function VBinLane(op: VBinary, dst: VIdx, x: LaneSource, y: LaneSource, regs: VRegs, lane: nat): VRegs
    requires lane < LANES
  {
    regs[dst := EvalV(op, LaneValue(x, regs, lane), LaneValue(y, regs, lane))]
  }

  function VBinAll(op: VBinary, dst: VIdx, x: LaneSource, y: LaneSource, exec: Word, v: VFile): VFile {
    seq(LANES, l requires 0 <= l < LANES => if Bit(exec, l) then VBinLane(op, dst, x, y, v[l], l) else v[l])
  }

  function CompareAll(op: VCompare, x: LaneSource, y: LaneSource, v: VFile): (p: seq<bool>)
    ensures |p| == LANES
  {
    seq(LANES, l requires 0 <= l < LANES => HoldsV(op, LaneValue(x, v[l], l), LaneValue(y, v[l], l)))
  }

  function CompareMask(op: VCompare, src: Sources, exec: Word, v: VFile): Word
    requires !src.Stuck?
  {
    if src.Both? then MaskUpTo(exec, CompareAll(op, src.x, src.y, v), LANES) else 0
  }

  function StepVBin(c: Core, sh: Shared, op: VBinary, dst: VIdx, x: VOperand, y: VOperand): Stepped {
    match Operands(c, x, y)
    case NoLane => Stepped(c, sh, Fine)
    case Stuck(i) => Stepped(c, sh, UndefRead(i))
    case Both(sx, sy) => Stepped(c.(v := VBinAll(op, dst, sx, sy, c.exec, c.v)), sh, Fine)
  }

  function StepVCmp(c: Core, sh: Shared, op: VCompare, dst: SOperand, x: VOperand, y: VOperand): Stepped {
    var src := Operands(c, x, y);
    if src.Stuck? then Stepped(c, sh, UndefRead(src.reg))
    else Write(c, sh, dst, CompareMask(op, src, c.exec, c.v))
  }

  function StepVCmpx(c: Core, sh: Shared, op: VCompare, x: VOperand, y: VOperand): Stepped {
    var src := Operands(c, x, y);
    if src.Stuck? then Stepped(c, sh, UndefRead(src.reg))
    else Stepped(c.(exec := CompareMask(op, src, c.exec, c.v)), sh, Fine)
  }

  // Every active lane reads the dword lane (x >> 2) & 31 holds, before any lane is written.
  function PermuteLane(x: LaneSource, y: LaneSource, v: VFile, lane: nat): Word
    requires lane < LANES
  {
    var from := ((LaneValue(x, v[lane], lane) >> 2) & 31) as nat % LANES;
    LaneValue(y, v[from], from)
  }

  function PermuteAll(dst: VIdx, x: LaneSource, y: LaneSource, exec: Word, v: VFile): VFile {
    seq(LANES, l requires 0 <= l < LANES =>
      if Bit(exec, l) then v[l][dst := PermuteLane(x, y, v, l)] else v[l])
  }

  function StepBpermute(c: Core, sh: Shared, dst: VIdx, x: VOperand, y: VOperand): Stepped {
    match Operands(c, x, y)
    case NoLane => Stepped(c, sh, Fine)
    case Stuck(i) => Stepped(c, sh, UndefRead(i))
    case Both(sx, sy) => Stepped(c.(v := PermuteAll(dst, sx, sy, c.exec, c.v)), sh, Fine)
  }

  // ---------------- vector data ----------------

  function Data(regs: VRegs, d: VData): seq<Word> {
    match d
    case One(n) => [regs[n]]
    case Many(s) => regs[s.first..s.first + s.count]
  }

  // The little-endian bytes of the dwords, cut to n.
  function DataBytes(words: seq<Word>, n: nat): seq<Byte> {
    var m := if n < 4 * |words| then n else 4 * |words|;
    seq(m, k requires 0 <= k < m => ByteOf(words[k / 4], k % 4))
  }

  function PutBytes(regs: VRegs, dst: VData, bytes: seq<Byte>): VRegs {
    match dst
    case One(n) => regs[n := Dword(bytes, 0)]
    case Many(s) =>
      seq(192, i requires 0 <= i < 192 =>
        if s.first <= i < s.first + s.count then Dword(bytes, i - s.first) else regs[i])
  }

  // ---------------- LDS ----------------

  // The 32-bit sum, wrapped before any range check.
  function RawAddress(v: Word, imm: int): (raw: nat)
    ensures raw < 0x1_0000_0000
  {
    ((v as int) + imm) % 0x1_0000_0000
  }

  function EffectiveAddress(cfg: Config, raw: nat): nat {
    match cfg.sem
    case Legacy => raw % 0x4000
    case Trunc16 => raw % 0x10000
    case U32 => raw
  }

  predicate InRange(cfg: Config, ea: nat, width: nat) {
    ea + width <= if cfg.sem.Legacy? then 0x4000 else cfg.alloc
  }

  function LdsBytes(cfg: Config, lds: Lds, ea: nat, n: nat): seq<Byte> {
    seq(n, i requires 0 <= i < n => if ea + i < cfg.alloc then lds[ea + i] else 0)
  }

  function LdsPut(cfg: Config, lds: Lds, ea: nat, bytes: seq<Byte>): Lds {
    seq(LDS_IMAGE, i requires 0 <= i < LDS_IMAGE =>
      if ea <= i < ea + |bytes| && i < cfg.alloc then bytes[i - ea] else lds[i])
  }

  // A d16_hi load fills the high half of its register and keeps the low half.
  function MergeHigh(was: Word, w: Word): Word {
    (was & 0xFFFF) | ((w & 0xFFFF) << 16)
  }

  function LowHalf(w: Word): Word {
    w & 0xFFFF
  }

  function LoadInto(regs: VRegs, dst: VData, bytes: seq<Byte>, d16hi: bool): VRegs {
    if dst.One? && d16hi then regs[dst.n := MergeHigh(regs[dst.n], Dword(bytes, 0))]
    else PutBytes(regs, dst, bytes)
  }

  // What an out-of-range load leaves in its destination.
  function ZeroInto(regs: VRegs, dst: VData, width: nat, d16hi: bool): VRegs {
    match dst
    case One(n) => regs[n := if d16hi then LowHalf(regs[n]) else 0]
    case Many(s) =>
      seq(192, i requires 0 <= i < 192 =>
        if s.first <= i < s.first + s.count && i < s.first + width / 4 then 0 else regs[i])
  }

  // One lane's share of a DS instruction.  The counters are not part of the
  // machine: accesses the address test refused, loads of which something was
  // read as zero, stores of which something was dropped.
  datatype DsLane = DsLane(regs: VRegs, lds: Lds, refused: nat, zeroed: nat, dropped: nat)

  function Hit(b: bool): nat { if b then 1 else 0 }

  // The bytes of a load that reach its destination.
  function Landing(dst: VData, width: nat, d16hi: bool): nat {
    var room := if dst.Many? then 4 * dst.span.count else if d16hi then 2 else 4;
    if width < room then width else room
  }

  function DsLoadOne(cfg: Config, dst: VData, addr: VIdx, imm: int, width: nat, d16hi: bool, regs: VRegs, lds: Lds): DsLane {
    var ea := EffectiveAddress(cfg, RawAddress(regs[addr], imm));
    if InRange(cfg, ea, width) then
      DsLane(LoadInto(regs, dst, LdsBytes(cfg, lds, ea, width), d16hi), lds,
             0, Hit(ea + Landing(dst, width, d16hi) > cfg.alloc), 0)
    else DsLane(ZeroInto(regs, dst, width, d16hi), lds, 1, Hit(dst.Many? ==> width >= 4), 0)
  }

  function StoreWords(regs: VRegs, data: VData, d16hi: bool): seq<Word> {
    var words := Data(regs, data);
    if d16hi then [words[0] >> 16] else words
  }

  function DsStoreOne(cfg: Config, addr: VIdx, bytes: seq<Byte>, imm: int, width: nat, regs: VRegs, lds: Lds): DsLane {
    var ea := EffectiveAddress(cfg, RawAddress(regs[addr], imm));
    if InRange(cfg, ea, width) then DsLane(regs, LdsPut(cfg, lds, ea, bytes), 0, 0, Hit(ea + |bytes| > cfg.alloc))
    else DsLane(regs, lds, 1, 0, 1)
  }

  // Half j of a two-address load fills two registers when both fit the range.
  function HalfInto(regs: VRegs, s: VSpan, j: nat, lo: Word, hi: Word): VRegs {
    if 2 * j + 1 < s.count then regs[s.first + 2 * j := lo][s.first + 2 * j + 1 := hi] else regs
  }

  function DsLoadHalf(cfg: Config, s: VSpan, addr: VIdx, off: int, j: nat, regs: VRegs, lds: Lds): DsLane {
    var ea := EffectiveAddress(cfg, RawAddress(regs[addr], 8 * off));
    if InRange(cfg, ea, 8) then
      var bytes := LdsBytes(cfg, lds, ea, 8);
      DsLane(HalfInto(regs, s, j, Dword(bytes, 0), Dword(bytes, 1)), lds,
             0, Hit(2 * j + 1 < s.count && ea + 8 > cfg.alloc), 0)
    else DsLane(HalfInto(regs, s, j, 0, 0), lds, 1, Hit(2 * j + 1 < s.count), 0)
  }

  // The 8 bytes of one half of a two-address store: two registers, or one and zeros.
  function PairBytes(regs: VRegs, d: VData): seq<Byte> {
    var words := Data(regs, d);
    DataBytes(if |words| > 1 then words[..2] else words + [0], 8)
  }

  function Then(a: DsLane, b: DsLane): DsLane {
    DsLane(b.regs, b.lds, a.refused + b.refused, a.zeroed + b.zeroed, a.dropped + b.dropped)
  }

  function DsOne(cfg: Config, op: DsOp, regs: VRegs, lds: Lds): DsLane {
    match op
    case DsLoad(dst, addr, imm, width, d16hi) => DsLoadOne(cfg, dst, addr, imm, width, d16hi, regs, lds)
    case DsStore(addr, data, imm, width, d16hi) =>
      DsStoreOne(cfg, addr, DataBytes(StoreWords(regs, data, d16hi), width), imm, width, regs, lds)
    case DsLoad2(s, addr, off0, off1) =>
      var first := DsLoadHalf(cfg, s, addr, off0, 0, regs, lds);
      Then(first, DsLoadHalf(cfg, s, addr, off1, 1, first.regs, lds))
    case DsStore2(addr, data0, data1, off0, off1) =>
      var first := DsStoreOne(cfg, addr, PairBytes(regs, data0), 8 * off0, 8, regs, lds);
      Then(first, DsStoreOne(cfg, addr, PairBytes(regs, data1), 8 * off1, 8, regs, first.lds))
  }

  datatype DsWave = DsWave(v: VFile, lds: Lds, refused: nat, zeroed: nat, dropped: nat)

  // The first n lanes of a DS instruction, in lane order.
  function DsUpTo(cfg: Config, op: DsOp, exec: Word, v: VFile, lds: Lds, n: nat): DsWave
    requires n <= LANES
  {
    if n == 0 then DsWave(v, lds, 0, 0, 0)
    else
      var w := DsUpTo(cfg, op, exec, v, lds, n - 1);
      if Bit(exec, n - 1) then
        var r := DsOne(cfg, op, w.v[n - 1], w.lds);
        DsWave(w.v[n - 1 := r.regs], r.lds, w.refused + r.refused, w.zeroed + r.zeroed, w.dropped + r.dropped)
      else w
  }

  // ---------------- global memory ----------------

  // An address operand once its scalar base has been read.
  datatype GlobalBase = FromPair(lo: VIdx, hi: VIdx) | Indexed(n: VIdx, base: int)

  function ResolveBase(c: Core, at: GlobalAt): Read<GlobalBase> {
    match at
    case AtPair(lo, hi) => Got(FromPair(lo, hi))
    case AtLane(n) => Got(Indexed(n, 0))
    case AtBase(n, p) =>
      match PairGet(c, p, p.count)
      case Refused(i) => Refused(i)
      case Got(base) => Got(Indexed(n, base))
  }

  function GlobalAddress(regs: VRegs, at: GlobalBase, off: int): nat {
    match at
    case FromPair(lo, hi) => ((regs[lo] as int) + 0x1_0000_0000 * (regs[hi] as int) + off) % ADDRESS_SPACE
    case Indexed(n, base) => ((regs[n] as int) + base + off) % ADDRESS_SPACE
  }

  function SignFill(bytes: seq<Byte>): Word {
    if |bytes| == 0 || bytes[|bytes| - 1] & 0x80 == 0 then 0
    else if |bytes| == 1 then 0xFFFF_FF00
    else if |bytes| == 2 then 0xFFFF_0000
    else if |bytes| == 3 then 0xFF00_0000
    else 0
  }

  function GlobalLoadLane(mem: Memory, dst: VData, at: GlobalBase, off: int, width: nat, signed: bool, regs: VRegs): VRegs {
    var bytes := ReadBytes(mem, GlobalAddress(regs, at, off), width);
    var r := PutBytes(regs, dst, bytes);
    if signed then WithSign(r, dst, bytes) else r
  }

  // The sign fill goes to the first destination register.
  function WithSign(regs: VRegs, dst: VData, bytes: seq<Byte>): VRegs {
    var d := if dst.One? then dst.n else dst.span.first;
    regs[d := Filled(regs[d], SignFill(bytes))]
  }

  function Filled(w: Word, fill: Word): Word {
    w | fill
  }

  function GlobalLoadAll(mem: Memory, dst: VData, at: GlobalBase, off: int, width: nat, signed: bool, exec: Word, v: VFile): VFile {
    seq(LANES, l requires 0 <= l < LANES =>
      if Bit(exec, l) then GlobalLoadLane(mem, dst, at, off, width, signed, v[l]) else v[l])
  }

  // The first n lanes of a store, in lane order: a later lane overwrites an earlier one.
  function StoreUpTo(mem: Memory, at: GlobalBase, data: VData, off: int, width: nat, exec: Word, v: VFile, n: nat): Memory
    requires n <= LANES
  {
    if n == 0 then mem
    else
      var m := StoreUpTo(mem, at, data, off, width, exec, v, n - 1);
      if Bit(exec, n - 1) then
        WriteBytes(m, GlobalAddress(v[n - 1], at, off), DataBytes(Data(v[n - 1], data), width))
      else m
  }

  // The first active lane reads the scalar base; with no active lane nothing does.
  function StepGlobal(c: Core, sh: Shared, op: GlobalOp): Stepped {
    if c.exec == 0 then Stepped(c, sh, Fine)
    else
      match ResolveBase(c, op.at)
      case Refused(i) => Stepped(c, sh, UndefRead(i))
      case Got(at) => Stepped(c.(v := GlobalLoaded(c, sh, op, at)), sh.(mem := GlobalStored(c, sh, op, at)), Fine)
  }

  function GlobalLoaded(c: Core, sh: Shared, op: GlobalOp, at: GlobalBase): VFile {
    match op
    case GlobalLoad(dst, _, off, width, signed) => GlobalLoadAll(sh.mem, dst, at, off, width, signed, c.exec, c.v)
    case GlobalStore(_, _, _, _) => c.v
  }

  function GlobalStored(c: Core, sh: Shared, op: GlobalOp, at: GlobalBase): Memory {
    match op
    case GlobalLoad(_, _, _, _, _) => sh.mem
    case GlobalStore(_, data, off, width) => StoreUpTo(sh.mem, at, data, off, width, c.exec, c.v, LANES)
  }

  function StepDs(cfg: Config, c: Core, sh: Shared, op: DsOp): Stepped {
    var w := DsUpTo(cfg, op, c.exec, c.v, sh.lds, LANES);
    Stepped(c.(v := w.v), sh.(lds := w.lds), Fine)
  }

  // ---------------- dispatch ----------------

  // c is the core after the program counter has moved past the instruction.
  function Dispatch(cfg: Config, c: Core, sh: Shared, op: Opcode): Stepped {
    match op
    case SMov(dst, a) => StepMov(c, sh, dst, a)
    case SAddU32(dst, a, b) => StepAdd(c, sh, dst, a, b, 0)
    case SAddcU32(dst, a, b) => StepAdd(c, sh, dst, a, b, if c.scc then 1 else 0)
    case SBin(o, dst, a, b) => StepSBin(c, sh, o, dst, a, b)
    case SCselect(dst, a, b) => StepMov(c, sh, dst, if c.scc then a else b)
    case SCmp(o, a, b) => StepCmp(c, sh, o, a, b)
    case SSaveExec(o, dst, a) => StepSaveExec(c, sh, o, dst, a)
    case SBranch(b, target) => Stepped(if Taken(c, b) then c.(pc := target) else c, sh, Fine)
    case SLoad(dst, base, off) => StepSLoad(c, sh, dst, base, off)
    case VBin(o, dst, x, y) => StepVBin(c, sh, o, dst, x, y)
    case VCmp(o, dst, x, y) => StepVCmp(c, sh, o, dst, x, y)
    case VCmpx(o, x, y) => StepVCmpx(c, sh, o, x, y)
    case Ds(d) => StepDs(cfg, c, sh, d)
    case DsBpermute(dst, x, y) => StepBpermute(c, sh, dst, x, y)
    case Global(g) => StepGlobal(c, sh, g)
    case Nop => Stepped(c, sh, Fine)
    case Barrier(known) => Stepped(c, sh, if known then Fine else NotImplemented)
    case EndPgm => Stepped(c.(terminated := true), sh, End)
    case Unimplemented => Stepped(c, sh, NotImplemented)
  }

  function KeyOf(c: Core): Key {
    Key(c.pc, c.exec, c.vcc, c.scc, c.s)
  }

  function FingerprintOf(c: Core, sh: Shared): Fingerprint {
    Fingerprint(c.v, sh.mem)
  }

  // The same control state, and the same registers and memory when it was last fingerprinted.
  predicate Recurs(c: Core, sh: Shared) {
    && c.cycles.Keys?
    && KeyOf(c) in c.cycles.first
    && KeyOf(c) in c.cycles.full
    && c.cycles.full[KeyOf(c)] == FingerprintOf(c, sh)
  }

  function Remember(c: Core, sh: Shared): CycleTable {
    match c.cycles
    case NoKeys => NoKeys
    case Keys(first, full) =>
      Keys(if KeyOf(c) in first then first else first[KeyOf(c) := c.steps],
           full[KeyOf(c) := FingerprintOf(c, sh)])
  }

  function Counted(c: Core): Core {
    c.(steps := c.steps + 1)
  }

  // Every 256th step is sampled.
  function Sampled(c: Core, sh: Shared): Core {
    if Counted(c).steps % 256 == 0 then Counted(c).(cycles := Remember(Counted(c), sh)) else Counted(c)
  }

  /** One call of step(): count, sample every 256th step, fetch, dispatch. */
  function Step(prog: Program, cfg: Config, c: Core, sh: Shared): Stepped {
    if c.pc >= |prog| then Stepped(c, sh, PcOverrun)
    else if Counted(c).steps % 256 == 0 && Recurs(Counted(c), sh) then Stepped(Counted(c), sh, Cycle)
    else Dispatch(cfg, Sampled(c, sh).(pc := c.pc + 1), sh, prog[c.pc].op)
  }
}
