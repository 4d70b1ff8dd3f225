/** The interpreter core as the emulator runs it: an object whose handlers
    update its registers, the shared LDS image and the shared memory in place.
    Every handler is proved to do what CoreSpec says of its instruction. */
module EmulatorCore {
  import opened Words
  import opened Isa
  import C = CoreSpec
  import opened LdsModel

  // What the waves of one workgroup share.
  class Memories {
    const lds: array<Byte>
    var mem: C.Memory

    ghost predicate Valid() {
      lds.Length == C.LDS_IMAGE
    }

    ghost function Value(): C.Shared
      requires Valid()
      reads this, lds
    {
      C.Shared(lds[..], mem)
    }

    constructor (mem: C.Memory)
      ensures Valid() && fresh(lds) && Value() == C.Shared(seq(C.LDS_IMAGE, i => 0), mem)
    {
      this.mem := mem;
      lds := new Byte[C.LDS_IMAGE](i => 0);
      new;
      assert lds[..] == seq(C.LDS_IMAGE, i => 0);
    }
  }

  lemma SBinIs(c: C.Core, sh: C.Shared, op: SBinary, dst: SOperand, a: SOperand, b: SOperand)
    ensures var x, y, r := C.SGet(c, a), C.SGet(c, b), C.StepSBin(c, sh, op, dst, a, b);
      && (x.Refused? ==> r == C.Stepped(c, sh, C.UndefRead(x.reg)))
      && (x.Got? && y.Refused? ==> r == C.Stepped(c, sh, C.UndefRead(y.reg)))
      && (x.Got? && y.Got? ==> r == C.Write(c, sh, dst, EvalS(op, x.value, y.value)))
  {
    hide C.SGet, C.Write, EvalS;
  }

  lemma SCmpIs(c: C.Core, sh: C.Shared, op: SCompare, a: SOperand, b: SOperand)
    ensures var x, y, r := C.SGet(c, a), C.SGet(c, b), C.StepCmp(c, sh, op, a, b);
      && (x.Refused? ==> r == C.Stepped(c, sh, C.UndefRead(x.reg)))
      && (x.Got? && y.Refused? ==> r == C.Stepped(c, sh, C.UndefRead(y.reg)))
      && (x.Got? && y.Got? ==> r == C.Stepped(c.(scc := HoldsS(op, x.value, y.value)), sh, C.Fine))
  {
    hide C.SGet, HoldsS;
  }

  lemma SaveExecIs(c: C.Core, sh: C.Shared, op: SaveExec, dst: SOperand, a: SOperand)
    ensures var x, r, w := C.SGet(c, a), C.StepSaveExec(c, sh, op, dst, a), C.Write(c, sh, dst, c.exec);
      && (x.Refused? ==> r == C.Stepped(c, sh, C.UndefRead(x.reg)))
      && (x.Got? ==> r == if w.signal.Fine? then w.(core := w.core.(exec := NewExec(op, c.exec, x.value))) else w)
  {
    hide C.SGet, C.Write, NewExec;
  }

  lemma AddStops(c: C.Core, sh: C.Shared, dst: SOperand, a: SOperand, b: SOperand, carry: int)
    ensures C.SGetInt(c, a).Refused? ==>
      C.StepAdd(c, sh, dst, a, b, carry) == C.Stepped(c, sh, C.UndefRead(C.SGetInt(c, a).reg))
    ensures C.SGetInt(c, a).Got? && C.SGetInt(c, b).Refused? ==>
      C.StepAdd(c, sh, dst, a, b, carry) == C.Stepped(c, sh, C.UndefRead(C.SGetInt(c, b).reg))
  {
    hide C.SGetInt, C.Write;
  }

  lemma AddIs(c: C.Core, sh: C.Shared, dst: SOperand, a: SOperand, b: SOperand, carry: int, r: int)
    requires C.SGetInt(c, a).Got? && C.SGetInt(c, b).Got?
    requires r == C.SGetInt(c, a).value + C.SGetInt(c, b).value + carry
    ensures var w := C.Write(c, sh, dst, Trunc(r));
      C.StepAdd(c, sh, dst, a, b, carry) == if w.signal.Fine? then w.(core := w.core.(scc := r > 0xFFFF_FFFF)) else w
  {
    hide C.SGetInt, C.Write, Trunc;
  }

  // The scalar register file after the first n dwords have been written.
  ghost function LoadedFile(file: C.SFile, dst: SSpan, bytes: seq<Byte>, n: nat): C.SFile {
    seq(128, i requires 0 <= i < 128 => if dst.first <= i < dst.first + n then Dword(bytes, i - dst.first) else file[i])
  }

  ghost function StillUndef(undef: set<nat>, dst: SSpan, n: nat): set<nat> {
    set i | i in undef && !(dst.first <= i < dst.first + n)
  }

  lemma LoadIs(c: C.Core, sh: C.Shared, dst: SSpan, base: SSpan, offset: SOperand, bytes: seq<Byte>)
    requires C.PairGet(c, base, base.count).Got? && C.SGetInt(c, offset).Got?
    requires bytes == C.ReadBytes(
      sh.mem, (C.PairGet(c, base, base.count).value + C.SGetInt(c, offset).value) % C.ADDRESS_SPACE, 4 * dst.count)
    ensures C.StepSLoad(c, sh, dst, base, offset) == C.Stepped(
      c.(s := LoadedFile(c.s, dst, bytes, dst.count), undef := StillUndef(c.undef, dst, dst.count)), sh, C.Fine)
  {
    hide C.PairGet, C.SGetInt, C.ReadBytes, Dword;
  }

  lemma LoadStops(c: C.Core, sh: C.Shared, dst: SSpan, base: SSpan, offset: SOperand)
    ensures C.PairGet(c, base, base.count).Refused? ==>
      C.StepSLoad(c, sh, dst, base, offset) == C.Stepped(c, sh, C.UndefRead(C.PairGet(c, base, base.count).reg))
    ensures C.PairGet(c, base, base.count).Got? && C.SGetInt(c, offset).Refused? ==>
      C.StepSLoad(c, sh, dst, base, offset) == C.Stepped(c, sh, C.UndefRead(C.SGetInt(c, offset).reg))
  {
    hide C.PairGet, C.SGetInt, C.ReadBytes, Dword;
  }

  class WaveCore {
    const prog: Program
    const cfg: C.Config
    const shared: Memories

    var pc: nat
    var s: C.SFile
    var undef: set<nat>
    var v: C.VFile
    var vcc: Word
    var scc: bool
    var exec: Word
    var steps: nat
    var terminated: bool
    var cycles: C.CycleTable

    // The recorder's counters.
    var events: nat
    var oobReads: nat
    var oobWrites: nat

    function Value(): C.Core
      reads this
    {
      C.Core(pc, s, undef, v, vcc, scc, exec, steps, terminated, cycles)
    }

    ghost predicate Valid() {
      shared.Valid()
    }

    // This core, the shared memory, and how the step came back.
    ghost function Now(signal: C.Signal): C.Stepped
      requires Valid()
      reads this, shared, shared.lds
    {
      C.Stepped(Value(), shared.Value(), signal)
    }

    constructor (prog: Program, cfg: C.Config, shared: Memories, start: C.Core)
      ensures this.prog == prog && this.cfg == cfg && this.shared == shared && Value() == start
      ensures events == 0 && oobReads == 0 && oobWrites == 0
    {
      this.prog, this.cfg, this.shared := prog, cfg, shared;
      pc, s, undef, v, vcc := start.pc, start.s, start.undef, start.v, start.vcc;
      scc, exec, steps, terminated, cycles := start.scc, start.exec, start.steps, start.terminated, start.cycles;
      events, oobReads, oobWrites := 0, 0, 0;
    }

    // ---------------- scalar registers ----------------

    method SSet(dst: SOperand, w: Word) returns (signal: C.Signal)
      requires Valid()
      modifies `s, `undef, `vcc, `exec, `scc
      ensures Now(signal) == C.Write(old(Value()), old(shared.Value()), dst, w)
    {
      signal := C.Fine;
      match dst
      case SReg(i) => s := s[i := w]; undef := undef - {i};
      case VccLo => vcc := w;
      case ExecLo => exec := w;
      case SccBit => scc := w & 1 == 1;
      case NullReg =>
      case M0 => signal := C.NotImplemented;
      case Lit(_) => signal := C.NotImplemented;
    }

    method Move(dst: SOperand, a: SOperand) returns (signal: C.Signal)
      requires Valid()
      modifies `s, `undef, `vcc, `exec, `scc
      ensures Now(signal) == C.StepMov(old(Value()), old(shared.Value()), dst, a)
    {
      hide C.SGet, C.Write;
      var x := C.SGet(Value(), a);
      if x.Refused? {
        return C.UndefRead(x.reg);
      }
      signal := SSet(dst, x.value);
    }

    method Add(dst: SOperand, a: SOperand, b: SOperand, carry: int) returns (signal: C.Signal)
      requires Valid()
      modifies `s, `undef, `vcc, `exec, `scc
      ensures Now(signal) == C.StepAdd(old(Value()), old(shared.Value()), dst, a, b, carry)
    {
      hide C.SGetInt, Trunc, C.Write, C.StepAdd;
      AddStops(Value(), shared.Value(), dst, a, b, carry);
      var x := C.SGetInt(Value(), a);
      if x.Refused? {
        return C.UndefRead(x.reg);
      }
      var y := C.SGetInt(Value(), b);
      if y.Refused? {
        return C.UndefRead(y.reg);
      }
      ghost var c, sh := Value(), shared.Value();
      var r := x.value + y.value + carry;
      AddIs(c, sh, dst, a, b, carry, r);
      signal := SSet(dst, Trunc(r));
      if signal.Fine? {
        scc := r > 0xFFFF_FFFF;
        assert shared.Value() == sh;
      }
    }

    method Bitwise(op: SBinary, dst: SOperand, a: SOperand, b: SOperand) returns (signal: C.Signal)
      requires Valid()
      modifies `s, `undef, `vcc, `exec, `scc
      ensures Now(signal) == C.StepSBin(old(Value()), old(shared.Value()), op, dst, a, b)
    {
      hide C.SGet, EvalS, C.Write, C.StepSBin;
      SBinIs(Value(), shared.Value(), op, dst, a, b);
      var x := C.SGet(Value(), a);
      if x.Refused? {
        return C.UndefRead(x.reg);
      }
      var y := C.SGet(Value(), b);
      if y.Refused? {
        return C.UndefRead(y.reg);
      }
      signal := SSet(dst, EvalS(op, x.value, y.value));
    }

    method Compare(op: SCompare, a: SOperand, b: SOperand) returns (signal: C.Signal)
      requires Valid()
      modifies `scc
      ensures Now(signal) == C.StepCmp(old(Value()), old(shared.Value()), op, a, b)
    {
      hide C.SGet, HoldsS, C.StepCmp;
      SCmpIs(Value(), shared.Value(), op, a, b);
      var x := C.SGet(Value(), a);
      if x.Refused? {
        return C.UndefRead(x.reg);
      }
      var y := C.SGet(Value(), b);
      if y.Refused? {
        return C.UndefRead(y.reg);
      }
      scc := HoldsS(op, x.value, y.value);
      signal := C.Fine;
    }

    method SaveExecInto(op: SaveExec, dst: SOperand, a: SOperand) returns (signal: C.Signal)
      requires Valid()
      modifies `s, `undef, `vcc, `exec, `scc
      ensures Now(signal) == C.StepSaveExec(old(Value()), old(shared.Value()), op, dst, a)
    {
      hide C.SGet, NewExec, C.Write, C.StepSaveExec;
      SaveExecIs(Value(), shared.Value(), op, dst, a);
      var x := C.SGet(Value(), a);
      if x.Refused? {
        return C.UndefRead(x.reg);
      }
      ghost var sh := shared.Value();
      var mask := NewExec(op, exec, x.value);
      signal := SSet(dst, exec);
      if signal.Fine? {
        exec := mask;
        assert shared.Value() == sh;
      }
    }

    /** Overwrites the destination registers one by one, which also defines them. */
    method LoadScalar(dst: SSpan, base: SSpan, offset: SOperand) returns (signal: C.Signal)
      requires Valid()
      modifies `s, `undef
      ensures Now(signal) == C.StepSLoad(old(Value()), old(shared.Value()), dst, base, offset)
    {
      hide C.PairGet, C.SGetInt, C.ReadBytes, Dword, C.StepSLoad;
      ghost var c, sh := Value(), shared.Value();
      LoadStops(c, sh, dst, base, offset);
      var b := C.PairGet(Value(), base, base.count);
      if b.Refused? {
        return C.UndefRead(b.reg);
      }
      var o := C.SGetInt(Value(), offset);
      if o.Refused? {
        return C.UndefRead(o.reg);
      }
      var bytes := C.ReadBytes(shared.mem, (b.value + o.value) % C.ADDRESS_SPACE, 4 * dst.count);
      LoadIs(c, sh, dst, base, offset, bytes);
      for j := 0 to dst.count
        invariant s == LoadedFile(c.s, dst, bytes, j) && undef == StillUndef(c.undef, dst, j)
        invariant Value() == c.(s := s, undef := undef)
      {
        s := s[dst.first + j := Dword(bytes, j)];
        undef := undef - {dst.first + j};
      }
      signal := C.Fine;
    }

    // ---------------- vector arithmetic ----------------

    method VectorBinary(op: VBinary, dst: VIdx, x: VOperand, y: VOperand) returns (signal: C.Signal)
      requires Valid()
      modifies `v
      ensures Now(signal) == C.StepVBin(old(Value()), old(shared.Value()), op, dst, x, y)
    {
      hide Bit, C.VBinLane, Pair, C.StepVBin, LanesDone;
      ghost var c, sh := Value(), shared.Value();
      NothingDone(op, dst, Pair(c, x, y), c.exec, c.v);
      for lane := 0 to LANES
        invariant Value() == c.(v := LanesDone(op, dst, Pair(c, x, y), c.exec, c.v, lane))
        invariant forall k: nat :: k < lane && Bit(c.exec, k) ==> Pair(c, x, y).Both?
      {
        MoreDone(op, dst, Pair(c, x, y), c.exec, c.v, lane);
        if Bit(exec, lane) {
          SamePair(c, v, x, y);
          var src := Pair(Value(), x, y);
          if src.Stuck? {
            VBinStops(c, sh, op, dst, x, y, lane);
            return C.UndefRead(src.reg);
          }
          v := v[lane := C.VBinLane(op, dst, src.x, src.y, v[lane], lane)];
        }
      }
      VBinIs(c, sh, op, dst, x, y);
      signal := C.Fine;
    }

    // The mask of the active lanes on which the comparison holds.
    method CompareLanes(op: VCompare, x: VOperand, y: VOperand) returns (src: C.Sources, mask: Word)
      ensures src == C.Operands(Value(), x, y)
      ensures !src.Stuck? ==> mask == C.CompareMask(op, src, exec, v)
    {
      hide Bit, HoldsV, C.LaneValue, Pair, C.Operands, SetBit;
      mask := 0;
      for lane := 0 to LANES
        invariant forall k: nat :: k < lane && Bit(exec, k) ==> Pair(Value(), x, y).Both?
        invariant mask == MaskSoFar(op, Pair(Value(), x, y), exec, v, lane)
      {
        if Bit(exec, lane) {
          src := Pair(Value(), x, y);
          OperandsAre(Value(), x, y, lane);
          if src.Stuck? {
            return;
          }
          if HoldsV(op, C.LaneValue(src.x, v[lane], lane), C.LaneValue(src.y, v[lane], lane)) {
            mask := SetBit(mask, lane);
          }
        }
      }
      src := if exec == 0 then C.NoLane else Pair(Value(), x, y);
      CompareIs(Value(), op, x, y);
    }

    method VectorCompare(op: VCompare, dst: SOperand, x: VOperand, y: VOperand) returns (signal: C.Signal)
      requires Valid()
      modifies `s, `undef, `vcc, `exec, `scc
      ensures Now(signal) == C.StepVCmp(old(Value()), old(shared.Value()), op, dst, x, y)
    {
      hide C.Operands, C.CompareMask, C.Write;
      ghost var c, sh := Value(), shared.Value();
      var src, mask := CompareLanes(op, x, y);
      if src.Stuck? {
        return C.UndefRead(src.reg);
      }
      signal := SSet(dst, mask);
      assert Now(signal) == C.StepVCmp(c, sh, op, dst, x, y);
    }

    method VectorCompareExec(op: VCompare, x: VOperand, y: VOperand) returns (signal: C.Signal)
      requires Valid()
      modifies `exec
      ensures Now(signal) == C.StepVCmpx(old(Value()), old(shared.Value()), op, x, y)
    {
      hide C.Operands, C.CompareMask;
      var src, mask := CompareLanes(op, x, y);
      if src.Stuck? {
        return C.UndefRead(src.reg);
      }
      exec := mask;
      signal := C.Fine;
    }

    /** Every active lane's source is read before any lane is written. */
    method Permute(dst: VIdx, x: VOperand, y: VOperand) returns (signal: C.Signal)
      requires Valid()
      modifies `v
      ensures Now(signal) == C.StepBpermute(old(Value()), old(shared.Value()), dst, x, y)
    {
      hide C.Operands, C.PermuteAll;
      ghost var c, sh := Value(), shared.Value();
      var src := C.Operands(Value(), x, y);
      if src.Stuck? {
        return C.UndefRead(src.reg);
      }
      if src.Both? {
        PermuteLanes(dst, src.x, src.y);
      }
      assert Now(C.Fine) == C.StepBpermute(c, sh, dst, x, y);
      signal := C.Fine;
    }

    method PermuteLanes(dst: VIdx, x: C.LaneSource, y: C.LaneSource)
      modifies `v
      ensures v == C.PermuteAll(dst, x, y, exec, old(v))
    {
      hide Bit, C.PermuteLane, PermutedTo, C.PermuteAll;
      var vals: map<nat, Word> := map[];
      for lane := 0 to LANES
        invariant forall k: nat :: k < lane && Bit(exec, k) ==> k in vals && vals[k] == C.PermuteLane(x, y, v, k)
      {
        if Bit(exec, lane) {
          vals := vals[lane := C.PermuteLane(x, y, v, lane)];
        }
      }
      PermutedSoFar(dst, x, y, exec, v, 0);
      for lane := 0 to LANES
        invariant v == PermutedTo(dst, x, y, exec, old(v), lane)
      {
        PermutedSoFar(dst, x, y, exec, old(v), lane);
        if Bit(exec, lane) {
          v := v[lane := v[lane][dst := vals[lane]]];
        }
      }
      PermutedSoFar(dst, x, y, exec, old(v), LANES);
    }

    // ---------------- vector registers ----------------

    // Dword by dword, into vN or v[a:b].
    method PutData(lane: nat, dst: VData, bytes: seq<Byte>)
      requires lane < LANES
      modifies `v
      ensures v == old(v)[lane := C.PutBytes(old(v)[lane], dst, bytes)]
    {
      hide Dword, FilledTo;
      match dst
      case One(n) => v := v[lane := v[lane][n := Dword(bytes, 0)]];
      case Many(span) =>
        FilledSoFar(v[lane], span, bytes, 0);
        for j := 0 to span.count
          invariant v == old(v)[lane := FilledTo(old(v)[lane], span, bytes, j)]
        {
          FilledSoFar(old(v)[lane], span, bytes, j);
          v := v[lane := v[lane][span.first + j := Dword(bytes, j)]];
        }
        FilledSoFar(old(v)[lane], span, bytes, span.count);
    }

    // What an out-of-range load leaves behind.
    method ZeroData(lane: nat, dst: VData, width: nat, d16hi: bool)
      requires lane < LANES
      modifies `v
      ensures v == old(v)[lane := C.ZeroInto(old(v)[lane], dst, width, d16hi)]
    {
      hide ZeroedTo, C.LowHalf;
      match dst
      case One(n) => v := v[lane := v[lane][n := if d16hi then C.LowHalf(v[lane][n]) else 0]];
      case Many(span) =>
        var last := if span.count < width / 4 then span.count else width / 4;
        ZeroedSoFar(v[lane], span, width, 0);
        for j := 0 to last
          invariant v == old(v)[lane := ZeroedTo(old(v)[lane], span, j)]
        {
          ZeroedSoFar(old(v)[lane], span, width, j);
          v := v[lane := v[lane][span.first + j := 0]];
        }
        ZeroedSoFar(old(v)[lane], span, width, last);
    }

    // ---------------- LDS ----------------

    method LdsRead(ea: nat, n: nat) returns (bytes: seq<Byte>)
      requires Valid()
      ensures bytes == C.LdsBytes(cfg, shared.lds[..], ea, n)
    {
      bytes := [];
      for i := 0 to n
        invariant bytes == C.LdsBytes(cfg, shared.lds[..], ea, i)
      {
        bytes := bytes + [if ea + i < cfg.alloc then shared.lds[ea + i] else 0];
      }
    }

    /** Word by word and byte by byte, up to n bytes, never past the allocation. */
    method LdsWrite(ea: nat, words: seq<Word>, n: nat)
      requires Valid()
      modifies shared.lds
      ensures shared.lds[..] == C.LdsPut(cfg, old(shared.lds[..]), ea, C.DataBytes(words, n))
    {
      hide C.LdsPut, C.DataBytes, ByteOf;
      ghost var was := shared.lds[..];
      ghost var bytes := C.DataBytes(words, n);
      DataByteAt(words, n);
      PutNone(cfg, was, ea);
      var left, j := n, 0;
      while j < |words| && left > 0
        invariant j <= |words| && left == (if 4 * j <= n then n - 4 * j else 0)
        invariant shared.lds[..] == C.LdsPut(cfg, was, ea, bytes[..if 4 * j <= |bytes| then 4 * j else |bytes|])
      {
        var nb := if left < 4 then left else 4;
        for k := 0 to nb
          invariant shared.lds[..] == C.LdsPut(cfg, was, ea, bytes[..4 * j + k])
        {
          PutMore(cfg, was, ea, bytes, 4 * j + k);
          if ea + 4 * j + k < cfg.alloc {
            shared.lds[ea + 4 * j + k] := ByteOf(words[j], k);
          }
        }
        left := left - nb;
        j := j + 1;
      }
      assert bytes[..|bytes|] == bytes;
    }

    method LoadLane(dst: VData, addr: VIdx, imm: int, width: Width, d16hi: bool, lane: nat)
      requires Valid() && lane < LANES
      modifies `v
      ensures v == old(v)[lane := C.DsLoadOne(cfg, dst, addr, imm, width, d16hi, old(v)[lane], shared.lds[..]).regs]
    {
      hide C.EffectiveAddress, C.InRange, C.RawAddress, C.LdsBytes, C.PutBytes, C.ZeroInto, C.MergeHigh, Dword;
      var ea := C.EffectiveAddress(cfg, C.RawAddress(v[lane][addr], imm));
      if C.InRange(cfg, ea, width) {
        var bytes := LdsRead(ea, width);
        if dst.One? && d16hi {
          v := v[lane := v[lane][dst.n := C.MergeHigh(v[lane][dst.n], Dword(bytes, 0))]];
        } else {
          PutData(lane, dst, bytes);
        }
      } else {
        ZeroData(lane, dst, width, d16hi);
      }
    }

    method StoreLane(addr: VIdx, words: seq<Word>, imm: int, width: nat, lane: nat)
      requires Valid() && lane < LANES
      modifies shared.lds
      ensures shared.lds[..]
        == C.DsStoreOne(cfg, addr, C.DataBytes(words, width), imm, width, v[lane], old(shared.lds[..])).lds
    {
      hide C.EffectiveAddress, C.InRange, C.RawAddress, C.LdsPut, C.DataBytes;
      var ea := C.EffectiveAddress(cfg, C.RawAddress(v[lane][addr], imm));
      if C.InRange(cfg, ea, width) {
        LdsWrite(ea, words, width);
      }
    }

    method LoadHalf(span: VSpan, addr: VIdx, off: int, j: nat, lane: nat)
      requires Valid() && lane < LANES
      modifies `v
      ensures v == old(v)[lane := C.DsLoadHalf(cfg, span, addr, off, j, old(v)[lane], shared.lds[..]).regs]
    {
      hide C.EffectiveAddress, C.InRange, C.RawAddress, C.LdsBytes, Dword;
      var ea := C.EffectiveAddress(cfg, C.RawAddress(v[lane][addr], 8 * off));
      var low, high := 0, 0;
      if C.InRange(cfg, ea, 8) {
        var bytes := LdsRead(ea, 8);
        low, high := Dword(bytes, 0), Dword(bytes, 1);
      }
      if 2 * j + 1 < span.count {
        v := v[lane := v[lane][span.first + 2 * j := low][span.first + 2 * j + 1 := high]];
      }
    }

    // The two dwords of one half of a two-address store.
    function PairWords(lane: nat, data: VData): seq<Word>
      requires lane < LANES
      reads this
    {
      var words := C.Data(v[lane], data);
      if |words| > 1 then words[..2] else words + [0]
    }

    /** One lane's share of a DS instruction. */
    method DsLane(op: DsOp, lane: nat)
      requires Valid() && lane < LANES
      modifies `v, shared.lds
      ensures var r := C.DsOne(cfg, op, old(v)[lane], old(shared.lds[..]));
        v == old(v)[lane := r.regs] && shared.lds[..] == r.lds
    {
      hide C.DsLoadOne, C.DsStoreOne, C.DsLoadHalf, C.DataBytes;
      match op
      case DsLoad(dst, addr, imm, width, d16hi) =>
        LoadKeepsLds(cfg, op, v[lane], shared.lds[..]);
        LoadLane(dst, addr, imm, width, d16hi, lane);
      case DsStore(addr, data, imm, width, d16hi) =>
        StoreKeepsRegisters(cfg, op, v[lane], shared.lds[..]);
        StoreLane(addr, C.StoreWords(v[lane], data, d16hi), imm, width, lane);
      case DsLoad2(span, addr, off0, off1) =>
        LoadKeepsLds(cfg, op, v[lane], shared.lds[..]);
        LoadHalf(span, addr, off0, 0, lane);
        LoadHalf(span, addr, off1, 1, lane);
      case DsStore2(addr, data0, data1, off0, off1) =>
        StoreKeepsRegisters(cfg, op, v[lane], shared.lds[..]);
        StoreLane(addr, PairWords(lane, data0), 8 * off0, 8, lane);
        StoreLane(addr, PairWords(lane, data1), 8 * off1, 8, lane);
    }

    /** The DS handlers: every active lane in lane order, each seeing the bytes
        the lanes before it stored. */
    method Transfer(op: DsOp)
      requires Valid()
      modifies `v, shared.lds
      ensures var w := C.DsUpTo(cfg, op, exec, old(v), old(shared.lds[..]), LANES); v == w.v && shared.lds[..] == w.lds
    {
      hide Bit, C.DsOne;
      for lane := 0 to LANES
        invariant var w := C.DsUpTo(cfg, op, exec, old(v), old(shared.lds[..]), lane); v == w.v && shared.lds[..] == w.lds
      {
        if Bit(exec, lane) {
          DsLane(op, lane);
        }
      }
    }

    /** The recorder, run before the step: one event per active lane and access. */
    method RecordDs(op: DsOp)
      modifies `events, `oobReads, `oobWrites
      ensures var k := RecordUpTo(cfg, op, exec, v, LANES);
        events == old(events) + k.events && oobReads == old(oobReads) + k.oobReads
        && oobWrites == old(oobWrites) + k.oobWrites
    {
      hide Bit, RecordLane, RecordUpTo;
      RecordMore(cfg, op, exec, v, 0);
      for lane := 0 to LANES
        invariant events == old(events) + RecordUpTo(cfg, op, exec, v, lane).events
        invariant oobReads == old(oobReads) + RecordUpTo(cfg, op, exec, v, lane).oobReads
        invariant oobWrites == old(oobWrites) + RecordUpTo(cfg, op, exec, v, lane).oobWrites
      {
        RecordMore(cfg, op, exec, v, lane);
        if Bit(exec, lane) {
          RecordOne(op, lane);
        }
      }
    }

    method RecordOne(op: DsOp, lane: nat)
      requires lane < LANES
      modifies `events, `oobReads, `oobWrites
      ensures var k := RecordLane(cfg, op, v[lane]);
        events == old(events) + k.events && oobReads == old(oobReads) + k.oobReads
        && oobWrites == old(oobWrites) + k.oobWrites
    {
      hide Misses, Accesses, RecordLane;
      var store := op.DsStore? || op.DsStore2?;
      var accesses := Accesses(op);
      for j := 0 to |accesses|
        invariant events == old(events) + j
        invariant oobReads == old(oobReads) + if store then 0 else MissesUpTo(cfg, v[lane], op, j)
        invariant oobWrites == old(oobWrites) + if store then MissesUpTo(cfg, v[lane], op, j) else 0
      {
        if Misses(cfg, v[lane], op.addr, accesses[j], AccessWidth(op)) {
          if store {
            oobWrites := oobWrites + 1;
          } else {
            oobReads := oobReads + 1;
          }
        }
        events := events + 1;
      }
      RecordIs(cfg, v[lane], op);
    }

    // ---------------- global memory ----------------

    method GlobalRead(a: nat, n: nat) returns (bytes: seq<Byte>)
      ensures bytes == C.ReadBytes(shared.mem, a, n)
    {
      hide C.MemByte, C.ReadBytes;
      bytes := [];
      ReadMore(shared.mem, a, 0);
      for j := 0 to n
        invariant bytes == C.ReadBytes(shared.mem, a, j)
      {
        ReadMore(shared.mem, a, j);
        bytes := bytes + [C.MemByte(shared.mem, (a + j) % C.ADDRESS_SPACE)];
      }
    }

    method GlobalLoadInto(op: GlobalOp, at: C.GlobalBase, lane: nat)
      requires op.GlobalLoad? && lane < LANES
      modifies `v
      ensures v == old(v)[lane :=
        C.GlobalLoadLane(shared.mem, op.dst, at, op.off, op.width, op.signed, old(v)[lane])]
    {
      hide C.GlobalAddress, C.PutBytes, C.SignFill, C.Filled, C.ReadBytes, C.GlobalLoadLane;
      var bytes := GlobalRead(C.GlobalAddress(v[lane], at, op.off), op.width);
      LoadedLane(shared.mem, op, at, v[lane], bytes);
      PutData(lane, op.dst, bytes);
      if op.signed {
        var d := if op.dst.One? then op.dst.n else op.dst.span.first;
        v := v[lane := v[lane][d := C.Filled(v[lane][d], C.SignFill(bytes))]];
      }
    }

    method GlobalStoreFrom(op: GlobalOp, at: C.GlobalBase, lane: nat)
      requires op.GlobalStore? && lane < LANES
      modifies shared`mem
      ensures shared.mem == C.WriteBytes(old(shared.mem), C.GlobalAddress(v[lane], at, op.off),
        C.DataBytes(C.Data(v[lane], op.data), op.width))
    {
      hide C.GlobalAddress, C.DataBytes, ByteOf, Wide, C.WriteBytes;
      var a := C.GlobalAddress(v[lane], at, op.off);
      var words := C.Data(v[lane], op.data);
      ghost var bytes := C.DataBytes(words, op.width);
      DataByteAt(words, op.width);
      WriteMore(shared.mem, a, bytes, 0);
      var left, j := op.width as int, 0;
      while j < |words| && left > 0
        invariant j <= |words| && left == (if 4 * j <= op.width then op.width - 4 * j else 0)
        invariant shared.mem == C.WriteBytes(old(shared.mem), a, bytes[..if 4 * j <= |bytes| then 4 * j else |bytes|])
      {
        var nb := if left < 4 then left else 4;
        for k := 0 to nb
          invariant shared.mem == C.WriteBytes(old(shared.mem), a, bytes[..4 * j + k])
        {
          WriteMore(old(shared.mem), a, bytes, 4 * j + k);
          shared.mem := shared.mem[a + 4 * j + k := Wide(ByteOf(words[j], k))];
        }
        left := left - nb;
        j := j + 1;
      }
      assert bytes[..|bytes|] == bytes;
    }

    method LoadGlobal(op: GlobalOp, at: C.GlobalBase)
      requires op.GlobalLoad?
      modifies `v
      ensures v == C.GlobalLoadAll(shared.mem, op.dst, at, op.off, op.width, op.signed, exec, old(v))
    {
      hide Bit, C.GlobalLoadLane;
      for lane := 0 to LANES
        invariant forall k: nat :: k < LANES ==> v[k] == if k < lane && Bit(exec, k)
          then C.GlobalLoadLane(shared.mem, op.dst, at, op.off, op.width, op.signed, old(v)[k]) else old(v)[k]
      {
        if Bit(exec, lane) {
          GlobalLoadInto(op, at, lane);
        }
      }
    }

    method StoreGlobal(op: GlobalOp, at: C.GlobalBase)
      requires op.GlobalStore?
      modifies shared`mem
      ensures shared.mem == C.StoreUpTo(old(shared.mem), at, op.data, op.off, op.width, exec, v, LANES)
    {
      hide Bit, C.WriteBytes, C.DataBytes, C.GlobalAddress;
      for lane := 0 to LANES
        invariant shared.mem == C.StoreUpTo(old(shared.mem), at, op.data, op.off, op.width, exec, v, lane)
      {
        if Bit(exec, lane) {
          GlobalStoreFrom(op, at, lane);
        }
      }
    }

    // ---------------- one step ----------------

    method ExecuteScalar(op: Opcode) returns (signal: C.Signal)
      requires Valid() && IsScalar(op)
      modifies `pc, `s, `undef, `vcc, `exec, `scc
      ensures Now(signal) == C.Dispatch(cfg, old(Value()), old(shared.Value()), op)
    {
      hide C.StepMov, C.StepAdd, C.StepSBin, C.StepCmp, C.StepSaveExec, C.StepSLoad, C.Taken;
      match op
      case SMov(dst, a) => signal := Move(dst, a);
      case SAddU32(dst, a, b) => signal := Add(dst, a, b, 0);
      case SAddcU32(dst, a, b) => signal := Add(dst, a, b, if scc then 1 else 0);
      case SBin(o, dst, a, b) => signal := Bitwise(o, dst, a, b);
      case SCselect(dst, a, b) => signal := Move(dst, if scc then a else b);
      case SCmp(o, a, b) => signal := Compare(o, a, b);
      case SSaveExec(o, dst, a) => signal := SaveExecInto(o, dst, a);
      case SLoad(dst, base, off) => signal := LoadScalar(dst, base, off);
      case SBranch(b, target) =>
        if C.Taken(Value(), b) {
          pc := target;
        }
        signal := C.Fine;
    }

    method ExecuteVector(op: Opcode) returns (signal: C.Signal)
      requires Valid() && (op.VBin? || op.VCmp? || op.VCmpx? || op.DsBpermute?)
      modifies `v, `s, `undef, `vcc, `exec, `scc
      ensures Now(signal) == C.Dispatch(cfg, old(Value()), old(shared.Value()), op)
    {
      hide C.StepVBin, C.StepVCmp, C.StepVCmpx, C.StepBpermute;
      match op
      case VBin(o, dst, x, y) => signal := VectorBinary(o, dst, x, y);
      case VCmp(o, dst, x, y) => signal := VectorCompare(o, dst, x, y);
      case VCmpx(o, x, y) => signal := VectorCompareExec(o, x, y);
      case DsBpermute(dst, x, y) => signal := Permute(dst, x, y);
    }

    /** The scalar base is read once: no lane changes a scalar register. */
    method GlobalAccess(op: GlobalOp) returns (signal: C.Signal)
      requires Valid()
      modifies `v, shared
      ensures Now(signal) == C.StepGlobal(old(Value()), old(shared.Value()), op)
    {
      hide C.ResolveBase, C.GlobalLoadAll, C.StoreUpTo;
      signal := C.Fine;
      if exec == 0 {
        return;
      }
      var at := C.ResolveBase(Value(), op.at);
      if at.Refused? {
        return C.UndefRead(at.reg);
      }
      if op.GlobalLoad? {
        LoadGlobal(op, at.value);
      } else {
        StoreGlobal(op, at.value);
      }
    }

    method ExecuteMemory(op: Opcode) returns (signal: C.Signal)
      requires Valid() && (op.Ds? || op.Global?)
      modifies `v, shared, shared.lds
      ensures Now(signal) == C.Dispatch(cfg, old(Value()), old(shared.Value()), op)
    {
      hide C.DsUpTo, C.StepGlobal;
      match op
      case Ds(d) => Transfer(d); signal := C.Fine;
      case Global(g) => signal := GlobalAccess(g);
    }

    method Execute(op: Opcode) returns (signal: C.Signal)
      requires Valid()
      modifies `pc, `v, `terminated, `s, `undef, `vcc, `exec, `scc, shared, shared.lds
      ensures Now(signal) == C.Dispatch(cfg, old(Value()), old(shared.Value()), op)
    {
      hide C.Dispatch;
      ghost var c, sh := Value(), shared.Value();
      Simple(cfg, c, sh, op);
      signal := C.Fine;
      if IsScalar(op) {
        signal := ExecuteScalar(op);
      } else if op.VBin? || op.VCmp? || op.VCmpx? || op.DsBpermute? {
        signal := ExecuteVector(op);
      } else if op.Ds? || op.Global? {
        signal := ExecuteMemory(op);
      } else if op.EndPgm? {
        terminated := true;
        signal := C.End;
      } else if op.Unimplemented? || (op.Barrier? && !op.implemented) {
        signal := C.NotImplemented;
      }
    }

    // Looks the control state up and, when it is new or its registers and
    // memory differ from last time, files it.
    method Sample() returns (recurs: bool)
      requires Valid()
      modifies `cycles
      ensures recurs == C.Recurs(old(Value()), shared.Value())
      ensures cycles == if recurs then old(cycles) else C.Remember(old(Value()), shared.Value())
    {
      match cycles
      case NoKeys => recurs := false;
      case Keys(first, full) =>
        var key := C.KeyOf(Value());
        var mark := C.Fingerprint(v, shared.mem);
        if key in first {
          recurs := key in full && full[key] == mark;
          if !recurs {
            cycles := C.Keys(first, full[key := mark]);
          }
        } else {
          cycles := C.Keys(first[key := steps], full[key := mark]);
          recurs := false;
        }
    }

    /** The base step: count, sample every 256th step, fetch, execute. */
    method BaseStep() returns (signal: C.Signal)
      requires Valid()
      modifies this, shared, shared.lds
      ensures Now(signal) == C.Step(prog, cfg, old(Value()), old(shared.Value()))
      ensures unchanged(`events, `oobReads, `oobWrites)
    {
      hide C.Dispatch, C.Recurs, C.Remember;
      if pc >= |prog| {
        return C.PcOverrun;
      }
      ghost var c, sh := Value(), shared.Value();
      steps := steps + 1;
      assert Value() == C.Counted(c);
      if steps % 256 == 0 {
        var recurs := Sample();
        if recurs {
          return C.Cycle;
        }
      }
      assert Value() == C.Sampled(c, sh);
      pc := pc + 1;
      assert shared.Value() == sh;
      signal := Execute(prog[pc - 1].op);
    }

    /** The recording step: a DS instruction is counted first, on the registers
        it is about to use. */
    method Step() returns (signal: C.Signal)
      requires Valid()
      modifies this, shared, shared.lds
      ensures Now(signal) == C.Step(prog, cfg, old(Value()), old(shared.Value()))
      ensures events == old(events) + old(Upcoming()).events
      ensures oobReads == old(oobReads) + old(Upcoming()).oobReads
      ensures oobWrites == old(oobWrites) + old(Upcoming()).oobWrites
    {
      hide C.Step, RecordUpTo;
      if pc < |prog| && prog[pc].op.Ds? {
        RecordDs(prog[pc].op.ds);
      }
      signal := BaseStep();
    }

    // What the recorder makes of the instruction about to run.
    ghost function Upcoming(): Counts
      reads this
    {
      if pc < |prog| && prog[pc].op.Ds? then RecordUpTo(cfg, prog[pc].op.ds, exec, v, LANES) else Counts(0, 0, 0)
    }
  }

  lemma LoadKeepsLds(cfg: C.Config, op: DsOp, regs: C.VRegs, lds: C.Lds)
    requires op.DsLoad? || op.DsLoad2?
    ensures C.DsOne(cfg, op, regs, lds).lds == lds
    ensures op.DsLoad2? ==> C.DsLoadHalf(cfg, op.span, op.addr, op.off0, 0, regs, lds).lds == lds
  {
  }

  lemma StoreKeepsRegisters(cfg: C.Config, op: DsOp, regs: C.VRegs, lds: C.Lds)
    requires op.DsStore? || op.DsStore2?
    ensures C.DsOne(cfg, op, regs, lds).regs == regs
    ensures op.DsStore2? ==>
      C.DsStoreOne(cfg, op.addr, C.PairBytes(regs, op.data0), 8 * op.off0, 8, regs, lds).regs == regs
  {
    hide C.DataBytes;
  }

  // The byte offsets of the accesses of one instruction.
  function Accesses(op: DsOp): seq<int> {
    match op
    case DsLoad(_, _, imm, _, _) => [imm]
    case DsStore(_, _, imm, _, _) => [imm]
    case DsLoad2(_, _, off0, off1) => [8 * off0, 8 * off1]
    case DsStore2(_, _, _, off0, off1) => [8 * off0, 8 * off1]
  }

  ghost function MissesUpTo(cfg: C.Config, regs: C.VRegs, op: DsOp, n: nat): nat
    requires n <= |Accesses(op)|
  {
    if n == 0 then 0
    else MissesUpTo(cfg, regs, op, n - 1) + C.Hit(Misses(cfg, regs, op.addr, Accesses(op)[n - 1], AccessWidth(op)))
  }

  lemma ReadMore(mem: C.Memory, a: nat, n: nat)
    ensures C.ReadBytes(mem, a, 0) == []
    ensures C.ReadBytes(mem, a, n + 1) == C.ReadBytes(mem, a, n) + [C.MemByte(mem, (a + n) % C.ADDRESS_SPACE)]
  {
    hide C.MemByte;
  }

  // What a lane's registers hold after a load of these bytes.
  lemma LoadedLane(mem: C.Memory, op: GlobalOp, at: C.GlobalBase, regs: C.VRegs, bytes: seq<Byte>)
    requires op.GlobalLoad? && bytes == C.ReadBytes(mem, C.GlobalAddress(regs, at, op.off), op.width)
    ensures var r := C.PutBytes(regs, op.dst, bytes);
      C.GlobalLoadLane(mem, op.dst, at, op.off, op.width, op.signed, regs)
      == if op.signed then C.WithSign(r, op.dst, bytes) else r
  {
    hide C.GlobalAddress, C.PutBytes, C.WithSign, C.ReadBytes;
  }

  lemma RecordMore(cfg: C.Config, op: DsOp, exec: Word, v: C.VFile, n: nat)
    requires n < LANES
    ensures RecordUpTo(cfg, op, exec, v, 0) == Counts(0, 0, 0)
    ensures var r, l, m := RecordUpTo(cfg, op, exec, v, n), RecordLane(cfg, op, v[n]), RecordUpTo(cfg, op, exec, v, n + 1);
      if Bit(exec, n) then m == Counts(r.events + l.events, r.oobReads + l.oobReads, r.oobWrites + l.oobWrites)
      else m == r
  {
    hide Bit, RecordLane;
  }

  lemma RecordIs(cfg: C.Config, regs: C.VRegs, op: DsOp)
    ensures var m := MissesUpTo(cfg, regs, op, |Accesses(op)|);
      RecordLane(cfg, op, regs)
      == if op.DsStore? || op.DsStore2? then Counts(|Accesses(op)|, 0, m) else Counts(|Accesses(op)|, m, 0)
  {
    hide Misses;
    var a := Accesses(op);
    assert MissesUpTo(cfg, regs, op, 1) == C.Hit(Misses(cfg, regs, op.addr, a[0], AccessWidth(op)));
  }

  lemma WriteMore(mem: C.Memory, a: nat, bytes: seq<Byte>, n: nat)
    ensures C.WriteBytes(mem, a, []) == mem
    ensures n < |bytes| ==>
      C.WriteBytes(mem, a, bytes[..n + 1]) == C.WriteBytes(mem, a, bytes[..n])[a + n := Wide(bytes[n])]
  {
    if n < |bytes| {
      assert bytes[..n + 1][..n] == bytes[..n];
    }
  }

  predicate IsScalar(op: Opcode) {
    op.SMov? || op.SAddU32? || op.SAddcU32? || op.SBin? || op.SCselect? || op.SCmp? || op.SSaveExec? || op.SLoad?
    || op.SBranch?
  }

  // The instructions that touch neither registers nor memory.
  lemma Simple(cfg: C.Config, c: C.Core, sh: C.Shared, op: Opcode)
    ensures op.Nop? ==> C.Dispatch(cfg, c, sh, op) == C.Stepped(c, sh, C.Fine)
    ensures op.Barrier? ==>
      C.Dispatch(cfg, c, sh, op) == C.Stepped(c, sh, if op.implemented then C.Fine else C.NotImplemented)
    ensures op.EndPgm? ==> C.Dispatch(cfg, c, sh, op) == C.Stepped(c.(terminated := true), sh, C.End)
    ensures op.Unimplemented? ==> C.Dispatch(cfg, c, sh, op) == C.Stepped(c, sh, C.NotImplemented)
  {
  }

  ghost function PermutedTo(dst: VIdx, x: C.LaneSource, y: C.LaneSource, exec: Word, v: C.VFile, n: nat): C.VFile {
    seq(LANES, l requires 0 <= l < LANES =>
      if l < n && Bit(exec, l) then v[l][dst := C.PermuteLane(x, y, v, l)] else v[l])
  }

  lemma PermutedSoFar(dst: VIdx, x: C.LaneSource, y: C.LaneSource, exec: Word, v: C.VFile, n: nat)
    ensures PermutedTo(dst, x, y, exec, v, 0) == v
    ensures n < LANES ==> var w := PermutedTo(dst, x, y, exec, v, n);
      w[n] == v[n] && PermutedTo(dst, x, y, exec, v, n + 1)
      == if Bit(exec, n) then w[n := w[n][dst := C.PermuteLane(x, y, v, n)]] else w
    ensures PermutedTo(dst, x, y, exec, v, LANES) == C.PermuteAll(dst, x, y, exec, v)
  {
    hide Bit, C.PermuteLane;
  }

  ghost function FilledTo(regs: C.VRegs, span: VSpan, bytes: seq<Byte>, n: nat): C.VRegs {
    seq(192, i requires 0 <= i < 192 =>
      if span.first <= i < span.first + n then Dword(bytes, i - span.first) else regs[i])
  }

  ghost function ZeroedTo(regs: C.VRegs, span: VSpan, n: nat): C.VRegs {
    seq(192, i requires 0 <= i < 192 => if span.first <= i < span.first + n then 0 else regs[i])
  }

  lemma FilledSoFar(regs: C.VRegs, span: VSpan, bytes: seq<Byte>, n: nat)
    ensures FilledTo(regs, span, bytes, 0) == regs
    ensures n < span.count ==>
      FilledTo(regs, span, bytes, n + 1) == FilledTo(regs, span, bytes, n)[span.first + n := Dword(bytes, n)]
    ensures FilledTo(regs, span, bytes, span.count) == C.PutBytes(regs, Many(span), bytes)
  {
    hide Dword;
  }

  lemma ZeroedSoFar(regs: C.VRegs, span: VSpan, width: nat, n: nat)
    ensures ZeroedTo(regs, span, 0) == regs
    ensures n < span.count ==> ZeroedTo(regs, span, n + 1) == ZeroedTo(regs, span, n)[span.first + n := 0]
    ensures var last := if span.count < width / 4 then span.count else width / 4;
      forall d16hi :: ZeroedTo(regs, span, last) == C.ZeroInto(regs, Many(span), width, d16hi)
  {
  }

  lemma DataByteAt(words: seq<Word>, n: nat)
    ensures |C.DataBytes(words, n)| == if n < 4 * |words| then n else 4 * |words|
    ensures forall j: nat, k: nat :: j < |words| && k < 4 && 4 * j + k < n ==>
      C.DataBytes(words, n)[4 * j + k] == ByteOf(words[j], k)
  {
    hide ByteOf;
  }

  lemma PutNone(cfg: C.Config, lds: C.Lds, ea: nat)
    ensures C.LdsPut(cfg, lds, ea, []) == lds
  {
  }

  lemma PutMore(cfg: C.Config, lds: C.Lds, ea: nat, bytes: seq<Byte>, n: nat)
    requires n < |bytes|
    ensures var w := C.LdsPut(cfg, lds, ea, bytes[..n]);
      C.LdsPut(cfg, lds, ea, bytes[..n + 1]) == if ea + n < cfg.alloc then w[ea + n := bytes[n]] else w
  {
  }

  // Both operands of a lane, whatever EXEC is.
  function Pair(c: C.Core, x: VOperand, y: VOperand): (r: C.Sources)
    ensures !r.NoLane?
  {
    match C.Resolve(c, x)
    case Refused(i) => C.Stuck(i)
    case Got(p) =>
      match C.Resolve(c, y)
      case Refused(i) => C.Stuck(i)
      case Got(q) => C.Both(p, q)
  }

  lemma SamePair(c: C.Core, v: C.VFile, x: VOperand, y: VOperand)
    ensures Pair(c.(v := v), x, y) == Pair(c, x, y)
  {
    assert C.Resolve(c.(v := v), x) == C.Resolve(c, x);
    assert C.Resolve(c.(v := v), y) == C.Resolve(c, y);
  }

  lemma OperandsAre(c: C.Core, x: VOperand, y: VOperand, lane: nat)
    requires lane < LANES && Bit(c.exec, lane)
    ensures C.Operands(c, x, y) == Pair(c, x, y)
  {
    hide Bit, C.Resolve;
    NoBits(lane);
  }

  ghost function LanesDone(op: VBinary, dst: VIdx, src: C.Sources, exec: Word, v: C.VFile, n: nat): C.VFile {
    seq(LANES, l requires 0 <= l < LANES =>
      if l < n && src.Both? && Bit(exec, l) then C.VBinLane(op, dst, src.x, src.y, v[l], l) else v[l])
  }

  lemma NothingDone(op: VBinary, dst: VIdx, src: C.Sources, exec: Word, v: C.VFile)
    ensures LanesDone(op, dst, src, exec, v, 0) == v
  {
  }

  lemma MoreDone(op: VBinary, dst: VIdx, src: C.Sources, exec: Word, v: C.VFile, n: nat)
    requires n < LANES
    ensures var w := LanesDone(op, dst, src, exec, v, n);
      w[n] == v[n] && LanesDone(op, dst, src, exec, v, n + 1)
      == if src.Both? && Bit(exec, n) then w[n := C.VBinLane(op, dst, src.x, src.y, v[n], n)] else w
    ensures src.Stuck? ==> LanesDone(op, dst, src, exec, v, n) == v
  {
    hide Bit, C.VBinLane;
  }

  lemma VBinStops(c: C.Core, sh: C.Shared, op: VBinary, dst: VIdx, x: VOperand, y: VOperand, lane: nat)
    requires lane < LANES && Bit(c.exec, lane) && Pair(c, x, y).Stuck?
    ensures C.StepVBin(c, sh, op, dst, x, y) == C.Stepped(c, sh, C.UndefRead(Pair(c, x, y).reg))
  {
    hide Bit, Pair, C.Operands;
    OperandsAre(c, x, y, lane);
  }

  lemma VBinIs(c: C.Core, sh: C.Shared, op: VBinary, dst: VIdx, x: VOperand, y: VOperand)
    requires forall k: nat :: k < LANES && Bit(c.exec, k) ==> Pair(c, x, y).Both?
    ensures C.StepVBin(c, sh, op, dst, x, y)
      == C.Stepped(c.(v := LanesDone(op, dst, Pair(c, x, y), c.exec, c.v, LANES)), sh, C.Fine)
  {
    hide Bit, Pair, C.VBinLane, C.Resolve;
    var src := Pair(c, x, y);
    if c.exec == 0 {
      forall k: nat | k < LANES ensures !Bit(c.exec, k) { NoBits(k); }
      assert LanesDone(op, dst, src, c.exec, c.v, LANES) == c.v;
    } else {
      SomeBit(c.exec);
      var lane: nat :| lane < LANES && Bit(c.exec, lane);
      OperandsAre(c, x, y, lane);
      assert LanesDone(op, dst, src, c.exec, c.v, LANES) == C.VBinAll(op, dst, src.x, src.y, c.exec, c.v);
    }
  }

  ghost function MaskSoFar(op: VCompare, src: C.Sources, exec: Word, v: C.VFile, n: nat): Word
    requires n <= LANES
  {
    if src.Both? then MaskUpTo(exec, C.CompareAll(op, src.x, src.y, v), n) else 0
  }

  lemma CompareIs(c: C.Core, op: VCompare, x: VOperand, y: VOperand)
    requires forall k: nat :: k < LANES && Bit(c.exec, k) ==> Pair(c, x, y).Both?
    ensures var src := C.Operands(c, x, y);
      && src == (if c.exec == 0 then C.NoLane else Pair(c, x, y))
      && !src.Stuck? && C.CompareMask(op, src, c.exec, c.v) == MaskSoFar(op, Pair(c, x, y), c.exec, c.v, LANES)
  {
    hide Bit, Pair, C.CompareAll, C.Resolve;
    if c.exec == 0 {
      if Pair(c, x, y).Both? {
        EmptyMask(C.CompareAll(op, Pair(c, x, y).x, Pair(c, x, y).y, c.v), LANES);
      }
    } else {
      SomeBit(c.exec);
      var lane: nat :| lane < LANES && Bit(c.exec, lane);
      OperandsAre(c, x, y, lane);
    }
  }

  lemma {:induction false} EmptyMask(p: seq<bool>, n: nat)
    requires |p| == LANES && n <= LANES
    ensures MaskUpTo(0, p, n) == 0
  {
    hide Bit, SetBit;
    if n > 0 {
      NoBits(n - 1);
      EmptyMask(p, n - 1);
    }
  }
}
