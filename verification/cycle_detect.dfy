/** Cycle detection: when the sampled state recurs, the wave really is in an
    endless loop, provided the LDS image, which the sample leaves out, recurs
    too. */
module CycleDetect {
  import opened Words
  import opened Isa
  import opened CoreSpec
  import opened Simt

  /** The same wave with detection switched off. */
  function Silent(c: Core): Core {
    c.(cycles := NoKeys)
  }

  /** b is a, except that fewer registers may be undefined, and except for the
      bookkeeping that execution never reads. */
  predicate Covers(a: Core, b: Core) {
    b == a.(undef := b.undef, steps := b.steps, cycles := b.cycles) && b.undef <= a.undef
  }

  predicate CoversStep(p: Stepped, q: Stepped) {
    p.signal.Fine? ==> q.signal.Fine? && q.shared == p.shared && Covers(p.core, q.core)
  }

  lemma SGetCovers(a: Core, b: Core, x: SOperand)
    requires Covers(a, b)
    ensures SGet(a, x).Got? ==> SGet(b, x) == SGet(a, x)
    ensures SGetInt(a, x).Got? ==> SGetInt(b, x) == SGetInt(a, x)
  {
  }

  lemma WriteCovers(a: Core, b: Core, sh: Shared, dst: SOperand, w: Word)
    requires Covers(a, b)
    ensures CoversStep(Write(a, sh, dst, w), Write(b, sh, dst, w))
  {
    match dst
    case SReg(i) =>
      assert Write(a, sh, dst, w).core == a.(s := a.s[i := w], undef := a.undef - {i});
      assert Write(b, sh, dst, w).core == b.(s := b.s[i := w], undef := b.undef - {i});
    case _ =>
  }

  lemma OperandsCovers(a: Core, b: Core, x: VOperand, y: VOperand)
    requires Covers(a, b)
    ensures !Operands(a, x, y).Stuck? ==> Operands(b, x, y) == Operands(a, x, y)
  {
    assert Resolve(a, x).Got? ==> Resolve(b, x) == Resolve(a, x);
    assert Resolve(a, y).Got? ==> Resolve(b, y) == Resolve(a, y);
  }

  lemma {:induction false} PairCovers(a: Core, b: Core, p: SSpan, n: nat)
    requires Covers(a, b) && n <= p.count
    ensures PairGet(a, p, n).Got? ==> PairGet(b, p, n) == PairGet(a, p, n)
  {
    if n > 0 {
      PairCovers(a, b, p, n - 1);
    }
  }

  lemma BaseCovers(a: Core, b: Core, at: GlobalAt)
    requires Covers(a, b)
    ensures ResolveBase(a, at).Got? ==> ResolveBase(b, at) == ResolveBase(a, at)
  {
    hide PairGet;
    if at.AtBase? {
      PairCovers(a, b, at.base, at.base.count);
    }
  }

  lemma LoadCovers(a: Core, b: Core, sh: Shared, dst: SSpan, base: SSpan, off: SOperand)
    requires Covers(a, b)
    ensures CoversStep(StepSLoad(a, sh, dst, base, off), StepSLoad(b, sh, dst, base, off))
  {
    hide ReadBytes, Dword;
    PairCovers(a, b, base, base.count);
    SGetCovers(a, b, off);
  }

  lemma AddCovers(a: Core, b: Core, sh: Shared, dst: SOperand, x: SOperand, y: SOperand, carry: int)
    requires Covers(a, b)
    ensures CoversStep(StepAdd(a, sh, dst, x, y, carry), StepAdd(b, sh, dst, x, y, carry))
  {
    hide Trunc, SGet, SGetInt, Write;
    SGetCovers(a, b, x);
    SGetCovers(a, b, y);
    if SGetInt(a, x).Got? && SGetInt(a, y).Got? {
      WriteCovers(a, b, sh, dst, Trunc(SGetInt(a, x).value + SGetInt(a, y).value + carry));
    }
  }

  lemma ScalarCovers(a: Core, b: Core, sh: Shared, op: Opcode, cfg: Config)
    requires Covers(a, b)
    requires op.SMov? || op.SAddU32? || op.SAddcU32? || op.SBin? || op.SCselect? || op.SCmp? || op.SSaveExec?
    ensures CoversStep(Dispatch(cfg, a, sh, op), Dispatch(cfg, b, sh, op))
  {
    hide EvalS, HoldsS, NewExec, Trunc, SGet, SGetInt, Write;
    match op
    case SMov(dst, x) => SGetCovers(a, b, x); if SGet(a, x).Got? { WriteCovers(a, b, sh, dst, SGet(a, x).value); }
    case SAddU32(dst, x, y) => AddCovers(a, b, sh, dst, x, y, 0);
    case SAddcU32(dst, x, y) => AddCovers(a, b, sh, dst, x, y, if a.scc then 1 else 0);
    case SBin(o, dst, x, y) =>
      SGetCovers(a, b, x);
      SGetCovers(a, b, y);
      if SGet(a, x).Got? && SGet(a, y).Got? {
        WriteCovers(a, b, sh, dst, EvalS(o, SGet(a, x).value, SGet(a, y).value));
      }
    case SCselect(dst, x, y) =>
      var z := if a.scc then x else y;
      SGetCovers(a, b, z);
      if SGet(a, z).Got? { WriteCovers(a, b, sh, dst, SGet(a, z).value); }
    case SCmp(_, x, y) => SGetCovers(a, b, x); SGetCovers(a, b, y);
    case SSaveExec(_, dst, x) => SGetCovers(a, b, x); WriteCovers(a, b, sh, dst, a.exec);
  }

  lemma VectorCovers(a: Core, b: Core, sh: Shared, op: Opcode, cfg: Config)
    requires Covers(a, b)
    requires op.VBin? || op.VCmp? || op.VCmpx? || op.DsBpermute? || op.Ds? || op.Global?
    ensures CoversStep(Dispatch(cfg, a, sh, op), Dispatch(cfg, b, sh, op))
  {
    hide VBinAll, CompareMask, PermuteAll, DsUpTo, GlobalLoadAll, StoreUpTo, ResolveBase, Operands, Write;
    match op
    case VBin(_, _, x, y) => OperandsCovers(a, b, x, y);
    case VCmp(o, dst, x, y) =>
      OperandsCovers(a, b, x, y);
      var src := Operands(a, x, y);
      if !src.Stuck? { WriteCovers(a, b, sh, dst, CompareMask(o, src, a.exec, a.v)); }
    case VCmpx(_, x, y) => OperandsCovers(a, b, x, y);
    case DsBpermute(_, x, y) => OperandsCovers(a, b, x, y);
    case Ds(_) =>
    case Global(g) => BaseCovers(a, b, g.at);
  }

  lemma {:induction false} DispatchCovers(a: Core, b: Core, sh: Shared, op: Opcode, cfg: Config)
    requires Covers(a, b)
    ensures CoversStep(Dispatch(cfg, a, sh, op), Dispatch(cfg, b, sh, op))
  {
    hide StepMov, StepAdd, StepSBin, StepCmp, StepSaveExec, StepSLoad, StepVBin, StepVCmp, StepVCmpx, StepDs,
         StepBpermute, StepGlobal;
    match op
    case SLoad(dst, base, off) => LoadCovers(a, b, sh, dst, base, off);
    case SBranch(_, _) =>
    case Nop =>
    case Barrier(_) =>
    case EndPgm =>
    case Unimplemented =>
    case VBin(_, _, _, _) => VectorCovers(a, b, sh, op, cfg);
    case VCmp(_, _, _, _) => VectorCovers(a, b, sh, op, cfg);
    case VCmpx(_, _, _) => VectorCovers(a, b, sh, op, cfg);
    case DsBpermute(_, _, _) => VectorCovers(a, b, sh, op, cfg);
    case Ds(_) => VectorCovers(a, b, sh, op, cfg);
    case Global(_) => VectorCovers(a, b, sh, op, cfg);
    case _ => ScalarCovers(a, b, sh, op, cfg);
  }

  lemma SilentStep(prog: Program, cfg: Config, c: Core, sh: Shared)
    requires c.cycles.NoKeys? && c.pc < |prog|
    ensures Step(prog, cfg, c, sh) == Dispatch(cfg, Fetched(c), sh, prog[c.pc].op)
  {
    hide Dispatch;
  }

  lemma OpenStep(prog: Program, cfg: Config, c: Core, sh: Shared)
    requires Step(prog, cfg, c, sh).signal.Fine?
    ensures c.pc < |prog|
    ensures Step(prog, cfg, c, sh) == Dispatch(cfg, Sampled(c, sh).(pc := c.pc + 1), sh, prog[c.pc].op)
  {
    hide Dispatch, Sampled, Recurs;
  }

  lemma SampledCovers(a: Core, b: Core, sh: Shared)
    requires Covers(a, b)
    ensures Covers(Sampled(a, sh).(pc := a.pc + 1), Fetched(b))
  {
    hide Remember;
  }

  // A silent wave takes every step its original takes.
  lemma StepCovers(prog: Program, cfg: Config, a: Core, b: Core, sh: Shared)
    requires Covers(a, b) && b.cycles.NoKeys?
    ensures CoversStep(Step(prog, cfg, a, sh), Step(prog, cfg, b, sh))
  {
    hide Dispatch, Step, Sampled;
    if Step(prog, cfg, a, sh).signal.Fine? {
      OpenStep(prog, cfg, a, sh);
      SilentStep(prog, cfg, b, sh);
      SampledCovers(a, b, sh);
      DispatchCovers(Sampled(a, sh).(pc := a.pc + 1), Fetched(b), sh, prog[a.pc].op, cfg);
    }
  }

  lemma {:induction false} StaysSilent(prog: Program, cfg: Config, c: Core, sh: Shared)
    requires c.cycles.NoKeys?
    ensures Step(prog, cfg, c, sh).core.cycles.NoKeys?
  {
    hide Dispatch, Step;
    if c.pc < |prog| {
      SilentStep(prog, cfg, c, sh);
      KeepsTable(Fetched(c), sh, prog[c.pc].op, cfg);
    } else {
      PastTheEnd(prog, cfg, c, sh);
    }
  }

  lemma PastTheEnd(prog: Program, cfg: Config, c: Core, sh: Shared)
    requires c.pc >= |prog|
    ensures Step(prog, cfg, c, sh) == Stepped(c, sh, PcOverrun)
  {
  }

  // The core differs from c only as an instruction may make it differ.
  predicate KeptTable(c: Core, r: Stepped) {
    && r.core.cycles == c.cycles && r.core.undef <= c.undef && r.core.steps == c.steps
    && (r.signal.Fine? ==> r.core.terminated == c.terminated)
  }

  lemma WriteKeeps(c: Core, sh: Shared, dst: SOperand, w: Word)
    ensures KeptTable(c, Write(c, sh, dst, w))
  {
  }

  lemma ScalarKeeps(c: Core, sh: Shared, op: Opcode, cfg: Config)
    requires op.SMov? || op.SAddU32? || op.SAddcU32? || op.SBin? || op.SCselect? || op.SCmp? || op.SSaveExec?
    ensures KeptTable(c, Dispatch(cfg, c, sh, op))
  {
    hide EvalS, HoldsS, NewExec, Trunc, SGet, SGetInt, Write;
    forall dst, w ensures KeptTable(c, Write(c, sh, dst, w)) { WriteKeeps(c, sh, dst, w); }
  }

  lemma VectorKeeps(c: Core, sh: Shared, op: Opcode, cfg: Config)
    requires op.VBin? || op.VCmp? || op.VCmpx? || op.DsBpermute? || op.Ds? || op.Global?
    ensures KeptTable(c, Dispatch(cfg, c, sh, op))
  {
    hide VBinAll, CompareMask, PermuteAll, DsUpTo, GlobalLoadAll, StoreUpTo, ResolveBase, Operands, Write;
    forall dst, w ensures KeptTable(c, Write(c, sh, dst, w)) { WriteKeeps(c, sh, dst, w); }
  }

  lemma LoadKeeps(c: Core, sh: Shared, dst: SSpan, base: SSpan, off: SOperand)
    ensures KeptTable(c, StepSLoad(c, sh, dst, base, off))
  {
    hide ReadBytes, Dword, PairGet, SGetInt;
  }

  // Instructions neither touch the table nor make a register undefined again.
  lemma KeepsTable(c: Core, sh: Shared, op: Opcode, cfg: Config)
    ensures KeptTable(c, Dispatch(cfg, c, sh, op))
  {
    hide StepMov, StepAdd, StepSBin, StepCmp, StepSaveExec, StepSLoad, StepVBin, StepVCmp, StepVCmpx, StepDs,
         StepBpermute, StepGlobal;
    match op
    case SLoad(dst, base, off) => LoadKeeps(c, sh, dst, base, off);
    case SBranch(_, _) =>
    case Nop =>
    case Barrier(_) =>
    case EndPgm =>
    case Unimplemented =>
    case VBin(_, _, _, _) => VectorKeeps(c, sh, op, cfg);
    case VCmp(_, _, _, _) => VectorKeeps(c, sh, op, cfg);
    case VCmpx(_, _, _) => VectorKeeps(c, sh, op, cfg);
    case DsBpermute(_, _, _) => VectorKeeps(c, sh, op, cfg);
    case Ds(_) => VectorKeeps(c, sh, op, cfg);
    case Global(_) => VectorKeeps(c, sh, op, cfg);
    case _ => ScalarKeeps(c, sh, op, cfg);
  }

  lemma {:induction false} RunCovers(prog: Program, cfg: Config, a: Core, b: Core, sh: Shared, n: nat)
    requires Covers(a, b) && b.cycles.NoKeys?
    ensures CoversStep(Run(prog, cfg, a, sh, n), Run(prog, cfg, b, sh, n))
    ensures Run(prog, cfg, a, sh, n).signal.Fine? ==> Run(prog, cfg, b, sh, n).core.cycles.NoKeys?
    decreases n
  {
    hide Step;
    if n > 0 {
      StepCovers(prog, cfg, a, b, sh);
      StaysSilent(prog, cfg, b, sh);
      var p, q := Step(prog, cfg, a, sh), Step(prog, cfg, b, sh);
      if p.signal.Fine? {
        RunCovers(prog, cfg, p.core, q.core, p.shared, n - 1);
      }
    }
  }

  lemma {:induction false} UndefShrinks(prog: Program, cfg: Config, c: Core, sh: Shared, n: nat)
    ensures Run(prog, cfg, c, sh, n).core.undef <= c.undef
    ensures Run(prog, cfg, c, sh, n).signal.Fine? ==> Run(prog, cfg, c, sh, n).core.terminated == c.terminated
    decreases n
  {
    hide Dispatch, Recurs, Remember;
    if n > 0 {
      if c.pc < |prog| && !(Counted(c).steps % 256 == 0 && Recurs(Counted(c), sh)) {
        KeepsTable(Sampled(c, sh).(pc := c.pc + 1), sh, prog[c.pc].op, cfg);
      }
      var r := Step(prog, cfg, c, sh);
      if r.signal.Fine? {
        UndefShrinks(prog, cfg, r.core, r.shared, n - 1);
      }
    }
  }

  lemma {:induction false} RunPrefix(prog: Program, cfg: Config, c: Core, sh: Shared, m: nat, n: nat)
    requires m <= n && Run(prog, cfg, c, sh, n).signal.Fine?
    ensures Run(prog, cfg, c, sh, m).signal.Fine?
    decreases m
  {
    hide Step;
    if m > 0 {
      var r := Step(prog, cfg, c, sh);
      RunPrefix(prog, cfg, r.core, r.shared, m - 1, n - 1);
    }
  }

  /** A silent wave that comes back to a state it has been in runs forever. */
  lemma {:induction false} RecurringRunsForever(prog: Program, cfg: Config, c: Core, sh: Shared, p: nat, k: nat)
    requires c.cycles.NoKeys? && p > 0
    requires var r := Run(prog, cfg, c, sh, p); r.signal.Fine? && r.shared == sh && Covers(c, r.core)
    ensures Run(prog, cfg, c, sh, k).signal.Fine?
    decreases k
  {
    hide Run, Step, Covers;
    if k <= p {
      RunPrefix(prog, cfg, c, sh, k, p);
    } else {
      var r := Run(prog, cfg, c, sh, p);
      RecurringRunsForever(prog, cfg, c, sh, p, k - p);
      RunCovers(prog, cfg, c, c, sh, p) by { assert Covers(c, c) by { SelfCovers(c); } }
      RunCovers(prog, cfg, c, r.core, sh, k - p);
      RunJoins(prog, cfg, c, sh, p, k - p);
    }
  }

  lemma SelfCovers(c: Core)
    ensures Covers(c, c)
  {
  }

  // ---------------- what the table holds ----------------

  // Step m of the run was a sample, and it recorded this state.
  predicate SampledAt(prog: Program, cfg: Config, c: Core, sh: Shared, m: nat, key: Key, f: Fingerprint) {
    var r := Run(prog, cfg, c, sh, m);
    && r.signal.Fine?
    && KeyOf(r.core) == key
    && FingerprintOf(r.core, r.shared) == f
  }

  predicate TableIsHistory(prog: Program, cfg: Config, c: Core, sh: Shared, n: nat, t: CycleTable) {
    t.Keys? ==> forall k :: k in t.full ==> exists m: nat :: m < n && SampledAt(prog, cfg, c, sh, m, k, t.full[k])
  }

  lemma RunLast(prog: Program, cfg: Config, c: Core, sh: Shared, n: nat)
    requires Run(prog, cfg, c, sh, n).signal.Fine?
    ensures var r := Run(prog, cfg, c, sh, n);
            Run(prog, cfg, c, sh, n + 1) == Step(prog, cfg, r.core, r.shared)
  {
    hide Step;
    RunJoins(prog, cfg, c, sh, n, 1);
    var r := Run(prog, cfg, c, sh, n);
    var q := Step(prog, cfg, r.core, r.shared);
    if q.signal.Fine? {
      assert Run(prog, cfg, q.core, q.shared, 0) == q;
    }
  }

  lemma {:induction false} TableKept(prog: Program, cfg: Config, c: Core, sh: Shared, n: nat)
    requires c.cycles == Keys(map[], map[])
    requires Run(prog, cfg, c, sh, n).signal.Fine?
    ensures TableIsHistory(prog, cfg, c, sh, n, Run(prog, cfg, c, sh, n).core.cycles)
    decreases n
  {
    hide Step, SampledAt, Dispatch, FingerprintOf, KeyOf;
    if n == 0 {
      assert Run(prog, cfg, c, sh, 0).core == c;
    } else {
      hide Run;
      RunPrefix(prog, cfg, c, sh, n - 1, n);
      TableKept(prog, cfg, c, sh, n - 1);
      RunLast(prog, cfg, c, sh, n - 1);
      var r := Run(prog, cfg, c, sh, n - 1);
      OpenStep(prog, cfg, r.core, r.shared);
      KeepsTable(Sampled(r.core, r.shared).(pc := r.core.pc + 1), r.shared, prog[r.core.pc].op, cfg);
      var t := Run(prog, cfg, c, sh, n).core.cycles;
      assert t == Sampled(r.core, r.shared).cycles;
      CountedLooksTheSame(r.core, r.shared);
      if t.Keys? {
        forall k | k in t.full
          ensures exists m: nat :: m < n && SampledAt(prog, cfg, c, sh, m, k, t.full[k])
        {
          if r.core.cycles.Keys? && k in r.core.cycles.full && t.full[k] == r.core.cycles.full[k] {
            var m: nat :| m < n - 1 && SampledAt(prog, cfg, c, sh, m, k, t.full[k]);
          } else {
            NowSampled(prog, cfg, c, sh, n - 1);
            assert SampledAt(prog, cfg, c, sh, n - 1, k, t.full[k]);
          }
        }
      }
    }
  }

  lemma CountedLooksTheSame(c: Core, sh: Shared)
    ensures KeyOf(Counted(c)) == KeyOf(c) && FingerprintOf(Counted(c), sh) == FingerprintOf(c, sh)
  {
  }

  lemma NowSampled(prog: Program, cfg: Config, c: Core, sh: Shared, m: nat)
    requires Run(prog, cfg, c, sh, m).signal.Fine?
    ensures var r := Run(prog, cfg, c, sh, m);
            SampledAt(prog, cfg, c, sh, m, KeyOf(r.core), FingerprintOf(r.core, r.shared))
  {
    hide Run;
  }

  // Silent and sampling waves go through the same states.
  lemma SilentAt(prog: Program, cfg: Config, c: Core, sh: Shared, n: nat)
    requires Run(prog, cfg, c, sh, n).signal.Fine?
    ensures var p, q := Run(prog, cfg, c, sh, n), Run(prog, cfg, Silent(c), sh, n);
            q.signal.Fine? && q.shared == p.shared && Covers(p.core, q.core) && q.core.cycles.NoKeys?
  {
    hide Run;
    RunCovers(prog, cfg, c, Silent(c), sh, n);
  }

  /** If the wave comes back with CYCLE, some earlier state of the run had the
      same control state, registers and memory; and if the LDS image was the
      same too, the wave with detection off never ends, halts or faults. */
  lemma {:induction false} CycleIsSound(prog: Program, cfg: Config, c: Core, sh: Shared, n: nat) returns (m: nat)
    requires c.cycles == Keys(map[], map[]) && !c.terminated
    requires Run(prog, cfg, c, sh, n).signal.Fine?
    requires var r := Run(prog, cfg, c, sh, n); Step(prog, cfg, r.core, r.shared).signal.Cycle?
    ensures m < n
    ensures var p, r := Run(prog, cfg, c, sh, m), Run(prog, cfg, c, sh, n);
      && p.signal.Fine?
      && KeyOf(p.core) == KeyOf(r.core) && FingerprintOf(p.core, p.shared) == FingerprintOf(r.core, r.shared)
      && (p.shared.lds == r.shared.lds ==>
            forall k: nat :: Run(prog, cfg, Silent(c), sh, k).signal.Fine?)
  {
    hide Run, Dispatch;
    TableKept(prog, cfg, c, sh, n);
    var r := Run(prog, cfg, c, sh, n);
    CycleMeansRecurs(prog, cfg, r.core, r.shared);
    CountedLooksTheSame(r.core, r.shared);
    m :| m < n && SampledAt(prog, cfg, c, sh, m, KeyOf(r.core), r.core.cycles.full[KeyOf(r.core)]);
    var p := Run(prog, cfg, c, sh, m);
    if p.shared.lds == r.shared.lds {
      UndefShrinks(prog, cfg, c, sh, m);
      UndefShrinks(prog, cfg, c, sh, n);
      forall k: nat ensures Run(prog, cfg, Silent(c), sh, k).signal.Fine? {
        LoopsForever(prog, cfg, c, sh, m, n, k);
      }
    }
  }

  lemma CycleMeansRecurs(prog: Program, cfg: Config, c: Core, sh: Shared)
    requires Step(prog, cfg, c, sh).signal.Cycle?
    ensures Recurs(Counted(c), sh)
  {
    hide Dispatch, Recurs;
    if c.pc < |prog| {
      NoInstructionCycles(cfg, Sampled(c, sh).(pc := c.pc + 1), sh, prog[c.pc].op);
    }
  }

  lemma NoInstructionCycles(cfg: Config, c: Core, sh: Shared, op: Opcode)
    ensures !Dispatch(cfg, c, sh, op).signal.Cycle?
  {
    hide EvalS, HoldsS, NewExec, Trunc, SGet, SGetInt, SSet, VBinAll, CompareMask, PermuteAll, DsUpTo,
         GlobalLoadAll, StoreUpTo, ResolveBase, Operands, ReadBytes, Dword, PairGet;
  }

  // The silent wave has been at step n where it was at step m.
  lemma LoopsForever(prog: Program, cfg: Config, c: Core, sh: Shared, m: nat, n: nat, k: nat)
    requires m < n && Run(prog, cfg, c, sh, n).signal.Fine? && Run(prog, cfg, c, sh, m).signal.Fine?
    requires var p, r := Run(prog, cfg, c, sh, m), Run(prog, cfg, c, sh, n);
      KeyOf(p.core) == KeyOf(r.core) && FingerprintOf(p.core, p.shared) == FingerprintOf(r.core, r.shared)
      && p.shared.lds == r.shared.lds && p.core.terminated == r.core.terminated
    ensures Run(prog, cfg, Silent(c), sh, k).signal.Fine?
  {
    hide Run;
    SilentAt(prog, cfg, c, sh, m);
    SilentAt(prog, cfg, c, sh, n);
    var q := Run(prog, cfg, Silent(c), sh, m);
    RunJoins(prog, cfg, Silent(c), sh, m, n - m);
    UndefShrinks(prog, cfg, q.core, q.shared, n - m);
    if k <= m {
      RunPrefix(prog, cfg, Silent(c), sh, k, m);
    } else {
      RecurringRunsForever(prog, cfg, q.core, q.shared, n - m, k - m);
      RunJoins(prog, cfg, Silent(c), sh, m, k - m);
    }
  }

  // ---------------- programs that store nothing to LDS ----------------

  /** A condition on the program alone under which a reported cycle is real. */
  predicate NeverStoresLds(prog: Program) {
    forall i: nat :: i < |prog| && prog[i].op.Ds? ==> prog[i].op.ds.DsLoad? || prog[i].op.ds.DsLoad2?
  }

  lemma {:induction false} LoadsKeepLds(cfg: Config, op: DsOp, exec: Word, v: VFile, lds: Lds, n: nat)
    requires n <= LANES && (op.DsLoad? || op.DsLoad2?)
    ensures DsUpTo(cfg, op, exec, v, lds, n).lds == lds
  {
    hide DsLoadOne, DsLoadHalf, Bit;
    if n > 0 {
      LoadsKeepLds(cfg, op, exec, v, lds, n - 1);
      LaneKeepsLds(cfg, op, DsUpTo(cfg, op, exec, v, lds, n - 1).v[n - 1], lds);
    }
  }

  lemma LaneKeepsLds(cfg: Config, op: DsOp, regs: VRegs, lds: Lds)
    requires op.DsLoad? || op.DsLoad2?
    ensures DsOne(cfg, op, regs, lds).lds == lds
  {
    hide LoadInto, ZeroInto, HalfInto, LdsBytes, EffectiveAddress, InRange, RawAddress, Dword;
  }

  lemma DispatchKeepsLds(cfg: Config, c: Core, sh: Shared, op: Opcode)
    requires op.Ds? ==> op.ds.DsLoad? || op.ds.DsLoad2?
    ensures Dispatch(cfg, c, sh, op).shared.lds == sh.lds
  {
    hide Write, SGet, SGetInt, PairGet, Operands, VBinAll, CompareMask, PermuteAll, DsUpTo, GlobalLoadAll, StoreUpTo, ResolveBase;
    forall dst, w ensures Write(c, sh, dst, w).shared == sh { WriteKeepsShared(c, sh, dst, w); }
    if op.Ds? {
      LoadsKeepLds(cfg, op.ds, c.exec, c.v, sh.lds, LANES);
    }
  }

  lemma WriteKeepsShared(c: Core, sh: Shared, dst: SOperand, w: Word)
    ensures Write(c, sh, dst, w).shared == sh
  {
  }

  lemma {:induction false} RunKeepsLds(prog: Program, cfg: Config, c: Core, sh: Shared, n: nat)
    requires NeverStoresLds(prog)
    ensures Run(prog, cfg, c, sh, n).shared.lds == sh.lds
    decreases n
  {
    hide Dispatch, Recurs, Remember;
    if n > 0 {
      if c.pc < |prog| {
        DispatchKeepsLds(cfg, Sampled(c, sh).(pc := c.pc + 1), sh, prog[c.pc].op);
      }
      var r := Step(prog, cfg, c, sh);
      if r.signal.Fine? {
        RunKeepsLds(prog, cfg, r.core, r.shared, n - 1);
      }
    }
  }

  /** For a program without LDS stores, a reported cycle is always real. */
  lemma {:induction false} CycleIsRealWithoutStores(prog: Program, cfg: Config, c: Core, sh: Shared, n: nat, k: nat)
    requires c.cycles == Keys(map[], map[]) && !c.terminated && NeverStoresLds(prog)
    requires Run(prog, cfg, c, sh, n).signal.Fine?
    requires var r := Run(prog, cfg, c, sh, n); Step(prog, cfg, r.core, r.shared).signal.Cycle?
    ensures Run(prog, cfg, Silent(c), sh, k).signal.Fine?
  {
    hide Run, Step, NeverStoresLds;
    var m := CycleIsSound(prog, cfg, c, sh, n);
    RunKeepsLds(prog, cfg, c, sh, m);
    RunKeepsLds(prog, cfg, c, sh, n);
  }
}
