/** Fail-closed entry registers: what an undefined SGPR holds can never be
    observed, because every handler refuses to read it. */
module FailClosed {
  import opened Words
  import opened Isa
  import opened CoreSpec
  import Simt

  /** The two cores are the same but for the contents of undefined SGPRs.
      m0 is read without a check, so it must be defined; cycle sampling hashes
      the whole register file, so it must be off. */
  predicate Agree(a: Core, b: Core) {
    && b == a.(s := b.s)
    && M0_REG !in a.undef
    && a.cycles.NoKeys?
    && forall i: SIdx :: i !in a.undef ==> a.s[i] == b.s[i]
  }

  predicate SameStep(p: Stepped, q: Stepped) {
    p.signal == q.signal && p.shared == q.shared && Agree(p.core, q.core)
  }

  lemma SGetAgrees(a: Core, b: Core, x: SOperand)
    requires Agree(a, b)
    ensures SGet(a, x) == SGet(b, x) && SGetInt(a, x) == SGetInt(b, x)
  {
  }

  lemma WriteAgrees(a: Core, b: Core, sh: Shared, dst: SOperand, w: Word)
    requires Agree(a, b)
    ensures SameStep(Write(a, sh, dst, w), Write(b, sh, dst, w))
  {
    match dst
    case SReg(i) =>
      assert Write(a, sh, dst, w).core == a.(s := a.s[i := w], undef := a.undef - {i});
      assert Write(b, sh, dst, w).core == b.(s := b.s[i := w], undef := b.undef - {i});
    case _ =>
  }

  lemma OperandsAgree(a: Core, b: Core, x: VOperand, y: VOperand)
    requires Agree(a, b)
    ensures Operands(a, x, y) == Operands(b, x, y)
  {
    assert Resolve(a, x) == Resolve(b, x);
    assert Resolve(a, y) == Resolve(b, y);
  }

  lemma {:induction false} PairAgrees(a: Core, b: Core, p: SSpan, n: nat)
    requires Agree(a, b) && n <= p.count
    ensures PairGet(a, p, n) == PairGet(b, p, n)
  {
    if n > 0 {
      PairAgrees(a, b, p, n - 1);
    }
  }

  lemma BaseAgrees(a: Core, b: Core, at: GlobalAt)
    requires Agree(a, b)
    ensures ResolveBase(a, at) == ResolveBase(b, at)
  {
    hide PairGet;
    if at.AtBase? {
      PairAgrees(a, b, at.base, at.base.count);
    }
  }

  lemma LoadAgrees(a: Core, b: Core, sh: Shared, dst: SSpan, base: SSpan, off: SOperand)
    requires Agree(a, b)
    ensures SameStep(StepSLoad(a, sh, dst, base, off), StepSLoad(b, sh, dst, base, off))
  {
    hide ReadBytes, Dword;
    PairAgrees(a, b, base, base.count);
    SGetAgrees(a, b, off);
  }

  lemma ScalarAgrees(a: Core, b: Core, sh: Shared, op: Opcode, cfg: Config)
    requires Agree(a, b)
    requires op.SMov? || op.SAddU32? || op.SAddcU32? || op.SBin? || op.SCselect? || op.SCmp? || op.SSaveExec?
    ensures SameStep(Dispatch(cfg, a, sh, op), Dispatch(cfg, b, sh, op))
  {
    hide EvalS, HoldsS, NewExec, Trunc, SGet, SGetInt, Write;
    match op
    case SMov(dst, x) => SGetAgrees(a, b, x); if SGet(a, x).Got? { WriteAgrees(a, b, sh, dst, SGet(a, x).value); }
    case SAddU32(dst, x, y) => AddAgrees(a, b, sh, dst, x, y, 0);
    case SAddcU32(dst, x, y) => AddAgrees(a, b, sh, dst, x, y, if a.scc then 1 else 0);
    case SBin(o, dst, x, y) =>
      SGetAgrees(a, b, x);
      SGetAgrees(a, b, y);
      if SGet(a, x).Got? && SGet(a, y).Got? {
        WriteAgrees(a, b, sh, dst, EvalS(o, SGet(a, x).value, SGet(a, y).value));
      }
    case SCselect(dst, x, y) =>
      var z := if a.scc then x else y;
      SGetAgrees(a, b, z);
      if SGet(a, z).Got? { WriteAgrees(a, b, sh, dst, SGet(a, z).value); }
    case SCmp(_, x, y) => SGetAgrees(a, b, x); SGetAgrees(a, b, y);
    case SSaveExec(_, dst, x) => SGetAgrees(a, b, x); WriteAgrees(a, b, sh, dst, a.exec);
  }

  lemma AddAgrees(a: Core, b: Core, sh: Shared, dst: SOperand, x: SOperand, y: SOperand, carry: int)
    requires Agree(a, b)
    ensures SameStep(StepAdd(a, sh, dst, x, y, carry), StepAdd(b, sh, dst, x, y, carry))
  {
    hide Trunc, SGet, SGetInt, Write;
    SGetAgrees(a, b, x);
    SGetAgrees(a, b, y);
    if SGetInt(a, x).Got? && SGetInt(a, y).Got? {
      WriteAgrees(a, b, sh, dst, Trunc(SGetInt(a, x).value + SGetInt(a, y).value + carry));
    }
  }

  lemma VectorAgrees(a: Core, b: Core, sh: Shared, op: Opcode, cfg: Config)
    requires Agree(a, b)
    requires op.VBin? || op.VCmp? || op.VCmpx? || op.DsBpermute? || op.Ds? || op.Global?
    ensures SameStep(Dispatch(cfg, a, sh, op), Dispatch(cfg, b, sh, op))
  {
    hide VBinAll, CompareMask, PermuteAll, DsUpTo, GlobalLoadAll, StoreUpTo, ResolveBase, Operands, Write;
    match op
    case VBin(_, _, x, y) => OperandsAgree(a, b, x, y);
    case VCmp(o, dst, x, y) =>
      OperandsAgree(a, b, x, y);
      var src := Operands(a, x, y);
      if !src.Stuck? { WriteAgrees(a, b, sh, dst, CompareMask(o, src, a.exec, a.v)); }
    case VCmpx(_, x, y) => OperandsAgree(a, b, x, y);
    case DsBpermute(_, x, y) => OperandsAgree(a, b, x, y);
    case Ds(_) =>
    case Global(g) => BaseAgrees(a, b, g.at);
  }

  /** One instruction: same outcome, same memory, and the cores still agree. */
  lemma {:induction false} StepAgrees(prog: Program, cfg: Config, a: Core, b: Core, sh: Shared)
    requires Agree(a, b)
    ensures SameStep(Step(prog, cfg, a, sh), Step(prog, cfg, b, sh))
  {
    hide Dispatch;
    if a.pc < |prog| {
      DispatchAgrees(Simt.Fetched(a), Simt.Fetched(b), sh, prog[a.pc].op, cfg);
    }
  }

  lemma DispatchAgrees(a: Core, b: Core, sh: Shared, op: Opcode, cfg: Config)
    requires Agree(a, b)
    ensures SameStep(Dispatch(cfg, a, sh, op), Dispatch(cfg, b, sh, op))
  {
    hide StepMov, StepAdd, StepSBin, StepCmp, StepSaveExec, StepSLoad, StepVBin, StepVCmp, StepVCmpx, StepDs,
         StepBpermute, StepGlobal;
    match op
    case SLoad(dst, base, off) => LoadAgrees(a, b, sh, dst, base, off);
    case SBranch(_, _) =>
    case Nop =>
    case Barrier(_) =>
    case EndPgm =>
    case Unimplemented =>
    case VBin(_, _, _, _) => VectorAgrees(a, b, sh, op, cfg);
    case VCmp(_, _, _, _) => VectorAgrees(a, b, sh, op, cfg);
    case VCmpx(_, _, _) => VectorAgrees(a, b, sh, op, cfg);
    case DsBpermute(_, _, _) => VectorAgrees(a, b, sh, op, cfg);
    case Ds(_) => VectorAgrees(a, b, sh, op, cfg);
    case Global(_) => VectorAgrees(a, b, sh, op, cfg);
    case _ => ScalarAgrees(a, b, sh, op, cfg);
  }

  /** Two whole runs of one program: after any number of steps they have come
      back the same way, shared memory is the same, and whatever differs is
      still only the contents of undefined registers. */
  lemma {:induction false} RunsAgree(prog: Program, cfg: Config, a: Core, b: Core, sh: Shared, n: nat)
    requires Agree(a, b)
    ensures SameStep(Simt.Run(prog, cfg, a, sh, n), Simt.Run(prog, cfg, b, sh, n))
    decreases n
  {
    hide Step;
    if n > 0 {
      StepAgrees(prog, cfg, a, b, sh);
      var p, q := Step(prog, cfg, a, sh), Step(prog, cfg, b, sh);
      if p.signal.Fine? {
        RunsAgree(prog, cfg, p.core, q.core, p.shared, n - 1);
      }
    }
  }
}
